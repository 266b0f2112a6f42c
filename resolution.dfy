/** Which projects a run scans (`fetchGitlabProjects`,
    gitlab-contributors.ts:252-307) and which groups a search finds
    (`findGroupPaths`, lines 309-338). */
module Resolution {
  import opened Common
  import opened Shapes
  import opened Fetcher

  /** A listed project is kept only with a truthy path and a truthy id. */
  predicate HasProjectIdentity(p: Project)
  {
    p.pathWithNamespace != "" && Truthy(p.id)
  }

  /** The `projects.map` callback that pushes each kept project. */
  function KeepProjects(records: seq<Project>): (kept: seq<Project>)
    ensures forall p :: p in kept <==> p in records && HasProjectIdentity(p)
    ensures |kept| <= |records|
  {
    if records == [] then []
    else (if HasProjectIdentity(records[0]) then [records[0]] else []) + KeepProjects(records[1..])
  }

  /** Filtering keeps the order of the listing. */
  lemma {:induction false} KeepProjectsAppend(a: seq<Project>, b: seq<Project>)
    ensures KeepProjects(a + b) == KeepProjects(a) + KeepProjects(b)
  {
    if a == [] {
      assert a + b == b;
    } else {
      assert (a + b)[0] == a[0] && (a + b)[1..] == a[1..] + b;
      KeepProjectsAppend(a[1..], b);
    }
  }

  /** A found group is kept only with a truthy id, name and full path. */
  predicate HasGroupIdentity(g: Group)
  {
    Truthy(g.id) && Truthy(g.name) && g.fullPath != ""
  }

  /** What is pushed for a kept group: its id, name and full path only. */
  function GroupCopy(g: Group): Group
  {
    Group(g.id, g.name, g.fullPath, None)
  }

  /** The `groups.map` callback that pushes each kept group. */
  function KeepGroups(records: seq<Group>): (kept: seq<Group>)
    ensures forall g | g in kept :: HasGroupIdentity(g) && g.visibility.None?
    ensures forall g | g in records && HasGroupIdentity(g) :: GroupCopy(g) in kept
    ensures forall g | g in kept :: exists r | r in records :: HasGroupIdentity(r) && g == GroupCopy(r)
    ensures |kept| <= |records|
  {
    if records == [] then []
    else (if HasGroupIdentity(records[0]) then [GroupCopy(records[0])] else []) + KeepGroups(records[1..])
  }

  lemma {:induction false} KeepGroupsAppend(a: seq<Group>, b: seq<Group>)
    ensures KeepGroups(a + b) == KeepGroups(a) + KeepGroups(b)
  {
    if a == [] {
      assert a + b == b;
    } else {
      assert (a + b)[0] == a[0] && (a + b)[1..] == a[1..] + b;
      KeepGroupsAppend(a[1..], b);
    }
  }

  /** `findGroupPaths`: the fully identified groups a search finds; a failed
      search is caught and finds none. */
  function FindGroupPaths(net: Network, query: string): (groups: seq<Group>)
    ensures forall g | g in groups :: HasGroupIdentity(g) && g.visibility.None?
    ensures net.groupSearch(query).Failed? ==> groups == []
  {
    match net.groupSearch(query)
    case Failed => []
    case Fetched(gs) => KeepGroups(gs)
  }

  const MembershipHost := "gitlab.com"

  /** The URLs `fetchGitlabProjects` lists projects from; `None` when it
      throws reading `user[0].id` from an empty user list. */
  function ProjectQueries(host: string, groups: Option<seq<string>>, users: seq<User>): (queries: Option<seq<ProjectQuery>>)
    ensures queries.Some? ==> |queries.value| == (if groups.Some? then |groups.value| + 1 else 1)
  {
    match groups
    case None => Some([VisibleProjects(Contains(host, MembershipHost))])
    case Some(gs) =>
      if users == [] then None
      else Some(seq(|gs|, i requires 0 <= i < |gs| => GroupProjects(gs[i])) + [UserProjects(users[0].id)])
  }

  /** The projects listed from `queries`, in order. The try block wraps the
      whole loop, so the first failed listing ends it and the later URLs are
      not fetched; what was gathered before is kept. */
  function CollectProjects(net: Network, queries: seq<ProjectQuery>): (projects: seq<Project>)
    ensures forall p | p in projects :: HasProjectIdentity(p)
    decreases |queries|
  {
    if queries == [] then []
    else
      match net.projects(queries[0])
      case Failed => []
      case Fetched(ps) => KeepProjects(ps) + CollectProjects(net, queries[1..])
  }

  /** `fetchGitlabProjects` as a value: `None` when it throws (the user fetch
      failed, or there is no user to read an id from). */
  function ResolveProjects(host: string, groups: Option<seq<string>>, net: Network): (projects: Option<seq<Project>>)
    ensures projects.Some? ==> forall p | p in projects.value :: HasProjectIdentity(p)
    ensures net.currentUser.Failed? ==> projects.None?
  {
    match net.currentUser
    case Failed => None
    case Fetched(users) =>
      match ProjectQueries(host, groups, users)
      case None => None
      case Some(queries) => Some(CollectProjects(net, queries))
  }

  /** `fetchGitlabProjects` as the source runs it: fetch the user, build the
      URL list, then list and filter URL after URL. */
  method FetchProjects(host: string, groups: Option<seq<string>>, net: Network) returns (projectList: Option<seq<Project>>)
    ensures projectList == ResolveProjects(host, groups, net)
  {
    var user := net.currentUser;
    if user.Failed? {
      return None;
    }
    var queries := ProjectQueries(host, groups, user.items);
    if queries.None? {
      return None;
    }
    var fullUrlSet := queries.value;
    var projects: seq<Project> := [];
    var i := 0;
    while i < |fullUrlSet|
      invariant 0 <= i <= |fullUrlSet|
      invariant projects + CollectProjects(net, fullUrlSet[i..]) == CollectProjects(net, fullUrlSet)
    {
      assert fullUrlSet[i..][0] == fullUrlSet[i] && fullUrlSet[i..][1..] == fullUrlSet[i + 1..];
      match net.projects(fullUrlSet[i]) {
        case Failed =>
          assert CollectProjects(net, fullUrlSet[i..]) == [];
          assert projects == CollectProjects(net, fullUrlSet);
          break;
        case Fetched(ps) =>
          projects := projects + KeepProjects(ps);
      }
      i := i + 1;
    }
    if i == |fullUrlSet| {
      assert fullUrlSet[i..] == [];
    }
    assert projects == CollectProjects(net, fullUrlSet);
    projectList := Some(projects);
  }

  /** A failed listing drops itself and every later URL. */
  lemma {:induction false} FailedListingEndsCollection(net: Network, queries: seq<ProjectQuery>, k: nat)
    requires k < |queries| && net.projects(queries[k]).Failed?
    ensures CollectProjects(net, queries) == CollectProjects(net, queries[..k])
    decreases k
  {
    if k > 0 {
      assert queries[1..][k - 1] == queries[k];
      FailedListingEndsCollection(net, queries[1..], k - 1);
      assert queries[1..][..k - 1] == queries[..k][1..];
    }
  }

  /** When every listing succeeds, the result is each listing's kept
      projects, in URL order. */
  lemma {:induction false} AllListingsCollected(net: Network, queries: seq<ProjectQuery>, listings: seq<seq<Project>>)
    requires |listings| == |queries|
    requires forall i | 0 <= i < |queries| :: net.projects(queries[i]) == Fetched(listings[i])
    ensures CollectProjects(net, queries) == KeptListings(listings)
    decreases |queries|
  {
    if queries != [] {
      AllListingsCollected(net, queries[1..], listings[1..]);
    }
  }

  function KeptListings(listings: seq<seq<Project>>): seq<Project>
  {
    if listings == [] then [] else KeepProjects(listings[0]) + KeptListings(listings[1..])
  }

  /** With a group list, present even if empty: one URL per group, then the
      user's own projects, so a group search that found nothing still scans
      the user's projects. */
  lemma GroupListQueries(host: string, gs: seq<string>, users: seq<User>)
    requires users != []
    ensures var qs := ProjectQueries(host, Some(gs), users);
      && qs.Some? && |qs.value| == |gs| + 1
      && (forall i | 0 <= i < |gs| :: qs.value[i] == GroupProjects(gs[i]))
      && qs.value[|gs|] == UserProjects(users[0].id)
      && (gs == [] ==> qs.value == [UserProjects(users[0].id)])
  {
  }

  /** Without a group list: one URL, asking for membership only on a host
      whose name contains "gitlab.com". */
  lemma NoGroupListQuery(host: string, users: seq<User>)
    ensures ProjectQueries(host, None, users) == Some([VisibleProjects(Contains(host, MembershipHost))])
  {
  }

  /** Resolution throws, ending the run, exactly when the current-user
      request fails or, with a group list, when it returns no user. */
  lemma ResolutionThrowsIff(host: string, groups: Option<seq<string>>, net: Network)
    ensures ResolveProjects(host, groups, net).None?
      <==> net.currentUser.Failed? || (groups.Some? && net.currentUser.items == [])
  {
  }

  /** Without a group list, resolution is the one listing `NoGroupListQuery`
      names. */
  lemma NoGroupResolution(host: string, net: Network)
    requires net.currentUser.Fetched?
    ensures ResolveProjects(host, None, net)
      == Some(CollectProjects(net, [VisibleProjects(Contains(host, MembershipHost))]))
  {
    NoGroupListQuery(host, net.currentUser.items);
  }
}
