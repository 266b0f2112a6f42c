/** The run driver `fetchGitlabContributors` (gitlab-contributors.ts:19-126):
    pick the mode, resolve the projects (rewriting the target's group list in
    place in group mode), aggregate project after project, build the
    breakdown table and return the entries sorted. */
module Driver {
  import opened Common
  import opened Shapes
  import opened Fetcher
  import opened Aggregation
  import opened Resolution
  import opened Engine
  import opened Report

  /** The caller's target description; `groups` is overwritten by the run. */
  class GitlabTarget {
    var url: Option<string>
    var token: string
    var project: Option<string>
    var groups: Option<seq<string>>

    constructor (url: Option<string>, token: string, project: Option<string>, groups: Option<seq<string>>)
      ensures this.url == url && this.token == token && this.project == project && this.groups == groups
    {
      this.url, this.token, this.project, this.groups := url, token, project, groups;
    }
  }

  const DefaultUrl := "https://gitlab.com/"

  /** `gitlabInfo.url ? gitlabInfo.url : gitlabDefaultUrl` */
  function HostOf(url: Option<string>): (host: string)
    ensures host != ""
  {
    if Truthy(url) then url.value else DefaultUrl
  }

  /** The groups found by the searches, search after search (lines 41-49). */
  function MatchedGroups(net: Network, queries: seq<string>): (groups: seq<Group>)
    ensures forall g | g in groups :: HasGroupIdentity(g) && g.visibility.None?
  {
    if queries == [] then []
    else MatchedGroups(net, queries[..|queries| - 1]) + FindGroupPaths(net, queries[|queries| - 1])
  }

  /** The new group list: each found group's full path, encoded (lines 50-55). */
  function EncodedPaths(groups: seq<Group>, encode: string -> string): seq<string>
  {
    seq(|groups|, i requires 0 <= i < |groups| => encode(groups[i].fullPath))
  }

  /** The three modes, decided in this order: a truthy single project, then a
      group list that is present (even if empty), then everything visible. */
  datatype Mode = SingleProject(path: string) | GroupSearch(queries: seq<string>) | AllVisible

  function ModeOf(project: Option<string>, groups: Option<seq<string>>): Mode
  {
    if Truthy(project) then SingleProject(project.value)
    else if groups.Some? then GroupSearch(groups.value)
    else AllVisible
  }

  /** What resolution decides: the project list (`None` when it threw, which
      ends the run before any project or table) and the target's group list
      afterwards. */
  datatype Plan = Plan(projects: Option<seq<Project>>, groups: Option<seq<string>>)

  function Resolve(url: Option<string>, project: Option<string>, groups: Option<seq<string>>, net: Network, encode: string -> string): Plan
  {
    match ModeOf(project, groups)
    case SingleProject(path) => Plan(Some([Project(path, None, None, None)]), groups)
    case GroupSearch(queries) =>
      var rewritten := EncodedPaths(MatchedGroups(net, queries), encode);
      Plan(ResolveProjects(HostOf(url), Some(rewritten), net), Some(rewritten))
    case AllVisible => Plan(ResolveProjects(HostOf(url), groups, net), groups)
  }

  /** The aggregates at the end of a run with plan `plan`. */
  function Final(plan: Plan, since: string, net: Network, encode: string -> string): (s: Aggregates)
    ensures s.RefsInRange()
  {
    if plan.projects.Some? then RunProjects(Empty, plan.projects.value, since, net, encode) else Empty
  }

  /** The resolution half of the run (lines 34-71): the single project, or
      the group searches with the target's list rewritten in place, or the
      listings of `fetchGitlabProjects`. */
  method ResolveTarget(target: GitlabTarget, net: Network, encode: string -> string)
    returns (projectList: Option<seq<Project>>)
    modifies target`groups
    ensures var plan := Resolve(target.url, target.project, old(target.groups), net, encode);
      projectList == plan.projects && target.groups == plan.groups
  {
    var host := HostOf(target.url);
    if Truthy(target.project) {
      projectList := Some([Project(target.project.value, None, None, None)]);
    } else if target.groups.Some? {
      var groupsList := SearchGroups(net, target.groups.value);
      var rewritten := EncodePaths(groupsList, encode);
      target.groups := Some(rewritten);
      projectList := FetchProjects(host, target.groups, net);
    } else {
      projectList := FetchProjects(host, target.groups, net);
    }
  }

  /** The group searches, one per query, concatenated (lines 40-49). */
  method SearchGroups(net: Network, queries: seq<string>) returns (groupsList: seq<Group>)
    ensures groupsList == MatchedGroups(net, queries)
  {
    groupsList := [];
    for i := 0 to |queries|
      invariant groupsList == MatchedGroups(net, queries[..i])
    {
      assert queries[..i + 1][..i] == queries[..i];
      groupsList := groupsList + FindGroupPaths(net, queries[i]);
    }
    assert queries[..|queries|] == queries;
  }

  /** The rewritten group list (lines 50-55). */
  method EncodePaths(groupsList: seq<Group>, encode: string -> string) returns (rewritten: seq<string>)
    ensures rewritten == EncodedPaths(groupsList, encode)
  {
    rewritten := [];
    for j := 0 to |groupsList|
      invariant rewritten == EncodedPaths(groupsList[..j], encode)
    {
      rewritten := rewritten + [encode(groupsList[j].fullPath)];
    }
    assert groupsList[..|groupsList|] == groupsList;
  }

  /** The project loop (lines 74-84): every project in turn, one aggregator
      for the whole run. */
  method AggregateAll(projects: seq<Project>, since: string, net: Network, encode: string -> string)
    returns (aggregator: Aggregator)
    ensures fresh(aggregator)
    ensures aggregator.Model() == RunProjects(Empty, projects, since, net, encode)
  {
    aggregator := new Aggregator();
    ghost var goal := RunProjects(Empty, projects, since, net, encode);
    for i := 0 to |projects|
      invariant aggregator.Model().RefsInRange()
      invariant RunProjects(aggregator.Model(), projects[i..], since, net, encode) == goal
    {
      assert projects[i..][0] == projects[i] && projects[i..][1..] == projects[i + 1..];
      aggregator.ProcessProject(projects[i], since, net, encode);
    }
  }

  /** `fetchGitlabContributors`. `breakdown` is the table handed to the CSV
      writer, `None` when resolution threw and nothing was written. */
  method FetchContributors(target: GitlabTarget, since: string, net: Network, encode: string -> string)
    returns (entries: seq<Entry>, breakdown: Option<seq<seq<string>>>)
    modifies target
    ensures var plan := Resolve(old(target.url), old(target.project), old(target.groups), net, encode);
      var s := Final(plan, since, net, encode);
      && target.groups == plan.groups
      && target.url == old(target.url) && target.project == old(target.project) && target.token == old(target.token)
      && s.Valid()
      && IsSortedView(entries, s)
      && (breakdown.Some? <==> plan.projects.Some?)
      && (breakdown.Some? ==> IsBreakdown(breakdown.value, s.extensions, s.authors, s.filesTouched))
  {
    var projectList := ResolveTarget(target, net, encode);
    breakdown := None;
    var final := Empty;
    if projectList.Some? {
      var aggregator := AggregateAll(projectList.value, since, net, encode);
      RunProjectsKeepsValid(Empty, projectList.value, since, net, encode);
      var table := BuildBreakdown(aggregator.extensions, aggregator.authors, aggregator.filesTouched);
      breakdown := Some(table);
      final := aggregator.Model();
    }
    entries := SortEntries(final);
  }

  // ---------------------------------------------------------------------------
  // Properties of the modes

  /** A truthy single project is scanned alone, under the label
      `"<path>(undefined)"`, and the group list is left as it was. */
  lemma SingleProjectScannedAlone(url: Option<string>, path: string, groups: Option<seq<string>>, net: Network, encode: string -> string)
    requires path != ""
    ensures var plan := Resolve(url, Some(path), groups, net, encode);
      && plan.groups == groups
      && plan.projects.Some? && |plan.projects.value| == 1
      && RepoLabel(plan.projects.value[0]) == path + "(undefined)"
  {
  }

  /** Without a single project, a failed current-user request ends the run
      empty, even when no group list is given. */
  lemma UserFailureEndsRun(url: Option<string>, project: Option<string>, groups: Option<seq<string>>, net: Network, encode: string -> string, since: string)
    requires !Truthy(project) && net.currentUser.Failed?
    ensures var plan := Resolve(url, project, groups, net, encode);
      plan.projects.None? && Final(plan, since, net, encode) == Empty
  {
  }

  /** A group list whose searches match nothing (an empty list included)
      still selects group mode: the list becomes empty and only the current
      user's own projects are listed. */
  lemma NoMatchedGroupScansOwnProjects(url: Option<string>, project: Option<string>, queries: seq<string>, net: Network, encode: string -> string)
    requires !Truthy(project) && MatchedGroups(net, queries) == []
    requires net.currentUser.Fetched? && net.currentUser.items != []
    ensures var plan := Resolve(url, project, Some(queries), net, encode);
      && plan.groups == Some([])
      && plan.projects == Some(CollectProjects(net, [UserProjects(net.currentUser.items[0].id)]))
  {
    GroupListQueries(HostOf(url), [], net.currentUser.items);
  }

  /** Without a single project or a group list, the run resolves exactly as
      `fetchGitlabProjects` does with no groups. */
  lemma ResolveWithoutGroups(url: Option<string>, project: Option<string>, net: Network, encode: string -> string)
    requires !Truthy(project)
    ensures Resolve(url, project, None, net, encode) == Plan(ResolveProjects(HostOf(url), None, net), None)
  {
    assert ModeOf(project, None) == AllVisible;
  }

  /** Without a group list, one listing is made: of the projects the user
      is a member of exactly when "gitlab.com" occurs in the host, of all
      visible projects otherwise. */
  lemma HostChoosesListing(url: Option<string>, project: Option<string>, net: Network, encode: string -> string)
    returns (membership: bool)
    requires !Truthy(project) && net.currentUser.Fetched?
    ensures membership <==> exists k: nat :: OccursAt(HostOf(url), MembershipHost, k)
    ensures Resolve(url, project, None, net, encode).projects
      == Some(CollectProjects(net, [VisibleProjects(membership)]))
  {
    var host := HostOf(url);
    membership := Contains(host, MembershipHost);
    ContainsIff(host, MembershipHost);
    NoGroupResolution(host, net);
    ResolveWithoutGroups(url, project, net, encode);
  }

  /** With no URL given, the default host counts as gitlab.com. */
  lemma DefaultHostListsMembership(project: Option<string>, net: Network, encode: string -> string)
    requires !Truthy(project) && net.currentUser.Fetched?
    ensures Resolve(None, project, None, net, encode).projects
      == Some(CollectProjects(net, [VisibleProjects(true)]))
  {
    assert OccursAt(DefaultUrl, MembershipHost, 8);
    var membership := HostChoosesListing(None, project, net, encode);
  }
}
