/** The contributor aggregation of `fetchGitlabContributorsForProject`
    (gitlab-contributors.ts:128-237) as functions on the run's state: the
    contributor map, the label arrays it points to, the ordered set of
    discovered extensions and the per-email extension counters. The imperative
    code in module Engine is proved to compute exactly these functions. */
module Aggregation {
  import opened Common
  import opened Shapes
  import opened Fetcher
  import opened Extensions
  import opened Identity

  const NoReplySuffix := "@users.noreply.github.com"
  const BotAddress := "snyk-bot@snyk.io"

  /** Authors whose commits are not counted. */
  predicate IsExcluded(email: string)
  {
    EndsWith(email, NoReplySuffix) || email == BotAddress
  }

  /** The label a project contributes: `${path_with_namespace || id}(${visibility})`. */
  function RepoLabel(p: Project): (projectLabel: string)
    ensures |projectLabel| >= 2 && projectLabel[|projectLabel| - 1] == ')'
    ensures p.pathWithNamespace != "" ==> |p.pathWithNamespace| < |projectLabel| && projectLabel[..|p.pathWithNamespace|] == p.pathWithNamespace
  {
    (if p.pathWithNamespace != "" then p.pathWithNamespace else Render(p.id)) + "(" + Render(p.visibility) + ")"
  }

  /** `touched.get(extension) ?? 0` */
  function Get(row: map<string, nat>, t: string): nat
  {
    if t in row then row[t] else 0
  }

  /** One increment per token, in order. */
  function Tally(row: map<string, nat>, ts: seq<string>): map<string, nat>
  {
    if ts == [] then row
    else
      var r := Tally(row, ts[..|ts| - 1]);
      r[ts[|ts| - 1] := Get(r, ts[|ts| - 1]) + 1]
  }

  lemma TallySnoc(row: map<string, nat>, ts: seq<string>, t: string)
    ensures Tally(row, ts + [t]) == Tally(row, ts)[t := Get(Tally(row, ts), t) + 1]
  {
    assert (ts + [t])[..|ts|] == ts;
  }

  /** Every counter grows by the number of times its token occurs. */
  lemma {:induction false} TallyCounts(row: map<string, nat>, ts: seq<string>)
    ensures forall t :: Get(Tally(row, ts), t) == Get(row, t) + multiset(ts)[t]
    ensures forall t :: t in Tally(row, ts) <==> t in row || t in ts
  {
    if ts != [] {
      var init := ts[..|ts| - 1];
      TallyCounts(row, init);
      assert ts == init + [ts[|ts| - 1]];
    }
  }

  /** The extension tokens of a diff list, in order. */
  function Tokens(ds: seq<Diff>): seq<string>
  {
    seq(|ds|, i requires 0 <= i < |ds| => ExtensionToken(ds[i].oldPath))
  }

  /** The state one aggregation run owns. `repoLists` stands for the heap of
      label arrays; a contributor's `repos` names one of them. `authors` is the
      insertion order of the keys of `filesTouched`. */
  datatype Aggregates = Aggregates(
    contributors: map<string, Contributor>,
    repoLists: seq<seq<string>>,
    extensions: seq<string>,
    authors: seq<string>,
    filesTouched: map<string, map<string, nat>>)
  {
    predicate RefsInRange()
    {
      forall k | k in contributors :: contributors[k].repos < |repoLists|
    }

    /** The invariant every run keeps (see `RunProjectsKeepsValid`). */
    ghost predicate Valid()
    {
      && RefsInRange()
      && (forall k | k in contributors :: contributors[k].contributionsCount >= 1)
      && (forall r | 0 <= r < |repoLists| :: Distinct(repoLists[r]))
      && Distinct(extensions)
      && Distinct(authors)
      && (forall a :: a in filesTouched <==> a in authors)
      && (forall a, t | a in filesTouched && t in filesTouched[a] :: t in extensions && filesTouched[a][t] >= 1)
      && (forall t | t in extensions :: exists a | a in filesTouched :: t in filesTouched[a])
    }
  }

  const Empty := Aggregates(map[], [], [], [], map[])

  /** The labels of the entry under `key`. */
  function Labels(s: Aggregates, key: string): seq<string>
    requires s.RefsInRange() && key in s.contributors
  {
    s.repoLists[s.contributors[key].repos]
  }

  /** The counters of one email, empty when it has none yet. */
  function Row(s: Aggregates, email: string): map<string, nat>
  {
    if email in s.filesTouched then s.filesTouched[email] else map[]
  }

  /** Whether a commit's author is already in the map, under its name or its email. */
  predicate Known(m: map<string, Contributor>, c: Commit)
  {
    c.authorName in m || c.authorEmail in m
  }

  /** The count carried forward: the email entry's count if present and
      non-zero, else the name entry's count, else 0. */
  function PriorCount(m: map<string, Contributor>, c: Commit): (count: nat)
    ensures !Known(m, c) ==> count == 0
    ensures Known(m, c) && (forall k | k in m :: m[k].contributionsCount >= 1) ==> count >= 1
  {
    if c.authorEmail in m && m[c.authorEmail].contributionsCount != 0 then m[c.authorEmail].contributionsCount
    else if c.authorName in m then m[c.authorName].contributionsCount
    else 0
  }

  /** The label array carried forward: the email entry's if present, else the name entry's. */
  function PriorList(m: map<string, Contributor>, c: Commit): ListRef
    requires Known(m, c)
  {
    if c.authorEmail in m then m[c.authorEmail].repos else m[c.authorName].repos
  }

  /** The state after `Add`ing and counting the tokens of one commit's diffs. */
  function Touch(s: Aggregates, email: string, ts: seq<string>): (r: Aggregates)
    ensures r.contributors == s.contributors && r.repoLists == s.repoLists
    ensures s.authors <= r.authors && email in r.filesTouched
  {
    s.(extensions := AddAll(s.extensions, ts),
       authors := if email in s.filesTouched then s.authors else s.authors + [email],
       filesTouched := s.filesTouched[email := Tally(Row(s, email), ts)])
  }

  /** The state after one commit, and whether the rest of the project is
      skipped (its diff fetch failed). */
  datatype Step = Step(state: Aggregates, stop: bool)

  /** The label arrays after the in-place push onto the array carried forward
      (lines 168-183): only a known author's array changes, and only when it
      does not hold the label yet. */
  function Pushed(s: Aggregates, projectLabel: string, c: Commit): (lists: seq<seq<string>>)
    requires s.RefsInRange()
    ensures |lists| == |s.repoLists|
  {
    if Known(s.contributors, c) && projectLabel !in s.repoLists[PriorList(s.contributors, c)] then
      var ref := PriorList(s.contributors, c);
      s.repoLists[ref := s.repoLists[ref] + [projectLabel]]
    else s.repoLists
  }

  /** The state once a counted commit's entry is written (lines 196-200): the
      carried count plus one under the display key, pointing at the carried
      array, or at a fresh one-label array for a new author. */
  function Written(s: Aggregates, projectLabel: string, c: Commit): (r: Aggregates)
    requires s.RefsInRange()
    ensures r.RefsInRange()
  {
    var m := s.contributors;
    var known := Known(m, c);
    var count := if known then PriorCount(m, c) + 1 else 1;
    var ref := if known then PriorList(m, c) else |s.repoLists|;
    var lists := Pushed(s, projectLabel, c);
    s.(contributors := m[DisplayKey(c.authorName, c.authorEmail, m) := Contributor(c.authorEmail, count, ref)],
       repoLists := if known then lists else lists + [[projectLabel]])
  }

  /** One iteration of the commit loop (lines 149-227). */
  function CommitStep(s: Aggregates, projectLabel: string, c: Commit, diffs: Fetch<seq<Diff>>): (r: Step)
    requires s.RefsInRange()
    ensures r.state.RefsInRange()
  {
    if IsExcluded(c.authorEmail) then
      Step(s.(repoLists := Pushed(s, projectLabel, c)), false)
    else
      match diffs
      case Failed => Step(Written(s, projectLabel, c), true)
      case Fetched(ds) => Step(Touch(Written(s, projectLabel, c), c.authorEmail, Tokens(ds)), false)
  }

  /** The commit loop from a given commit on; a failed diff fetch ends it. */
  function CommitsStep(s: Aggregates, projectLabel: string, commits: seq<Commit>, path: string, net: Network): (r: Aggregates)
    requires s.RefsInRange()
    ensures r.RefsInRange()
    decreases |commits|
  {
    if commits == [] then s
    else
      var step := CommitStep(s, projectLabel, commits[0], net.diff(path, commits[0].id));
      if step.stop then step.state else CommitsStep(step.state, projectLabel, commits[1..], path, net)
  }

  /** One project: its commits since `since`, or no change when they cannot be fetched. */
  function ProjectStep(s: Aggregates, p: Project, since: string, net: Network, encode: string -> string): (r: Aggregates)
    requires s.RefsInRange()
    ensures r.RefsInRange()
  {
    var path := encode(p.pathWithNamespace);
    match net.commits(path, since)
    case Failed => s
    case Fetched(cs) => CommitsStep(s, RepoLabel(p), cs, path, net)
  }

  /** The project loop of the driver (lines 74-84). */
  function RunProjects(s: Aggregates, ps: seq<Project>, since: string, net: Network, encode: string -> string): (r: Aggregates)
    requires s.RefsInRange()
    ensures r.RefsInRange()
    decreases |ps|
  {
    if ps == [] then s else RunProjects(ProjectStep(s, ps[0], since, net, encode), ps[1..], since, net, encode)
  }

  // ---------------------------------------------------------------------------
  // Exclusion

  /** An excluded author's commit writes no entry, adds no key, changes no count
      and touches no extension counter; the only change it can make is the
      push of the label onto the array carried forward from an existing entry. */
  lemma ExcludedCommitOnlyPushes(s: Aggregates, projectLabel: string, c: Commit, diffs: Fetch<seq<Diff>>)
    requires s.RefsInRange() && IsExcluded(c.authorEmail)
    ensures var r := CommitStep(s, projectLabel, c, diffs);
      && !r.stop
      && r.state.contributors == s.contributors
      && r.state.extensions == s.extensions
      && r.state.authors == s.authors
      && r.state.filesTouched == s.filesTouched
      && |r.state.repoLists| == |s.repoLists|
      && forall ref | 0 <= ref < |s.repoLists| && r.state.repoLists[ref] != s.repoLists[ref] ::
           && Known(s.contributors, c)
           && ref == PriorList(s.contributors, c)
           && r.state.repoLists[ref] == s.repoLists[ref] + [projectLabel]
  {
  }

  // ---------------------------------------------------------------------------
  // Count and labels of the written entry

  /** A commit that is not excluded writes one entry, under its display key,
      with its email, the carried-forward count plus one (1 for a new author),
      and a label list that keeps its earlier order, grows by at most the one
      label, and holds that label exactly once. No other entry changes. */
  lemma WrittenEntry(s: Aggregates, projectLabel: string, c: Commit, diffs: Fetch<seq<Diff>>)
    requires s.Valid() && !IsExcluded(c.authorEmail)
    ensures var r := CommitStep(s, projectLabel, c, diffs).state;
      var key := DisplayKey(c.authorName, c.authorEmail, s.contributors);
      && r.contributors.Keys == s.contributors.Keys + {key}
      && (forall k | k in s.contributors && k != key :: r.contributors[k] == s.contributors[k])
      && r.contributors[key].email == c.authorEmail
      && r.contributors[key].contributionsCount == (if Known(s.contributors, c) then PriorCount(s.contributors, c) + 1 else 1)
      && multiset(Labels(r, key))[projectLabel] == 1
      && |Labels(r, key)| <= (if Known(s.contributors, c) then |s.repoLists[PriorList(s.contributors, c)]| else 0) + 1
      && (Known(s.contributors, c) ==> s.repoLists[PriorList(s.contributors, c)] <= Labels(r, key))
      && (!Known(s.contributors, c) ==> Labels(r, key) == [projectLabel])
      && r.repoLists == (if Known(s.contributors, c)
                         then s.repoLists[PriorList(s.contributors, c) := Add(s.repoLists[PriorList(s.contributors, c)], projectLabel)]
                         else s.repoLists + [[projectLabel]])
  {
    var m := s.contributors;
    if Known(m, c) {
      var old_ := s.repoLists[PriorList(m, c)];
      if projectLabel in old_ {
        DistinctOccursOnce(old_, projectLabel);
      } else {
        assert multiset(old_ + [projectLabel]) == multiset(old_) + multiset{projectLabel};
      }
    }
  }

  /** Later commits from the (name, email) pair that owns a name add one to
      that entry's own count and keep its label array. */
  lemma OwnerCommitAccumulates(s: Aggregates, projectLabel: string, c: Commit, diffs: Fetch<seq<Diff>>)
    requires s.RefsInRange() && !IsExcluded(c.authorEmail)
    requires c.authorName in s.contributors && s.contributors[c.authorName].email == c.authorEmail
    requires c.authorEmail !in s.contributors
    ensures var r := CommitStep(s, projectLabel, c, diffs).state;
      && r.contributors[c.authorName].contributionsCount == s.contributors[c.authorName].contributionsCount + 1
      && r.contributors[c.authorName].repos == s.contributors[c.authorName].repos
  {
    OwnerKeepsPlainName(c.authorName, c.authorEmail, s.contributors);
  }

  /** A second person with a taken name is written under the marked key, but
      never from its own state: the lookup only reads the plain name, so the
      marked entry's count is the original's count plus one, it shares the
      original's label array, and the label is pushed onto that shared array,
      where the original entry sees it too. */
  lemma MarkedEntryMirrorsOriginal(s: Aggregates, projectLabel: string, c: Commit, diffs: Fetch<seq<Diff>>)
    requires s.RefsInRange() && !IsExcluded(c.authorEmail)
    requires c.authorName in s.contributors && s.contributors[c.authorName].email != c.authorEmail
    requires c.authorEmail !in s.contributors
    ensures var r := CommitStep(s, projectLabel, c, diffs).state;
      var marked := c.authorName + DuplicateMarker;
      && marked in r.contributors
      && r.contributors[marked].contributionsCount == s.contributors[c.authorName].contributionsCount + 1
      && r.contributors[marked].repos == s.contributors[c.authorName].repos
      && r.contributors[c.authorName] == s.contributors[c.authorName]
      && projectLabel in Labels(r, c.authorName)
  {
    ClashGetsMarkedKey(c.authorName, c.authorEmail, s.contributors);
  }

  // ---------------------------------------------------------------------------
  // Extension counters

  /** For a counted commit whose diffs were fetched, the author's counter for
      each token grows by exactly the number of diffs with that token; other
      authors' rows are unchanged; the discovered set keeps its order and
      gains exactly the new tokens. */
  lemma DiffsCountedForAuthor(s: Aggregates, projectLabel: string, c: Commit, ds: seq<Diff>)
    requires s.RefsInRange() && !IsExcluded(c.authorEmail)
    ensures var r := CommitStep(s, projectLabel, c, Fetched(ds)).state;
      var ts := Tokens(ds);
      && !CommitStep(s, projectLabel, c, Fetched(ds)).stop
      && r.filesTouched.Keys == s.filesTouched.Keys + {c.authorEmail}
      && (forall t :: Get(r.filesTouched[c.authorEmail], t) == Get(Row(s, c.authorEmail), t) + multiset(ts)[t])
      && (forall a | a in s.filesTouched && a != c.authorEmail :: r.filesTouched[a] == s.filesTouched[a])
      && s.extensions <= r.extensions
      && (forall t :: t in r.extensions <==> t in s.extensions || t in ts)
      && s.authors <= r.authors
  {
    var written := CommitStep(s, projectLabel, c, Failed).state;
    assert CommitStep(s, projectLabel, c, Fetched(ds)).state == Touch(written, c.authorEmail, Tokens(ds));
    TallyCounts(Row(s, c.authorEmail), Tokens(ds));
    AddAllKeepsOrder(s.extensions, Tokens(ds));
  }

  // ---------------------------------------------------------------------------
  // Failure isolation

  /** A failed diff fetch keeps the entry already written for that commit but
      counts none of its files and ends the project. */
  lemma DiffFailureKeepsEntry(s: Aggregates, projectLabel: string, c: Commit)
    requires s.RefsInRange() && !IsExcluded(c.authorEmail)
    ensures var r := CommitStep(s, projectLabel, c, Failed);
      && r.stop
      && DisplayKey(c.authorName, c.authorEmail, s.contributors) in r.state.contributors
      && r.state.extensions == s.extensions
      && r.state.authors == s.authors
      && r.state.filesTouched == s.filesTouched
  {
  }

  /** Once a counted commit's diff fetch fails, the commits after it in the
      same project are never looked at. */
  lemma {:induction false} FailureSkipsRestOfProject(
    s: Aggregates, projectLabel: string, pre: seq<Commit>, c: Commit, rest1: seq<Commit>, rest2: seq<Commit>,
    path: string, net: Network)
    requires s.RefsInRange() && !IsExcluded(c.authorEmail) && net.diff(path, c.id).Failed?
    ensures CommitsStep(s, projectLabel, pre + [c] + rest1, path, net) == CommitsStep(s, projectLabel, pre + [c] + rest2, path, net)
    decreases |pre|
  {
    if pre == [] {
      assert (pre + [c] + rest1)[0] == c == (pre + [c] + rest2)[0];
    } else {
      assert (pre + [c] + rest1)[0] == pre[0] == (pre + [c] + rest2)[0];
      var step := CommitStep(s, projectLabel, pre[0], net.diff(path, pre[0].id));
      if !step.stop {
        assert (pre + [c] + rest1)[1..] == pre[1..] + [c] + rest1;
        assert (pre + [c] + rest2)[1..] == pre[1..] + [c] + rest2;
        FailureSkipsRestOfProject(step.state, projectLabel, pre[1..], c, rest1, rest2, path, net);
      }
    }
  }

  /** A project whose commits cannot be fetched changes nothing, and the run
      goes on with the next project. */
  lemma FailedProjectIsSkipped(s: Aggregates, p: Project, ps: seq<Project>, since: string, net: Network, encode: string -> string)
    requires s.RefsInRange() && net.commits(encode(p.pathWithNamespace), since).Failed?
    ensures RunProjects(s, [p] + ps, since, net, encode) == RunProjects(s, ps, since, net, encode)
  {
    assert ([p] + ps)[1..] == ps;
  }

  /** Projects are processed one after the other: the run over two lists is
      the run over the second from where the first left off. */
  lemma {:induction false} RunProjectsAppend(s: Aggregates, ps1: seq<Project>, ps2: seq<Project>, since: string, net: Network, encode: string -> string)
    requires s.RefsInRange()
    ensures RunProjects(s, ps1 + ps2, since, net, encode)
         == RunProjects(RunProjects(s, ps1, since, net, encode), ps2, since, net, encode)
    decreases |ps1|
  {
    if ps1 == [] {
      assert ps1 + ps2 == ps2;
    } else {
      assert (ps1 + ps2)[0] == ps1[0];
      assert (ps1 + ps2)[1..] == ps1[1..] + ps2;
      RunProjectsAppend(ProjectStep(s, ps1[0], since, net, encode), ps1[1..], ps2, since, net, encode);
    }
  }

  // ---------------------------------------------------------------------------
  // The invariant

  lemma TouchKeepsValid(s: Aggregates, email: string, ts: seq<string>)
    requires s.Valid()
    ensures Touch(s, email, ts).Valid()
  {
    var r := Touch(s, email, ts);
    TallyCounts(Row(s, email), ts);
    AddAllKeepsOrder(s.extensions, ts);
    forall a, t | a in r.filesTouched && t in r.filesTouched[a]
      ensures t in r.extensions && r.filesTouched[a][t] >= 1
    {
      if a == email {
        assert Get(r.filesTouched[a], t) == Get(Row(s, email), t) + multiset(ts)[t];
        if t !in Row(s, email) {
          assert t in ts;
        }
      }
    }
    forall t | t in r.extensions
      ensures exists a | a in r.filesTouched :: t in r.filesTouched[a]
    {
      if t in ts {
        assert t in r.filesTouched[email];
      } else {
        var a :| a in s.filesTouched && t in s.filesTouched[a];
        assert t in r.filesTouched[a];
      }
    }
    if email !in s.filesTouched {
      assert email !in s.authors;
    }
  }

  /** The push onto a carried array adds a label only where it is absent. */
  lemma PushedKeepsDistinct(s: Aggregates, projectLabel: string, c: Commit)
    requires s.RefsInRange() && forall r | 0 <= r < |s.repoLists| :: Distinct(s.repoLists[r])
    ensures forall r | 0 <= r < |s.repoLists| :: Distinct(Pushed(s, projectLabel, c)[r])
  {
  }

  lemma WrittenKeepsValid(s: Aggregates, projectLabel: string, c: Commit)
    requires s.Valid()
    ensures Written(s, projectLabel, c).Valid()
  {
    PushedKeepsDistinct(s, projectLabel, c);
  }

  lemma CommitStepKeepsValid(s: Aggregates, projectLabel: string, c: Commit, diffs: Fetch<seq<Diff>>)
    requires s.Valid()
    ensures CommitStep(s, projectLabel, c, diffs).state.Valid()
  {
    PushedKeepsDistinct(s, projectLabel, c);
    if !IsExcluded(c.authorEmail) {
      WrittenKeepsValid(s, projectLabel, c);
      if diffs.Fetched? {
        TouchKeepsValid(Written(s, projectLabel, c), c.authorEmail, Tokens(diffs.items));
      }
    }
  }

  lemma {:induction false} CommitsStepKeepsValid(s: Aggregates, projectLabel: string, commits: seq<Commit>, path: string, net: Network)
    requires s.Valid()
    ensures CommitsStep(s, projectLabel, commits, path, net).Valid()
    decreases |commits|
  {
    if commits != [] {
      CommitStepKeepsValid(s, projectLabel, commits[0], net.diff(path, commits[0].id));
      var step := CommitStep(s, projectLabel, commits[0], net.diff(path, commits[0].id));
      if !step.stop {
        CommitsStepKeepsValid(step.state, projectLabel, commits[1..], path, net);
      }
    }
  }

  /** Every run keeps the invariant: each entry's count is at least one, no
      label array repeats a label, every counted token is a discovered
      extension and every discovered extension is counted somewhere. */
  lemma {:induction false} RunProjectsKeepsValid(s: Aggregates, ps: seq<Project>, since: string, net: Network, encode: string -> string)
    requires s.Valid()
    ensures RunProjects(s, ps, since, net, encode).Valid()
    decreases |ps|
  {
    if ps != [] {
      var p := ps[0];
      var path := encode(p.pathWithNamespace);
      if net.commits(path, since).Fetched? {
        CommitsStepKeepsValid(s, RepoLabel(p), net.commits(path, since).items, path, net);
      }
      RunProjectsKeepsValid(ProjectStep(s, p, since, net, encode), ps[1..], since, net, encode);
    }
  }
}
