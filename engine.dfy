/** The aggregation as the source performs it: one object owning the run's
    maps and sets, updated in place commit by commit and diff by diff
    (`fetchGitlabContributorsForProject`, gitlab-contributors.ts:128-237).
    Each method is proved to compute the matching function of module
    Aggregation. */
module Engine {
  import opened Common
  import opened Shapes
  import opened Fetcher
  import opened Extensions
  import opened Identity
  import opened Aggregation

  class Aggregator {
    /** `contributorsMap` */
    var contributors: map<string, Contributor>
    /** the label arrays the entries of `contributorsMap` point to */
    var repoLists: seq<seq<string>>
    /** `discoveredExtensions`, in insertion order */
    var extensions: seq<string>
    /** the keys of `filesTouched`, in insertion order */
    var authors: seq<string>
    /** `filesTouched`: email to extension token to count */
    var filesTouched: map<string, map<string, nat>>

    function Model(): Aggregates
      reads this
    {
      Aggregates(contributors, repoLists, extensions, authors, filesTouched)
    }

    constructor ()
      ensures Model() == Empty
    {
      contributors, repoLists, extensions, authors, filesTouched := map[], [], [], [], map[];
    }

    /** The loop over one commit's diffs and the final `filesTouched.set` (lines 194, 208-226). */
    method CountDiffs(email: string, diffs: seq<Diff>)
      modifies this`extensions, this`authors, this`filesTouched
      ensures Model() == Touch(old(Model()), email, Tokens(diffs))
    {
      var touched := if email in filesTouched then filesTouched[email] else map[];
      var discovered;
      discovered, touched := TallyDiffs(extensions, touched, diffs);
      extensions := discovered;
      if email !in filesTouched {
        authors := authors + [email];
      }
      filesTouched := filesTouched[email := touched];
    }

    /** The lookup of lines 152-184: the count and the label array carried
        forward from an existing entry, found under the author's email or
        name, with the label pushed onto that array in place. */
    method CarryForward(projectLabel: string, commit: Commit) returns (known: bool, contributionsCount: nat, reposContributedTo: ListRef)
      requires Model().RefsInRange()
      modifies this`repoLists
      ensures known == Known(contributors, commit)
      ensures contributionsCount == if known then PriorCount(contributors, commit) + 1 else 1
      ensures reposContributedTo == if known then PriorList(contributors, commit) else |old(repoLists)|
      ensures repoLists == Pushed(old(Model()), projectLabel, commit)
    {
      contributionsCount := 1;
      reposContributedTo := |repoLists|;
      known := commit.authorName in contributors || commit.authorEmail in contributors;
      if known {
        if commit.authorEmail in contributors && contributors[commit.authorEmail].contributionsCount != 0 {
          contributionsCount := contributors[commit.authorEmail].contributionsCount;
        } else if commit.authorName in contributors {
          contributionsCount := contributors[commit.authorName].contributionsCount;
        } else {
          contributionsCount := 0;
        }
        contributionsCount := contributionsCount + 1;
        if commit.authorEmail in contributors {
          reposContributedTo := contributors[commit.authorEmail].repos;
        } else {
          reposContributedTo := contributors[commit.authorName].repos;
        }
        if projectLabel !in repoLists[reposContributedTo] {
          repoLists := repoLists[reposContributedTo := repoLists[reposContributedTo] + [projectLabel]];
        }
      }
    }

    /** One iteration of the commit loop (lines 149-227); returns whether the
        diff fetch failed, which ends the project. */
    method ProcessCommit(projectLabel: string, commit: Commit, diffs: Fetch<seq<Diff>>) returns (failed: bool)
      requires Model().RefsInRange()
      modifies this
      ensures Model() == CommitStep(old(Model()), projectLabel, commit, diffs).state
      ensures failed == CommitStep(old(Model()), projectLabel, commit, diffs).stop
    {
      ghost var s := Model();
      var known, contributionsCount, reposContributedTo := CarryForward(projectLabel, commit);
      var key := ResolveDisplayKey(commit.authorName, commit.authorEmail, contributors);
      failed := false;
      if !IsExcluded(commit.authorEmail) {
        if !known {
          repoLists := repoLists + [[projectLabel]];
        }
        contributors := contributors[key := Contributor(commit.authorEmail, contributionsCount, reposContributedTo)];
        assert Model() == Written(s, projectLabel, commit);
        match diffs
        case Failed =>
          failed := true;
        case Fetched(ds) =>
          CountDiffs(commit.authorEmail, ds);
      }
    }

    /** `fetchGitlabContributorsForProject`: the commits of one project since
        `since`; a failed fetch, of the commits or of one commit's diffs, is
        caught and ends this project only. */
    method ProcessProject(project: Project, since: string, net: Network, encode: string -> string)
      requires Model().RefsInRange()
      modifies this
      ensures Model() == ProjectStep(old(Model()), project, since, net, encode)
    {
      var encodedProjectPath := encode(project.pathWithNamespace);
      var response := net.commits(encodedProjectPath, since);
      if response.Failed? {
        return;
      }
      var commits := response.items;
      var projectLabel := RepoLabel(project);
      ghost var goal := CommitsStep(Model(), projectLabel, commits, encodedProjectPath, net);
      var i := 0;
      while i < |commits|
        invariant 0 <= i <= |commits|
        invariant Model().RefsInRange()
        invariant CommitsStep(Model(), projectLabel, commits[i..], encodedProjectPath, net) == goal
      {
        assert commits[i..][0] == commits[i] && commits[i..][1..] == commits[i + 1..];
        var failed := ProcessCommit(projectLabel, commits[i], net.diff(encodedProjectPath, commits[i].id));
        if failed {
          return;
        }
        i := i + 1;
      }
    }
  }

  /** The body of the diff loop (lines 208-224) on the extension set and one
      author's counters: each diff's token is added to the set and its
      counter goes up by one. */
  method TallyDiffs(extensions: seq<string>, touched: map<string, nat>, diffs: seq<Diff>)
    returns (discovered: seq<string>, counters: map<string, nat>)
    ensures discovered == AddAll(extensions, Tokens(diffs))
    ensures counters == Tally(touched, Tokens(diffs))
  {
    discovered, counters := extensions, touched;
    ghost var ts := Tokens(diffs);
    for i := 0 to |diffs|
      invariant discovered == AddAll(extensions, ts[..i])
      invariant counters == Tally(touched, ts[..i])
    {
      var extension := ExtensionToken(diffs[i].oldPath);
      assert ts[..i + 1] == ts[..i] + [extension];
      AddAllSnoc(extensions, ts[..i], extension);
      TallySnoc(touched, ts[..i], extension);
      discovered := Add(discovered, extension);
      var count := Get(counters, extension);
      counters := counters[extension := count + 1];
    }
    assert ts[..|diffs|] == ts;
  }
}
