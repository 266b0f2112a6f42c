/** The records the engine reads from the GitLab API (src/lib/gitlab/types.ts)
    and the contributor entry it writes. */
module Shapes {
  import opened Common

  /** A commit as the aggregator reads it. The declared interface names the
      identifier `sha`, but the aggregator reads `commit.id`, which is what the
      API returns; the model keeps the field that is read. */
  datatype Commit = Commit(id: string, authorName: string, authorEmail: string)

  /** One changed file of a commit; only the "from" path is used. */
  datatype Diff = Diff(oldPath: string)

  datatype Group = Group(id: Option<string>, name: Option<string>, fullPath: string, visibility: Option<string>)

  datatype Project = Project(
    pathWithNamespace: string,
    id: Option<string>,
    visibility: Option<string>,
    defaultBranch: Option<string>)

  datatype User = User(id: string)

  /** Identifies one label array on the JavaScript heap. Entries of the
      contributor map that hold the same `ListRef` share one array, so a push
      through either is seen through both. */
  type ListRef = nat

  /** A value of the contributor map: the owning email, the running count and
      the (shared, mutable) list of "project(visibility)" labels. */
  datatype Contributor = Contributor(email: string, contributionsCount: nat, repos: ListRef)
}
