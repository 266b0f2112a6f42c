/** The paged fetcher (`fetchAllPages`, defined outside this model) seen from
    the engine: a fixed answer per request for one host and one credential.
    Each field stands for one kind of URL the engine builds; its argument is
    the part of the URL that varies. */
module Fetcher {
  import opened Common
  import opened Shapes

  /** The three project-listing URLs of `fetchGitlabProjects`. */
  datatype ProjectQuery =
    | VisibleProjects(membership: bool)  // /api/v4/projects?per_page=100[&membership=true]
    | GroupProjects(group: string)       // /api/v4/groups/{group}/projects?per_page=100
    | UserProjects(userId: string)       // /api/v4/users/{id}/projects?per_page=100

  datatype Network = Network(
    /** /api/v4/user */
    currentUser: Fetch<seq<User>>,
    projects: ProjectQuery -> Fetch<seq<Project>>,
    /** /api/v4/groups?all_available=true&search={query} */
    groupSearch: string -> Fetch<seq<Group>>,
    /** /api/v4/projects/{encoded path}/repository/commits?since={date}&per_page=100 */
    commits: (string, string) -> Fetch<seq<Commit>>,
    /** /api/v4/projects/{encoded path}/repository/commits/{commit id}/diff */
    diff: (string, string) -> Fetch<seq<Diff>>)
}
