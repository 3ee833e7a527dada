/**
  The parts of the GitHub client the fixers and the driver use: the
  repository record, and the two write calls, which a read-only client
  (the dry-run one) only logs.
 */
module GitHub {
  import opened Wrappers

  /** The fields of the repository listing the fixers read. */
  datatype RepoInfo = RepoInfo(
    name: string,
    fullName: string,
    archived: bool,
    defaultBranch: string,
    description: Option<string>,
    isPrivate: bool,
    fork: bool)

  datatype PullRequest = PullRequest(fullName: string, head: string, base: string, title: string, body: string)

  /** A write request that reached the GitHub API. */
  datatype ApiCall =
    | CreatePull(pr: PullRequest)
    | UpdateDescription(fullName: string, description: string)

  /** The requests a client with the given access sends for one call:
      the read-only client sends none. */
  function Sent(readWrite: bool, call: ApiCall): (r: seq<ApiCall>)
    ensures readWrite ==> r == [call]
    ensures !readWrite ==> r == []
  {
    if readWrite then [call] else []
  }

  class GitHubClient {
    const readWrite: bool
    var calls: seq<ApiCall>

    constructor (readWrite: bool)
      ensures this.readWrite == readWrite && calls == []
    {
      this.readWrite := readWrite;
      calls := [];
    }

    method CreateMergeRequest(fullName: string, head: string, base: string, title: string, body: string)
      modifies this
      ensures calls == old(calls) + Sent(readWrite, CreatePull(PullRequest(fullName, head, base, title, body)))
    {
      if readWrite {
        calls := calls + [CreatePull(PullRequest(fullName, head, base, title, body))];
      }
    }

    method SetDescription(fullName: string, description: string)
      modifies this
      ensures calls == old(calls) + Sent(readWrite, UpdateDescription(fullName, description))
    {
      if readWrite {
        calls := calls + [UpdateDescription(fullName, description)];
      }
    }
  }
}
