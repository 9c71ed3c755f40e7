/**
 * The GitHub REST API as the site's publish code uses it: app-JWT signing,
 * installation-token exchange, ref lookup, blob/tree/commit creation, ref
 * update and reading a text file from the configured branch.
 *
 * The remote is an oracle with a recorded call trace. Call number `i` (counted
 * from the first call ever made) fails exactly when `i` is in `faults`; every
 * creating call that succeeds mints the fresh identifier `next` (a SHA, an
 * installation id or a token) and bumps it, so the identifiers a run receives
 * are fresh and determined by the trace.
 */
module GitHub {
  import opened Wrappers
  import Js

  /** A SHA or another identifier handed out by the remote. */
  type Id = nat

  /** The only file mode the site writes. */
  const BlobMode: string := "100644"

  /** One entry of a `createTree` request: a blob at `path`, or a deletion when `sha` is null. */
  datatype TreeEntry = TreeEntry(path: string, mode: string, sha: Option<Id>)

  datatype Call =
    | SignAppJwt(privateKey: string)
    | GetInstallationId(jwt: Id)
    | CreateInstallationToken(jwt: Id, installation: Id)
    | GetRef(ref: string)
    | CreateBlob(base64: string)
    | ReadTextFile(path: string)
    | CreateTree(entries: seq<TreeEntry>, baseTree: Id)
    | CreateCommit(message: string, tree: Id, parents: seq<Id>)
    | UpdateRef(ref: string, sha: Id)

  /** The installation token minted as identifier `n`; never empty. */
  function TokenText(n: Id): (t: string)
    ensures t != ""
  {
    "ghs_" + Js.NatToString(n)
  }

  class Remote {
    /** The configured branch (`GITHUB_CONFIG.BRANCH`). */
    const branch: string
    /** Positions in the trace of the calls that fail. */
    const faults: set<nat>
    /** The commit the branch points to. */
    var head: Id
    /** Text files on the branch, by repository path. */
    var files: map<string, string>
    /** Every identifier below `next` has been handed out. */
    var next: Id
    var trace: seq<Call>
    /** For every identifier minted so far, the call that created it. */
    ghost var origin: map<Id, Call>

    ghost predicate Valid()
      reads this
    {
      head < next
    }

    constructor (branch: string, faults: set<nat>, head: Id, files: map<string, string>)
      ensures Valid() && this.branch == branch && this.faults == faults
      ensures this.head == head && this.files == files && next == head + 1 && trace == [] && origin == map[]
    {
      this.branch := branch;
      this.faults := faults;
      this.head := head;
      this.files := files;
      next := head + 1;
      trace := [];
      origin := map[];
    }

    /** Whether the call about to be made succeeds. */
    predicate NextSucceeds()
      reads this
    {
      |trace| !in faults
    }

    /** Records call `c` and reports whether it succeeded. */
    method Record(c: Call) returns (ok: bool)
      modifies this
      ensures trace == old(trace) + [c]
      ensures ok == old(NextSucceeds())
      ensures next == old(next) && head == old(head) && files == old(files) && origin == old(origin)
    {
      ok := |trace| !in faults;
      trace := trace + [c];
    }

    /** `getRef(token, owner, repo, ref)`: the SHA the branch points to. */
    method FetchRef(ref: string) returns (r: Option<Id>)
      modifies this
      ensures trace == old(trace) + [GetRef(ref)]
      ensures r.Some? == old(NextSucceeds()) && (r.Some? ==> r.value == head)
      ensures next == old(next) && head == old(head) && files == old(files) && origin == old(origin)
    {
      var ok := Record(GetRef(ref));
      r := if ok then Some(head) else None;
    }

    /** `createBlob`, `createTree`, `createCommit`, `signAppJwt`, `getInstallationId`: a fresh identifier. */
    method Create(c: Call) returns (r: Option<Id>)
      requires !c.GetRef? && !c.ReadTextFile? && !c.UpdateRef?
      modifies this
      ensures trace == old(trace) + [c]
      ensures r.Some? == old(NextSucceeds()) && (r.Some? ==> r.value == old(next))
      ensures next == old(next) + (if r.Some? then 1 else 0)
      ensures origin == if r.Some? then old(origin)[old(next) := c] else old(origin)
      ensures head == old(head) && files == old(files)
    {
      var ok := Record(c);
      r := None;
      if ok {
        r := Some(next);
        origin := origin[next := c];
        next := next + 1;
      }
    }

    /** `readTextFileFromRepo(token, owner, repo, path, branch)`: the file's text, or null when absent. */
    method ReadFile(path: string) returns (r: Result<Option<string>, ()>)
      modifies this
      ensures trace == old(trace) + [ReadTextFile(path)]
      ensures r.Ok? == old(NextSucceeds())
      ensures r.Ok? ==> r.value == (if path in files then Some(files[path]) else None)
      ensures next == old(next) && head == old(head) && files == old(files) && origin == old(origin)
    {
      var ok := Record(ReadTextFile(path));
      r := if !ok then Err(()) else if path in files then Ok(Some(files[path])) else Ok(None);
    }

    /** `updateRef(token, owner, repo, ref, sha)` (forced): moves the branch to `sha`. */
    method MoveRef(ref: string, sha: Id) returns (ok: bool)
      modifies this
      ensures trace == old(trace) + [UpdateRef(ref, sha)]
      ensures ok == old(NextSucceeds())
      ensures head == (if ok then sha else old(head)) && files == old(files) && next == old(next)
      ensures origin == old(origin)
    {
      ok := Record(UpdateRef(ref, sha));
      if ok {
        head := sha;
      }
    }
  }

  /** Whether the `count` calls numbered from `at` all succeed. */
  predicate AllSucceed(faults: set<nat>, at: nat, count: nat)
  {
    forall i | at <= i < at + count :: i !in faults
  }

  /**
   * Running the calls `plan` on a remote whose trace was `before` left the
   * trace `after`: all of them when none fails (then `ok`), otherwise the
   * calls up to and including the first one that fails.
   */
  ghost predicate Ran(before: seq<Call>, after: seq<Call>, faults: set<nat>, plan: seq<Call>, ok: bool)
  {
    (ok <==> AllSucceed(faults, |before|, |plan|)) &&
    (ok ==> after == before + plan) &&
    (!ok ==> |before| < |after| <= |before| + |plan| && |after| - 1 in faults &&
             after == before + plan[..|after| - |before|])
  }

  lemma RanOne(before: seq<Call>, c: Call, faults: set<nat>)
    ensures Ran(before, before + [c], faults, [c], |before| !in faults)
  {
    assert [c][..1] == [c];
  }

  /** A run that completed followed by another run is one run of both plans. */
  lemma RanThen(before: seq<Call>, mid: seq<Call>, after: seq<Call>, faults: set<nat>, p: seq<Call>, q: seq<Call>, ok: bool)
    requires Ran(before, mid, faults, p, true) && Ran(mid, after, faults, q, ok)
    ensures Ran(before, after, faults, p + q, ok)
  {
    if !ok {
      var k := |after| - |mid|;
      assert (p + q)[..|p| + k] == p + q[..k];
      assert !AllSucceed(faults, |before|, |p + q|) by {
        assert |before| <= |after| - 1 < |before| + |p + q|;
      }
    } else {
      assert AllSucceed(faults, |before|, |p + q|) by {
        forall i | |before| <= i < |before| + |p + q|
          ensures i !in faults
        {
          if i >= |before| + |p| {
            assert |mid| <= i < |mid| + |q|;
          }
        }
      }
    }
  }

  /** A run that stopped early is a stopped run of any longer plan too. */
  lemma RanStop(before: seq<Call>, after: seq<Call>, faults: set<nat>, p: seq<Call>, q: seq<Call>)
    requires Ran(before, after, faults, p, false)
    ensures Ran(before, after, faults, p + q, false)
  {
    var k := |after| - |before|;
    assert (p + q)[..k] == p[..k];
    assert |before| <= |after| - 1 < |before| + |p + q|;
  }
}
