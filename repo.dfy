/**
 * The repository helpers of internal/repo/repo.go: the upward walk that finds
 * the repository root (FindGitRepo; cmd/git-squash-tree/main.go carries an
 * identical copy, findGitRepo) and the trim/skip/resolve loop over a list of
 * refs (ResolveRefs). The external calls are parameters: whether
 * `<path>/.git` is a directory, and `git rev-parse --short`.
 */
module Repo {
  import opened Wrappers
  import opened Text

  /** An absolute path as its components; [] is the file-system root "/". */
  type Path = seq<string>

  /** filepath.Dir on an absolute path: drops the last component; the root is its own parent. */
  function Parent(p: Path): (q: Path)
    ensures q == p <==> p == []
    ensures p != [] ==> q == p[..|p| - 1]
  {
    if p == [] then [] else p[..|p| - 1]
  }

  /**
   * What the walk consults: the absolute form of the start path (None when
   * filepath.Abs fails) and whether `<path>/.git` exists and is a directory
   * (os.Stat succeeding with IsDir()).
   */
  datatype Workspace = Workspace(start: Option<Path>, gitDirAt: Path -> bool)

  datatype WalkError = AbsFailed | NotAGitRepository

  /**
   * The directory the walk stops at: the deepest ancestor-or-self of p that
   * holds a .git directory; None when neither p nor any ancestor does.
   */
  function NearestGitRoot(p: Path, gitDirAt: Path -> bool): (r: Option<Path>)
    decreases |p|
    ensures r.Some? ==> |r.value| <= |p| && r.value == p[..|r.value|] && gitDirAt(r.value)
    ensures r.Some? ==> forall k :: |r.value| < k <= |p| ==> !gitDirAt(p[..k])
    ensures r.None? <==> forall k :: 0 <= k <= |p| ==> !gitDirAt(p[..k])
  {
    if gitDirAt(p) then
      assert p[..|p|] == p;
      Some(p)
    else if Parent(p) == p then
      assert p[..0] == p;
      None
    else
      var r := NearestGitRoot(Parent(p), gitDirAt);
      assert forall k :: 0 <= k < |p| ==> Parent(p)[..k] == p[..k];
      assert p[..|p|] == p;
      r
  }

  /** The outcome FindGitRepo promises, as a value. */
  function Walk(ws: Workspace): Result<Path, WalkError> {
    match ws.start
    case None => Err(AbsFailed)
    case Some(p) =>
      match NearestGitRoot(p, ws.gitDirAt)
      case Some(root) => Ok(root)
      case None => Err(NotAGitRepository)
  }

  /** FindGitRepo: climb parent directories until one holds .git or the root is passed. */
  method FindGitRepo(ws: Workspace) returns (r: Result<Path, WalkError>)
    ensures r == Walk(ws)
  {
    if ws.start.None? {
      return Err(AbsFailed);
    }
    var path := ws.start.value;
    while true
      invariant NearestGitRoot(path, ws.gitDirAt) == NearestGitRoot(ws.start.value, ws.gitDirAt)
      decreases |path|
    {
      if ws.gitDirAt(path) {
        return Ok(path);
      }
      var parent := Parent(path);
      if parent == path {
        break;
      }
      path := parent;
    }
    return Err(NotAGitRepository);
  }

  /** A walk that succeeds never returns a path deeper than a qualifying one on the way up. */
  lemma FindGitRepoNearest(ws: Workspace)
    requires ws.start.Some?
    ensures Walk(ws).Ok? <==> exists k :: 0 <= k <= |ws.start.value| && ws.gitDirAt(ws.start.value[..k])
    ensures Walk(ws).Ok? ==>
      var root := Walk(ws).value;
      && |root| <= |ws.start.value| && root == ws.start.value[..|root|] && ws.gitDirAt(root)
      && forall k :: |root| < k <= |ws.start.value| ==> !ws.gitDirAt(ws.start.value[..k])
    ensures Walk(ws) == Err(NotAGitRepository) <==> forall k :: 0 <= k <= |ws.start.value| ==> !ws.gitDirAt(ws.start.value[..k])
  {
  }

  datatype RefError = InvalidRef(ref: string) | NoRefs

  /** One ref after `strings.TrimSpace`, or nothing when that leaves it empty. */
  function CleanOne(ref: string): (c: seq<string>)
    ensures |c| <= 1 && (c == [] <==> TrimSpace(ref) == "") && (c != [] ==> c[0] == TrimSpace(ref))
  {
    var t := TrimSpace(ref);
    if t == "" then [] else [t]
  }

  /** The refs ResolveRefs resolves: each trimmed, the empty ones skipped, in input order. */
  function CleanRefs(refs: seq<string>): (c: seq<string>)
    ensures |c| <= |refs|
    ensures forall i :: 0 <= i < |c| ==> c[i] != ""
  {
    if refs == [] then [] else CleanOne(refs[0]) + CleanRefs(refs[1..])
  }

  lemma {:induction false} CleanRefsAppend(a: seq<string>, b: seq<string>)
    ensures CleanRefs(a + b) == CleanRefs(a) + CleanRefs(b)
  {
    if a == [] {
      assert a + b == b;
    } else {
      var h := CleanOne(a[0]);
      assert (a + b)[0] == a[0] && (a + b)[1..] == a[1..] + b;
      assert CleanRefs(a + b) == h + CleanRefs(a[1..] + b);
      CleanRefsAppend(a[1..], b);
      assert h + (CleanRefs(a[1..]) + CleanRefs(b)) == (h + CleanRefs(a[1..])) + CleanRefs(b);
    }
  }

  /** An entry survives cleaning exactly when it trims to something non-empty. */
  lemma {:induction false} CleanRefsMembers(refs: seq<string>, x: string)
    ensures x in CleanRefs(refs) <==> x != "" && exists i :: 0 <= i < |refs| && TrimSpace(refs[i]) == x
  {
    if refs != [] {
      CleanRefsMembers(refs[1..], x);
      if x != "" && (exists i :: 0 <= i < |refs| && TrimSpace(refs[i]) == x) {
        var i :| 0 <= i < |refs| && TrimSpace(refs[i]) == x;
        if i > 0 {
          assert TrimSpace(refs[1..][i - 1]) == x;
        }
      }
      if exists i :: 0 <= i < |refs[1..]| && TrimSpace(refs[1..][i]) == x {
        var i :| 0 <= i < |refs[1..]| && TrimSpace(refs[1..][i]) == x;
        assert TrimSpace(refs[i + 1]) == x;
      }
    }
  }

  /** Resolves every entry in order; the first one that fails is the error. */
  function ResolveAll(xs: seq<string>, resolve: string -> Option<string>): (r: Result<seq<string>, string>)
    ensures r.Ok? <==> forall i :: 0 <= i < |xs| ==> resolve(xs[i]).Some?
    ensures r.Ok? ==> |r.value| == |xs| && forall i :: 0 <= i < |xs| ==> resolve(xs[i]) == Some(r.value[i])
    ensures r.Err? ==> exists i :: 0 <= i < |xs| && xs[i] == r.error && resolve(xs[i]).None?
                                   && forall j :: 0 <= j < i ==> resolve(xs[j]).Some?
  {
    if xs == [] then Ok([])
    else
      match resolve(xs[0])
      case None => Err(xs[0])
      case Some(h) =>
        match ResolveAll(xs[1..], resolve)
        case Err(e) =>
          assert forall j :: 0 < j < |xs| ==> xs[j] == xs[1..][j - 1];
          Err(e)
        case Ok(hs) =>
          assert forall j :: 0 < j < |xs| ==> xs[j] == xs[1..][j - 1];
          Ok([h] + hs)
  }

  lemma {:induction false} ResolveAllAppend(a: seq<string>, b: seq<string>, resolve: string -> Option<string>)
    ensures ResolveAll(a + b, resolve) ==
      match ResolveAll(a, resolve)
      case Err(e) => Err(e)
      case Ok(hs) =>
        match ResolveAll(b, resolve)
        case Err(e) => Err(e)
        case Ok(gs) => Ok(hs + gs)
  {
    if a == [] {
      assert a + b == b;
      assert ResolveAll(a, resolve) == Ok([]);
      match ResolveAll(b, resolve)
      case Err(e) =>
      case Ok(gs) => assert [] + gs == gs;
    } else {
      assert (a + b)[0] == a[0] && (a + b)[1..] == a[1..] + b;
      ResolveAllAppend(a[1..], b, resolve);
      match ResolveAll(a[1..], resolve)
      case Err(e) =>
      case Ok(hs) =>
        match ResolveAll(b, resolve)
        case Err(e) =>
        case Ok(gs) =>
          match resolve(a[0])
          case None =>
          case Some(h) =>
            assert [h] + (hs + gs) == ([h] + hs) + gs;
    }
  }

  /**
   * What ResolveRefs returns: one hash per non-empty trimmed ref, in order,
   * at least one and no more than there are refs; the first ref that does not
   * resolve as the error, never a partial list; NoRefs when nothing is left
   * after trimming.
   */
  function ResolvedRefs(refs: seq<string>, resolve: string -> Option<string>): (r: Result<seq<string>, RefError>)
    ensures r.Ok? ==> 1 <= |r.value| <= |refs| && |r.value| == |CleanRefs(refs)|
    ensures r.Ok? ==> forall i :: 0 <= i < |r.value| ==> resolve(CleanRefs(refs)[i]) == Some(r.value[i])
    ensures r == Err(NoRefs) <==> CleanRefs(refs) == []
    ensures r.Err? && r.error.InvalidRef? <==> exists i :: 0 <= i < |CleanRefs(refs)| && resolve(CleanRefs(refs)[i]).None?
    ensures r.Err? && r.error.InvalidRef? ==>
      exists i :: 0 <= i < |CleanRefs(refs)| && CleanRefs(refs)[i] == r.error.ref && resolve(r.error.ref).None?
                  && forall j :: 0 <= j < i ==> resolve(CleanRefs(refs)[j]).Some?
  {
    match ResolveAll(CleanRefs(refs), resolve)
    case Err(x) => Err(InvalidRef(x))
    case Ok(hs) => if hs == [] then Err(NoRefs) else Ok(hs)
  }

  lemma CleanRefsSnoc(prefix: seq<string>, x: string)
    ensures CleanRefs(prefix + [x]) == CleanRefs(prefix) + CleanOne(x)
  {
    CleanRefsAppend(prefix, [x]);
    assert [x][1..] == [];
  }

  /** Cleaning refs[..i + 1] cleans refs[..i] and then refs[i]. */
  lemma CleanRefsStep(refs: seq<string>, i: nat)
    requires i < |refs|
    ensures CleanRefs(refs[..i + 1]) == CleanRefs(refs[..i]) + CleanOne(refs[i])
  {
    assert refs[..i + 1] == refs[..i] + [refs[i]];
    CleanRefsSnoc(refs[..i], refs[i]);
  }

  lemma ResolveAllSnoc(xs: seq<string>, x: string, resolve: string -> Option<string>)
    ensures ResolveAll(xs + [x], resolve) ==
      match ResolveAll(xs, resolve)
      case Err(e) => Err(e)
      case Ok(hs) =>
        match resolve(x)
        case None => Err(x)
        case Some(h) => Ok(hs + [h])
  {
    ResolveAllAppend(xs, [x], resolve);
    assert [x][0] == x && [x][1..] == [];
    assert ResolveAll([x][1..], resolve) == Ok([]);
    match resolve(x)
    case None =>
    case Some(h) => assert [h] + [] == [h];
  }

  /** Cleaning a list cleans its prefix and then its suffix. */
  lemma CleanRefsSplit(refs: seq<string>, k: nat)
    requires k <= |refs|
    ensures CleanRefs(refs) == CleanRefs(refs[..k]) + CleanRefs(refs[k..])
  {
    CleanRefsAppend(refs[..k], refs[k..]);
    PrefixSuffix(refs, k);
  }

  lemma PrefixSuffix<T>(xs: seq<T>, k: nat)
    requires k <= |xs|
    ensures xs[..k] + xs[k..] == xs
  {
  }

  /** Once an entry of xs fails, the entries after xs are never looked at. */
  lemma ResolveAllAbort(xs: seq<string>, ys: seq<string>, resolve: string -> Option<string>)
    requires ResolveAll(xs, resolve).Err?
    ensures ResolveAll(xs + ys, resolve) == ResolveAll(xs, resolve)
  {
    ResolveAllAppend(xs, ys, resolve);
  }

  /** One turn of the ResolveRefs loop: skip an empty entry, extend the hashes, or fail. */
  lemma ResolveRefsStep(refs: seq<string>, i: nat, hashes: seq<string>, resolve: string -> Option<string>)
    requires i < |refs| && ResolveAll(CleanRefs(refs[..i]), resolve) == Ok(hashes)
    ensures TrimSpace(refs[i]) == "" ==> ResolveAll(CleanRefs(refs[..i + 1]), resolve) == Ok(hashes)
    ensures TrimSpace(refs[i]) != "" ==>
      ResolveAll(CleanRefs(refs[..i + 1]), resolve) ==
        match resolve(TrimSpace(refs[i]))
        case None => Err(TrimSpace(refs[i]))
        case Some(h) => Ok(hashes + [h])
  {
    CleanRefsStep(refs, i);
    if TrimSpace(refs[i]) == "" {
      assert CleanRefs(refs[..i]) + [] == CleanRefs(refs[..i]);
    } else {
      ResolveAllSnoc(CleanRefs(refs[..i]), TrimSpace(refs[i]), resolve);
    }
  }

  /** ResolveRefs: trim each ref, skip empty ones, resolve the rest, stop at the first failure. */
  method ResolveRefs(refs: seq<string>, resolve: string -> Option<string>) returns (r: Result<seq<string>, RefError>)
    ensures r == ResolvedRefs(refs, resolve)
  {
    var hashes: seq<string> := [];
    for i := 0 to |refs|
      invariant ResolveAll(CleanRefs(refs[..i]), resolve) == Ok(hashes)
    {
      ResolveRefsStep(refs, i, hashes, resolve);
      var ref := TrimSpace(refs[i]);
      if ref == "" {
        continue;
      }
      var short := resolve(ref);
      if short.None? {
        CleanRefsSplit(refs, i + 1);
        ResolveAllAbort(CleanRefs(refs[..i + 1]), CleanRefs(refs[i + 1..]), resolve);
        return Err(InvalidRef(ref));
      }
      hashes := hashes + [short.value];
    }
    assert refs[..|refs|] == refs;
    if |hashes| == 0 {
      return Err(NoRefs);
    }
    return Ok(hashes);
  }
}
