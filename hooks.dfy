/**
 * The decision logic of the three hook scripts `init` installs (the constants
 * preRebaseHook, postRewriteHook and postMergeHook of
 * cmd/git-squash-tree/main.go). Each script is modelled as what it decides
 * from its arguments, the marker files it finds and the answers of git: the
 * session it snapshots, and the `git squash-tree add-metadata` invocations
 * it issues. Every script ends in `exit 0` and discards add-metadata's
 * outcome (`2>/dev/null || true`), so none of them has a failure to model.
 */
module Hooks {
  import opened Wrappers
  import opened Text
  import opened Vcs

  /** The positional parameter `$n` of a script: "" when it was not passed. */
  function Param(args: seq<string>, n: nat): string {
    if 1 <= n <= |args| then args[n - 1] else ""
  }

  /**
   * The pending-rewrite session the pre-rebase hook leaves in .git:
   * SQUASH_PRE_REBASE_COMMITS (the lines of a `git rev-list`, newest first)
   * and SQUASH_PRE_REBASE_BASE.
   */
  datatype Session = Session(commits: seq<string>, base: string)

  /** The two session files as post-rewrite finds them; None for a missing file. */
  datatype SessionFiles = SessionFiles(commits: Option<seq<string>>, base: Option<string>)

  /** The strategy every hook passes to add-metadata. */
  const HookStrategy := "auto"

  /** One `git squash-tree add-metadata --root=… --base=… --children=… --strategy=auto` invocation. */
  datatype Request = Request(root: string, base: string, children: string)

  /** One "old new [extra]" line post-rewrite reads from standard input. */
  datatype Rewrite = Rewrite(oldSha: string, newSha: string)

  /** The pairs both post-rewrite branches act upon. */
  predicate Rewritten(p: Rewrite) {
    p.oldSha != p.newSha && p.newSha != ""
  }

  // ---------------------------------------------------------------- lists

  /** The entries of xs that keep selects, in their order. */
  function Filter(xs: seq<string>, keep: string -> bool): (r: seq<string>)
    ensures |r| <= |xs|
  {
    if xs == [] then []
    else Filter(xs[..|xs| - 1], keep) + (if keep(xs[|xs| - 1]) then [xs[|xs| - 1]] else [])
  }

  /** Filtering keeps exactly the selected entries... */
  lemma {:induction false} FilterMembers(xs: seq<string>, keep: string -> bool, x: string)
    ensures x in Filter(xs, keep) <==> x in xs && keep(x)
  {
    if xs != [] {
      FilterMembers(xs[..|xs| - 1], keep, x);
      assert xs == xs[..|xs| - 1] + [xs[|xs| - 1]];
    }
  }

  /** ...and keeps their order: it distributes over concatenation. */
  lemma {:induction false} FilterAppend(a: seq<string>, b: seq<string>, keep: string -> bool)
    ensures Filter(a + b, keep) == Filter(a, keep) + Filter(b, keep)
  {
    if b == [] {
      assert a + b == a;
    } else {
      assert (a + b)[..|a + b| - 1] == a + b[..|b| - 1];
      FilterAppend(a, b[..|b| - 1], keep);
    }
  }

  /** Entries of a filtered list of object names are object names. */
  lemma {:induction false} FilterNames(xs: seq<string>, keep: string -> bool)
    requires AllNames(xs)
    ensures AllNames(Filter(xs, keep))
  {
    if xs != [] {
      assert AllNames(xs[..|xs| - 1]) by { assert forall k :: 0 <= k < |xs| - 1 ==> xs[..|xs| - 1][k] == xs[k]; }
      FilterNames(xs[..|xs| - 1], keep);
    }
  }

  /** A non-empty filtered list of names, joined with commas, splits back into itself. */
  lemma FilteredSplitsBack(xs: seq<string>, keep: string -> bool)
    ensures AllNames(xs) && Filter(xs, keep) != [] ==> Split(Join(Filter(xs, keep))) == Filter(xs, keep)
  {
    if AllNames(xs) && Filter(xs, keep) != [] {
      FilterNames(xs, keep);
      SplitJoin(Filter(xs, keep));
    }
  }

  /** The invocations a loop issues, one per pair for which f decides on one, in pair order. */
  function Collect(rewrites: seq<Rewrite>, f: Rewrite -> Option<Request>): (r: seq<Request>)
    ensures |r| <= |rewrites|
  {
    if rewrites == [] then []
    else
      var last := rewrites[|rewrites| - 1];
      Collect(rewrites[..|rewrites| - 1], f) + (if f(last).Some? then [f(last).value] else [])
  }

  /** An invocation is issued exactly when some pair calls for it. */
  lemma {:induction false} CollectMembers(rewrites: seq<Rewrite>, f: Rewrite -> Option<Request>, r: Request)
    ensures r in Collect(rewrites, f) <==> exists i :: 0 <= i < |rewrites| && f(rewrites[i]) == Some(r)
  {
    if rewrites != [] {
      var init := rewrites[..|rewrites| - 1];
      CollectMembers(init, f, r);
      if exists i :: 0 <= i < |rewrites| && f(rewrites[i]) == Some(r) {
        var i :| 0 <= i < |rewrites| && f(rewrites[i]) == Some(r);
        if i < |init| {
          assert f(init[i]) == Some(r);
        }
      }
      if exists i :: 0 <= i < |init| && f(init[i]) == Some(r) {
        var i :| 0 <= i < |init| && f(init[i]) == Some(r);
        assert f(rewrites[i]) == Some(r);
      }
    }
  }

  // ---------------------------------------------------------------- pre-rebase

  /**
   * pre-rebase as written: when `$2` is non-empty it is taken as the
   * upstream, and the session records `git rev-list $2..$3` (`$2..HEAD`
   * without a third parameter) together with `$2`.
   */
  function PreRebaseSnapshot(args: seq<string>, git: Git): (s: Option<Session>)
    ensures s.Some? <==> Param(args, 2) != ""
    ensures s.Some? ==> s.value.base == Param(args, 2)
    ensures s.Some? && Param(args, 3) == "" ==> s.value.commits == git.revList(Param(args, 2), "HEAD")
    ensures s.Some? && Param(args, 3) != "" ==> s.value.commits == git.revList(Param(args, 2), Param(args, 3))
  {
    if Param(args, 2) != "" then
      var upstream := Param(args, 2);
      var tip := if Param(args, 3) != "" then Param(args, 3) else "HEAD";
      Some(Session(git.revList(upstream, tip), upstream))
    else None
  }

  /**
   * git runs pre-rebase with the upstream as `$1` and the branch being
   * rebased as `$2`, which it leaves out when the current branch is rebased.
   * Rebasing the current branch onto any upstream therefore takes no snapshot.
   */
  lemma RebaseOfCurrentBranchTakesNoSnapshot(upstream: string, git: Git)
    requires upstream != ""
    ensures PreRebaseSnapshot([upstream], git) == None
    ensures PreRebaseSnapshotIntended([upstream], git) == Some(Session(git.revList(upstream, "HEAD"), upstream))
  {
  }

  /**
   * pre-rebase as git calls it: the upstream is `$1`, the tip is the branch
   * in `$2`, or HEAD when the current branch is rebased.
   */
  function PreRebaseSnapshotIntended(args: seq<string>, git: Git): (s: Option<Session>)
    ensures s.Some? <==> Param(args, 1) != ""
    ensures s.Some? ==> s.value.base == Param(args, 1)
    ensures s.Some? ==> s.value.commits == git.revList(Param(args, 1), if Param(args, 2) != "" then Param(args, 2) else "HEAD")
  {
    if Param(args, 1) != "" then
      var upstream := Param(args, 1);
      var tip := if Param(args, 2) != "" then Param(args, 2) else "HEAD";
      Some(Session(git.revList(upstream, tip), upstream))
    else None
  }

  /** The session files after pre-rebase: a snapshot writes both, otherwise they stay as they were. */
  function FilesAfterSnapshot(files: SessionFiles, s: Option<Session>): (f: SessionFiles)
    ensures s.Some? ==> HasSession(f) && SessionOf(f) == s.value
    ensures s.None? ==> f == files
  {
    match s
    case None => files
    case Some(session) => SessionFiles(Some(session.commits), Some(session.base))
  }

  // ---------------------------------------------------------------- post-rewrite, with a session

  /** As written, a recorded commit is kept when it does not resolve or when it IS an ancestor of the new commit. */
  function Squashed(commits: seq<string>, newSha: string, git: Git): (r: seq<string>)
    ensures forall x :: x in r <==> x in commits && (!git.Resolvable(x) || git.isAncestor(x, newSha))
  {
    var kept := c => !git.Resolvable(c) || git.isAncestor(c, newSha);
    forall x ensures x in Filter(commits, kept) <==> x in commits && kept(x) {
      FilterMembers(commits, kept, x);
    }
    Filter(commits, kept)
  }

  /** The invocation the session branch issues for one pair: more than one kept commit is needed. */
  function SessionRequest(s: Session, p: Rewrite, git: Git): (r: Option<Request>)
    ensures r.Some? <==> Rewritten(p) && |Squashed(s.commits, p.newSha, git)| > 1
    ensures r.Some? ==> r.value.root == p.newSha && r.value.base == s.base
    ensures r.Some? && AllNames(s.commits) ==> Split(r.value.children) == Squashed(s.commits, p.newSha, git)
  {
    if Rewritten(p) && |Squashed(s.commits, p.newSha, git)| > 1 then
      var kept := Squashed(s.commits, p.newSha, git);
      FilteredSplitsBack(s.commits, c => !git.Resolvable(c) || git.isAncestor(c, p.newSha));
      Some(Request(p.newSha, s.base, Join(kept)))
    else None
  }

  function SessionRequests(s: Session, rewrites: seq<Rewrite>, git: Git): seq<Request> {
    Collect(rewrites, p => SessionRequest(s, p, git))
  }

  /**
   * The session branch of post-rewrite: for every rewritten pair, gather
   * the recorded commits the script keeps and request metadata when there
   * are more than one.
   */
  method PostRewriteWithSession(s: Session, rewrites: seq<Rewrite>, git: Git) returns (requests: seq<Request>)
    ensures requests == SessionRequests(s, rewrites, git)
  {
    requests := [];
    for i := 0 to |rewrites|
      invariant requests == SessionRequests(s, rewrites[..i], git)
    {
      var p := rewrites[i];
      assert rewrites[..i + 1][..i] == rewrites[..i];
      if p.oldSha != p.newSha && p.newSha != "" {
        var squashed: seq<string> := [];
        for j := 0 to |s.commits|
          invariant squashed == Squashed(s.commits[..j], p.newSha, git)
        {
          var c := s.commits[j];
          assert s.commits[..j + 1][..j] == s.commits[..j];
          if git.Resolvable(c) {
            if git.isAncestor(c, p.newSha) {
              squashed := squashed + [c];
            }
          } else {
            squashed := squashed + [c];
          }
        }
        assert s.commits[..|s.commits|] == s.commits;
        if |squashed| > 1 {
          requests := requests + [Request(p.newSha, s.base, Join(squashed))];
        }
      }
    }
    assert rewrites[..|rewrites|] == rewrites;
  }

  /**
   * Squashing every recorded commit into one new commit (none of them is
   * an ancestor of it, all still resolve) makes the script as written keep
   * none of them, so it records nothing.
   */
  lemma SquashOfAllRecordsNothing(s: Session, p: Rewrite, git: Git)
    requires forall i :: 0 <= i < |s.commits| ==> git.Resolvable(s.commits[i]) && !git.isAncestor(s.commits[i], p.newSha)
    ensures Squashed(s.commits, p.newSha, git) == []
    ensures SessionRequest(s, p, git) == None
    ensures Rewritten(p) && |s.commits| > 1 ==> SubsumedRequest(s, p, git) == Some(Request(p.newSha, s.base, Join(s.commits)))
  {
    FilterNone(s.commits, c => !git.Resolvable(c) || git.isAncestor(c, p.newSha));
    FilterAll(s.commits, c => !git.Resolvable(c) || !git.isAncestor(c, p.newSha));
  }

  lemma {:induction false} FilterNone(xs: seq<string>, keep: string -> bool)
    requires forall i :: 0 <= i < |xs| ==> !keep(xs[i])
    ensures Filter(xs, keep) == []
  {
    if xs != [] {
      FilterNone(xs[..|xs| - 1], keep);
    }
  }

  lemma {:induction false} FilterAll(xs: seq<string>, keep: string -> bool)
    requires forall i :: 0 <= i < |xs| ==> keep(xs[i])
    ensures Filter(xs, keep) == xs
  {
    if xs != [] {
      FilterAll(xs[..|xs| - 1], keep);
      assert xs[..|xs| - 1] + [xs[|xs| - 1]] == xs;
    }
  }

  /** As intended: a recorded commit is subsumed when it no longer resolves or is NOT an ancestor of the new commit. */
  function Subsumed(commits: seq<string>, newSha: string, git: Git): (r: seq<string>)
    ensures forall x :: x in r <==> x in commits && (!git.Resolvable(x) || !git.isAncestor(x, newSha))
  {
    var gone := c => !git.Resolvable(c) || !git.isAncestor(c, newSha);
    forall x ensures x in Filter(commits, gone) <==> x in commits && gone(x) {
      FilterMembers(commits, gone, x);
    }
    Filter(commits, gone)
  }

  /** The intended invocation for one pair: the subsumed commits, when there are more than one. */
  function SubsumedRequest(s: Session, p: Rewrite, git: Git): (r: Option<Request>)
    ensures r.Some? <==> Rewritten(p) && |Subsumed(s.commits, p.newSha, git)| > 1
    ensures r.Some? ==> r.value.root == p.newSha && r.value.base == s.base
    ensures r.Some? && AllNames(s.commits) ==> Split(r.value.children) == Subsumed(s.commits, p.newSha, git)
  {
    if Rewritten(p) && |Subsumed(s.commits, p.newSha, git)| > 1 then
      var gone := Subsumed(s.commits, p.newSha, git);
      FilteredSplitsBack(s.commits, c => !git.Resolvable(c) || !git.isAncestor(c, p.newSha));
      Some(Request(p.newSha, s.base, Join(gone)))
    else None
  }

  // ---------------------------------------------------------------- post-rewrite, without a session

  /** `$(git merge-base a b || git rev-parse "$c^" || echo "")`. */
  function BaseOrParent(git: Git, a: string, b: string, c: string): (base: string)
    ensures git.mergeBase(a, b).Some? ==> base == git.mergeBase(a, b).value
    ensures git.mergeBase(a, b).None? && git.Parent(c).Some? ==> base == git.Parent(c).value
    ensures git.mergeBase(a, b).None? && git.Parent(c).None? ==> base == ""
    ensures base == "" ==> git.mergeBase(a, b) == Some("") || (git.mergeBase(a, b).None? && git.Parent(c) in {None, Some("")})
  {
    match git.mergeBase(a, b)
    case Some(m) => m
    case None =>
      match git.Parent(c)
      case Some(q) => q
      case None => ""
  }

  /** `$(git rev-list --reverse "$base..$tip" | tr '\n' ',')` followed by `${X%,}`. */
  function RangeList(git: Git, base: string, tip: string): string {
    StripTrailingComma(Translate(Lines(Reverse(git.revList(base, tip))), '\n', ','))
  }

  /** The range as a list literal: oldest commit first, separated by commas. */
  lemma RangeListJoins(git: Git, base: string, tip: string)
    requires AllNames(git.revList(base, tip))
    ensures RangeList(git, base, tip) == Join(Reverse(git.revList(base, tip)))
    ensures Split(RangeList(git, base, tip)) == Reverse(git.revList(base, tip)) || git.revList(base, tip) == []
  {
    var xs := git.revList(base, tip);
    assert AllNames(Reverse(xs));
    PipelineJoins(Reverse(xs));
    if xs != [] {
      SplitJoin(Reverse(xs));
    }
  }

  /** The invocation the fallback branch issues for one pair. */
  function FallbackRequest(p: Rewrite, git: Git): (r: Option<Request>)
    ensures r.Some? ==> Rewritten(p) && r.value.root == p.newSha
    ensures r.Some? ==> r.value.base == BaseOrParent(git, p.oldSha, p.newSha, p.newSha) != ""
    ensures r.Some? ==> r.value.children != "" && LineCount(r.value.children) > 1
  {
    if !Rewritten(p) then None
    else
      var base := BaseOrParent(git, p.oldSha, p.newSha, p.newSha);
      if base == "" then None
      else
        var children := RangeList(git, base, p.oldSha);
        if children != "" && LineCount(children) > 1 then Some(Request(p.newSha, base, children))
        else None
  }

  /**
   * Without a session, a pair leads to an invocation exactly when its base
   * (merge-base, else the new commit's parent) is known and the range
   * base..old holds more than one commit; the children are that range,
   * oldest first.
   */
  lemma FallbackRequestSpec(p: Rewrite, git: Git)
    requires Rewritten(p) ==> AllNames(git.revList(BaseOrParent(git, p.oldSha, p.newSha, p.newSha), p.oldSha))
    ensures var r := FallbackRequest(p, git); var base := BaseOrParent(git, p.oldSha, p.newSha, p.newSha);
      && (r.Some? <==> Rewritten(p) && base != "" && |git.revList(base, p.oldSha)| > 1)
      && (r.Some? ==> r.value == Request(p.newSha, base, Join(Reverse(git.revList(base, p.oldSha)))))
      && (r.Some? ==> Split(r.value.children) == Reverse(git.revList(base, p.oldSha)))
  {
    if Rewritten(p) {
      var base := BaseOrParent(git, p.oldSha, p.newSha, p.newSha);
      var xs := git.revList(base, p.oldSha);
      RangeListJoins(git, base, p.oldSha);
      if xs != [] {
        assert AllNames(Reverse(xs));
        LineCountJoin(Reverse(xs));
        assert Join(Reverse(xs)) != [] by { assert IsName(Reverse(xs)[0]); JoinStartsWith(Reverse(xs)); }
      }
    }
  }

  /** A join of names begins with the first name, so it is not empty. */
  lemma JoinStartsWith(xs: seq<string>)
    requires xs != [] && xs[0] != []
    ensures Join(xs) != [] && Join(xs)[0] == xs[0][0]
  {
  }

  function FallbackRequests(rewrites: seq<Rewrite>, git: Git): seq<Request> {
    Collect(rewrites, p => FallbackRequest(p, git))
  }

  /** The fallback branch of post-rewrite: one merge-base range per rewritten pair. */
  method PostRewriteFallback(rewrites: seq<Rewrite>, git: Git) returns (requests: seq<Request>)
    ensures requests == FallbackRequests(rewrites, git)
  {
    requests := [];
    for i := 0 to |rewrites|
      invariant requests == FallbackRequests(rewrites[..i], git)
    {
      var p := rewrites[i];
      assert rewrites[..i + 1][..i] == rewrites[..i];
      if p.oldSha != p.newSha && p.newSha != "" {
        var base := BaseOrParent(git, p.oldSha, p.newSha, p.newSha);
        if base != "" {
          var children := RangeList(git, base, p.oldSha);
          if children != "" && LineCount(children) > 1 {
            requests := requests + [Request(p.newSha, base, children)];
          }
        }
      }
    }
    assert rewrites[..|rewrites|] == rewrites;
  }

  // ---------------------------------------------------------------- post-rewrite

  /**
   * The script's first test: it goes on only for a rebase, or when
   * .git/rebase-merge or .git/rebase-apply is a regular file.
   */
  predicate RewriteIsRebase(kind: string, rebaseMergeIsFile: bool, rebaseApplyIsFile: bool) {
    kind == "rebase" || rebaseMergeIsFile || rebaseApplyIsFile
  }

  predicate HasSession(files: SessionFiles) {
    files.commits.Some? && files.base.Some?
  }

  function SessionOf(files: SessionFiles): Session
    requires HasSession(files)
  {
    Session(files.commits.value, files.base.value)
  }

  datatype PostRewriteEffect = PostRewriteEffect(requests: seq<Request>, removesSession: bool)

  /**
   * post-rewrite: outside a rebase it does nothing; with both session files
   * it uses the session and removes both files; otherwise it falls back to
   * merge-base ranges and leaves the files alone.
   */
  method PostRewrite(kind: string, rebaseMergeIsFile: bool, rebaseApplyIsFile: bool, files: SessionFiles,
                     rewrites: seq<Rewrite>, git: Git) returns (e: PostRewriteEffect)
    ensures !RewriteIsRebase(kind, rebaseMergeIsFile, rebaseApplyIsFile) ==> e == PostRewriteEffect([], false)
    ensures RewriteIsRebase(kind, rebaseMergeIsFile, rebaseApplyIsFile) && HasSession(files) ==>
      e == PostRewriteEffect(SessionRequests(SessionOf(files), rewrites, git), true)
    ensures RewriteIsRebase(kind, rebaseMergeIsFile, rebaseApplyIsFile) && !HasSession(files) ==>
      e == PostRewriteEffect(FallbackRequests(rewrites, git), false)
  {
    if kind != "rebase" && !rebaseMergeIsFile && !rebaseApplyIsFile {
      return PostRewriteEffect([], false);
    }
    if files.commits.Some? && files.base.Some? {
      var requests := PostRewriteWithSession(Session(files.commits.value, files.base.value), rewrites, git);
      return PostRewriteEffect(requests, true);
    }
    var requests := PostRewriteFallback(rewrites, git);
    return PostRewriteEffect(requests, false);
  }

  /** Every invocation of the session branch answers one rewritten pair and names its new commit as root. */
  lemma SessionRequestsSpec(s: Session, rewrites: seq<Rewrite>, git: Git, r: Request)
    ensures r in SessionRequests(s, rewrites, git) <==>
      exists i :: 0 <= i < |rewrites| && Rewritten(rewrites[i]) && |Squashed(s.commits, rewrites[i].newSha, git)| > 1
                  && r == Request(rewrites[i].newSha, s.base, Join(Squashed(s.commits, rewrites[i].newSha, git)))
  {
    CollectMembers(rewrites, p => SessionRequest(s, p, git), r);
  }

  // ---------------------------------------------------------------- post-merge

  datatype PostMergeEffect = PostMergeEffect(request: Option<Request>, removesMarker: bool)

  /**
   * post-merge: without the SQUASH_HEAD marker it does nothing. Otherwise,
   * when MERGE_HEAD and SQUASH_HEAD both have content, the base is the
   * merge-base of HEAD and MERGE_HEAD (else HEAD's parent) and the children
   * are base..MERGE_HEAD oldest first; the marker is removed in any case.
   */
  function PostMerge(squashHead: Option<string>, mergeHead: Option<string>, git: Git): (e: PostMergeEffect)
    ensures e.removesMarker <==> squashHead.Some?
    ensures e.request.Some? ==> squashHead.Some? && squashHead.value != "" && mergeHead.GetOr("") != ""
    ensures e.request.Some? ==>
      var current := git.revParse("HEAD").GetOr("");
      && e.request.value.root == current
      && e.request.value.base == BaseOrParent(git, current, mergeHead.GetOr(""), current) != ""
      && e.request.value.children != ""
  {
    if squashHead.None? then PostMergeEffect(None, false)
    else
      var merge := mergeHead.GetOr("");
      var current := git.revParse("HEAD").GetOr("");
      if merge != "" && squashHead.value != "" then
        var base := BaseOrParent(git, current, merge, current);
        if base != "" then
          var commits := RangeList(git, base, merge);
          PostMergeEffect(if commits != "" then Some(Request(current, base, commits)) else None, true)
        else PostMergeEffect(None, true)
      else PostMergeEffect(None, true)
  }

  /**
   * post-merge requests metadata exactly when the marker is there, both
   * heads have content, the base is known and base..MERGE_HEAD has at least
   * one commit; the root is HEAD and the children that range, oldest first.
   */
  lemma PostMergeSpec(squashHead: Option<string>, mergeHead: Option<string>, git: Git)
    requires AllNames(git.revList(BaseOrParent(git, git.revParse("HEAD").GetOr(""), mergeHead.GetOr(""), git.revParse("HEAD").GetOr("")), mergeHead.GetOr("")))
    ensures var e := PostMerge(squashHead, mergeHead, git);
      var current := git.revParse("HEAD").GetOr("");
      var merge := mergeHead.GetOr("");
      var base := BaseOrParent(git, current, merge, current);
      && (e.removesMarker <==> squashHead.Some?)
      && (e.request.Some? <==>
            squashHead.Some? && squashHead.value != "" && merge != "" && base != "" && |git.revList(base, merge)| >= 1)
      && (e.request.Some? ==>
            e.request.value == Request(current, base, Join(Reverse(git.revList(base, merge))))
            && Split(e.request.value.children) == Reverse(git.revList(base, merge)))
  {
    var current := git.revParse("HEAD").GetOr("");
    var merge := mergeHead.GetOr("");
    var base := BaseOrParent(git, current, merge, current);
    RangeListJoins(git, base, merge);
    var xs := git.revList(base, merge);
    if xs != [] {
      assert AllNames(Reverse(xs));
      assert IsName(Reverse(xs)[0]);
      JoinStartsWith(Reverse(xs));
    }
  }
}
