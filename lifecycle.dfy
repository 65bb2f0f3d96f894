/**
 * How the hooks and the recorder fit together: a hook's invocation
 * `git squash-tree add-metadata --root=R --base=B --children=C --strategy=auto`
 * reaches runAddMetadata with those flags, and the comma-joined children
 * the hook built come back, split and trimmed, as the list it joined.
 */
module Lifecycle {
  import opened Wrappers
  import opened Text
  import opened Repo
  import opened Vcs
  import opened Metadata
  import opened Hooks

  /** The flags add-metadata parses from a hook's invocation. */
  function RequestFlags(r: Request): AddMetadataFlags {
    AddMetadataFlags(r.root, r.base, r.children, Some(HookStrategy))
  }

  /** Object names survive trimming and the dropping of empty entries unchanged. */
  lemma {:induction false} CleanNames(xs: seq<string>)
    requires AllNames(xs)
    ensures CleanRefs(xs) == xs
  {
    if xs != [] {
      TrimName(xs[0]);
      assert AllNames(xs[1..]) by { assert forall k :: 0 <= k < |xs| - 1 ==> xs[1..][k] == xs[k + 1]; }
      CleanNames(xs[1..]);
    }
  }

  /** The children flag a hook builds from names is read back as exactly those names, in order. */
  lemma ChildRefsOfJoin(xs: seq<string>)
    requires xs != [] && AllNames(xs)
    ensures ChildRefs(Join(xs)) == xs
  {
    SplitJoin(xs);
    CleanNames(xs);
  }

  /**
   * A request whose children are a non-empty list of names is recorded, when
   * its root is new to the store and every ref resolves, as a fact whose
   * children are the canonical forms of those names in the same order and
   * whose strategy is auto.
   */
  lemma RequestRecorded(notes: map<string, SquashFact>, r: Request, xs: seq<string>, ws: Workspace,
                        git: Git, storeAccepts: bool)
    requires xs != [] && AllNames(xs) && r.children == Join(xs)
    requires r.root != "" && r.base != ""
    requires Walk(ws).Ok? && r.root !in notes && storeAccepts
    requires git.shortHash(r.root).Some? && git.shortHash(r.base).Some?
    requires forall i :: 0 <= i < |xs| ==> git.shortHash(xs[i]).Some?
    ensures var o := AddMetadataOutcome(notes, RequestFlags(r), ws, git.shortHash, storeAccepts);
      && o.Recorded?
      && o.fact.root == git.shortHash(r.root).value && o.fact.base == git.shortHash(r.base).value
      && |o.fact.children| == |xs|
      && (forall i :: 0 <= i < |xs| ==> git.shortHash(xs[i]) == Some(o.fact.children[i]))
      && o.fact.strategy == "auto"
  {
    ChildRefsOfJoin(xs);
    JoinStartsWith(xs);
    assert IsName(xs[0]);
  }

  /**
   * The session branch end to end: what it passes to add-metadata is recorded
   * with the kept commits, resolved, in session order.
   */
  lemma SessionRequestRecorded(notes: map<string, SquashFact>, s: Session, p: Rewrite, ws: Workspace,
                               git: Git, storeAccepts: bool)
    requires AllNames(s.commits) && s.base != ""
    requires SessionRequest(s, p, git).Some?
    requires Walk(ws).Ok? && p.newSha !in notes && storeAccepts
    requires git.shortHash(p.newSha).Some? && git.shortHash(s.base).Some?
    requires forall c :: c in s.commits ==> git.shortHash(c).Some?
    ensures var kept := Squashed(s.commits, p.newSha, git);
      var o := AddMetadataOutcome(notes, RequestFlags(SessionRequest(s, p, git).value), ws, git.shortHash, storeAccepts);
      && o.Recorded? && |o.fact.children| == |kept|
      && forall i :: 0 <= i < |kept| ==> git.shortHash(kept[i]) == Some(o.fact.children[i])
  {
    var keep := c => !git.Resolvable(c) || git.isAncestor(c, p.newSha);
    var kept := Squashed(s.commits, p.newSha, git);
    FilterNames(s.commits, keep);
    forall i | 0 <= i < |kept| ensures git.shortHash(kept[i]).Some? {
      FilterMembers(s.commits, keep, kept[i]);
    }
    RequestRecorded(notes, SessionRequest(s, p, git).value, kept, ws, git, storeAccepts);
  }

  /** Reversing a list of resolvable names gives a list of resolvable names. */
  lemma ReversedNames(xs: seq<string>, shortHash: string -> Option<string>)
    requires AllNames(xs) && forall c :: c in xs ==> shortHash(c).Some?
    ensures AllNames(Reverse(xs)) && forall i :: 0 <= i < |xs| ==> shortHash(Reverse(xs)[i]).Some?
  {
    var range := Reverse(xs);
    forall i | 0 <= i < |range| ensures IsName(range[i]) && shortHash(range[i]).Some? {
      assert range[i] == xs[|xs| - 1 - i];
    }
  }

  /**
   * The fallback branch end to end: the range base..old is recorded, oldest
   * first, under the new commit.
   */
  lemma FallbackRequestRecorded(notes: map<string, SquashFact>, p: Rewrite, ws: Workspace, git: Git, storeAccepts: bool)
    requires FallbackRequest(p, git).Some?
    requires AllNames(git.revList(BaseOrParent(git, p.oldSha, p.newSha, p.newSha), p.oldSha))
    requires Walk(ws).Ok? && p.newSha !in notes && storeAccepts
    requires git.shortHash(p.newSha).Some? && git.shortHash(BaseOrParent(git, p.oldSha, p.newSha, p.newSha)).Some?
    requires forall c :: c in git.revList(BaseOrParent(git, p.oldSha, p.newSha, p.newSha), p.oldSha) ==> git.shortHash(c).Some?
    ensures var range := Reverse(git.revList(BaseOrParent(git, p.oldSha, p.newSha, p.newSha), p.oldSha));
      var o := AddMetadataOutcome(notes, RequestFlags(FallbackRequest(p, git).value), ws, git.shortHash, storeAccepts);
      && o.Recorded? && |o.fact.children| == |range| >= 2
      && forall i :: 0 <= i < |range| ==> git.shortHash(range[i]) == Some(o.fact.children[i])
  {
    FallbackRequestSpec(p, git);
    var base := BaseOrParent(git, p.oldSha, p.newSha, p.newSha);
    var xs := git.revList(base, p.oldSha);
    var range := Reverse(xs);
    var req := FallbackRequest(p, git).value;
    assert req == Request(p.newSha, base, Join(range));
    ReversedNames(xs, git.shortHash);
    RequestRecorded(notes, req, range, ws, git, storeAccepts);
  }

  /**
   * The rebase as intended: a snapshot taken from `$1`, then a squash of all
   * snapshot commits into one new commit, records every snapshot commit,
   * resolved, in snapshot order.
   */
  lemma IntendedSquashRebaseRecordsSnapshot(notes: map<string, SquashFact>, upstream: string, p: Rewrite,
                                            ws: Workspace, git: Git, storeAccepts: bool)
    requires upstream != "" && Rewritten(p)
    requires var commits := git.revList(upstream, "HEAD");
      && |commits| > 1 && AllNames(commits)
      && forall i :: 0 <= i < |commits| ==> git.Resolvable(commits[i]) && !git.isAncestor(commits[i], p.newSha)
    requires Walk(ws).Ok? && p.newSha !in notes && storeAccepts
    requires git.shortHash(p.newSha).Some? && git.shortHash(upstream).Some?
    requires forall c :: c in git.revList(upstream, "HEAD") ==> git.shortHash(c).Some?
    ensures PreRebaseSnapshotIntended([upstream], git).Some?
    ensures SubsumedRequest(PreRebaseSnapshotIntended([upstream], git).value, p, git).Some?
    ensures var s := PreRebaseSnapshotIntended([upstream], git).value;
      var o := AddMetadataOutcome(notes, RequestFlags(SubsumedRequest(s, p, git).value), ws, git.shortHash, storeAccepts);
      && o.Recorded? && |o.fact.children| == |s.commits|
      && forall i :: 0 <= i < |s.commits| ==> git.shortHash(s.commits[i]) == Some(o.fact.children[i])
  {
    var s := PreRebaseSnapshotIntended([upstream], git).value;
    assert s == Session(git.revList(upstream, "HEAD"), upstream);
    FilterAll(s.commits, c => !git.Resolvable(c) || !git.isAncestor(c, p.newSha));
    assert Subsumed(s.commits, p.newSha, git) == s.commits;
    RequestRecorded(notes, SubsumedRequest(s, p, git).value, s.commits, ws, git, storeAccepts);
  }

  /** What post-merge passes to add-metadata is recorded as the merged range, oldest first, under HEAD. */
  lemma PostMergeRequestRecorded(notes: map<string, SquashFact>, squashHead: Option<string>, mergeHead: Option<string>,
                                 ws: Workspace, git: Git, storeAccepts: bool)
    requires PostMerge(squashHead, mergeHead, git).request.Some?
    requires var current := git.revParse("HEAD").GetOr("");
      var base := BaseOrParent(git, current, mergeHead.GetOr(""), current);
      && AllNames(git.revList(base, mergeHead.GetOr("")))
      && current != "" && current !in notes
      && git.shortHash(current).Some? && git.shortHash(base).Some?
      && forall c :: c in git.revList(base, mergeHead.GetOr("")) ==> git.shortHash(c).Some?
    requires Walk(ws).Ok? && storeAccepts
    ensures var current := git.revParse("HEAD").GetOr("");
      var range := Reverse(git.revList(BaseOrParent(git, current, mergeHead.GetOr(""), current), mergeHead.GetOr("")));
      var o := AddMetadataOutcome(notes, RequestFlags(PostMerge(squashHead, mergeHead, git).request.value), ws, git.shortHash, storeAccepts);
      && o.Recorded? && |o.fact.children| == |range| >= 1
      && forall i :: 0 <= i < |range| ==> git.shortHash(range[i]) == Some(o.fact.children[i])
  {
    PostMergeSpec(squashHead, mergeHead, git);
    var current := git.revParse("HEAD").GetOr("");
    var base := BaseOrParent(git, current, mergeHead.GetOr(""), current);
    var xs := git.revList(base, mergeHead.GetOr(""));
    var range := Reverse(xs);
    var req := PostMerge(squashHead, mergeHead, git).request.value;
    assert req == Request(current, base, Join(range));
    ReversedNames(xs, git.shortHash);
    RequestRecorded(notes, req, range, ws, git, storeAccepts);
  }

  /** A request naming a child that `git rev-parse --short` rejects records nothing and leaves the store as it was. */
  lemma UnresolvableChildBlocksRecording(notes: map<string, SquashFact>, r: Request, xs: seq<string>, c: string,
                                         ws: Workspace, git: Git, storeAccepts: bool)
    requires xs != [] && AllNames(xs) && r.children == Join(xs)
    requires c in xs && git.shortHash(c).None?
    ensures var o := AddMetadataOutcome(notes, RequestFlags(r), ws, git.shortHash, storeAccepts);
      !o.Recorded? && StoreAfter(notes, o) == notes
  {
    ChildRefsOfJoin(xs);
  }

  /**
   * Both keep rules keep a snapshot commit that no longer resolves, and
   * add-metadata then rejects it: when `rev-parse` and `rev-parse --short`
   * agree, a pair whose kept list holds such a commit records nothing.
   */
  lemma SessionWithUnresolvableCommitRecordsNothing(notes: map<string, SquashFact>, s: Session, p: Rewrite, c: string,
                                                    ws: Workspace, git: Git, storeAccepts: bool)
    requires git.ResolvesAlike() && AllNames(s.commits)
    requires c in s.commits && !git.Resolvable(c)
    ensures SessionRequest(s, p, git).Some? ==>
      var o := AddMetadataOutcome(notes, RequestFlags(SessionRequest(s, p, git).value), ws, git.shortHash, storeAccepts);
      !o.Recorded? && StoreAfter(notes, o) == notes
    ensures SubsumedRequest(s, p, git).Some? ==>
      var o := AddMetadataOutcome(notes, RequestFlags(SubsumedRequest(s, p, git).value), ws, git.shortHash, storeAccepts);
      !o.Recorded? && StoreAfter(notes, o) == notes
  {
    assert git.shortHash(c).None?;
    if SessionRequest(s, p, git).Some? {
      var r := SessionRequest(s, p, git).value;
      var kept := Squashed(s.commits, p.newSha, git);
      FilterNames(s.commits, c => !git.Resolvable(c) || git.isAncestor(c, p.newSha));
      JoinSplit(r.children);
      UnresolvableChildBlocksRecording(notes, r, kept, c, ws, git, storeAccepts);
    }
    if SubsumedRequest(s, p, git).Some? {
      var r := SubsumedRequest(s, p, git).value;
      var gone := Subsumed(s.commits, p.newSha, git);
      FilterNames(s.commits, c => !git.Resolvable(c) || !git.isAncestor(c, p.newSha));
      JoinSplit(r.children);
      UnresolvableChildBlocksRecording(notes, r, gone, c, ws, git, storeAccepts);
    }
  }
}
