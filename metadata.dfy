/**
 * The add-metadata recorder, `runAddMetadata` in cmd/git-squash-tree/main.go:
 * validate the three required flags, find the repository, skip the write
 * when the store already holds metadata for the root, canonicalise root,
 * base and every child with `git rev-parse --short`, and write the fact.
 * The notes store is a map held by a NotesStore object.
 */
module Metadata {
  import opened Wrappers
  import opened Text
  import opened Repo

  /** The value --strategy has when it is not given. */
  const DefaultStrategy := "auto"

  /** A recorded squash: the squash commit, its base and the commits folded into it, in the order given. */
  datatype SquashFact = SquashFact(root: string, base: string, children: seq<string>, strategy: string)

  /** The parsed flags of add-metadata; strategy is None when --strategy was not given. */
  datatype AddMetadataFlags = AddMetadataFlags(root: string, base: string, children: string, strategy: Option<string>)

  datatype AddError =
    | MissingFlags
    | NotARepository(walk: WalkError)
    | InvalidRoot
    | InvalidBase
    | InvalidChild(child: string)
    | NoChildren
    | WriteFailed

  datatype AddOutcome = Recorded(fact: SquashFact) | AlreadyRecorded | Failed(error: AddError)

  /** The process exit status: a failure exits 1, every other outcome returns normally. */
  function ExitCode(o: AddOutcome): int {
    if o.Failed? then 1 else 0
  }

  /**
   * A run exits 0 exactly when the flags are there, the repository is found
   * and either the root is already recorded or everything resolves and the
   * write is accepted; every other run exits 1.
   */
  lemma ExitCodeOfRun(notes: map<string, SquashFact>, flags: AddMetadataFlags, ws: Workspace,
                      shortHash: string -> Option<string>, storeAccepts: bool)
    ensures var code := ExitCode(AddMetadataOutcome(notes, flags, ws, shortHash, storeAccepts));
      && (code == 0 || code == 1)
      && (code == 0 <==>
            && HasRequiredFlags(flags) && Walk(ws).Ok?
            && (|| flags.root in notes
                || (&& shortHash(flags.root).Some? && shortHash(flags.base).Some?
                    && ChildRefs(flags.children) != []
                    && (forall i :: 0 <= i < |ChildRefs(flags.children)| ==> shortHash(ChildRefs(flags.children)[i]).Some?)
                    && storeAccepts)))
  {
  }

  /**
   * The store after an outcome: only Recorded writes, keyed by the canonical
   * root. The write is taken to overwrite a note already under that key.
   */
  function StoreAfter(notes: map<string, SquashFact>, o: AddOutcome): map<string, SquashFact> {
    if o.Recorded? then notes[o.fact.root := o.fact] else notes
  }

  /** Every fact is filed under its own root and folds at least one child. */
  ghost predicate WellKeyed(notes: map<string, SquashFact>) {
    forall k :: k in notes ==> notes[k].root == k && notes[k].children != []
  }

  /** The children flag as runAddMetadata reads it: split at commas, trimmed, empty entries dropped. */
  function ChildRefs(children: string): seq<string> {
    CleanRefs(Split(children))
  }

  /** A child ref is the trimmed form of a non-blank piece between the commas, and every such piece is one. */
  lemma ChildRefsMembers(children: string, x: string)
    ensures x in ChildRefs(children) <==>
      x != "" && exists i :: 0 <= i < |Split(children)| && TrimSpace(Split(children)[i]) == x
  {
    CleanRefsMembers(Split(children), x);
    if x in ChildRefs(children) {
      assert x in CleanRefs(Split(children));
      var i :| 0 <= i < |Split(children)| && TrimSpace(Split(children)[i]) == x;
      assert exists i :: 0 <= i < |Split(children)| && TrimSpace(Split(children)[i]) == x;
    }
  }

  /** Every required flag is non-empty. */
  predicate HasRequiredFlags(flags: AddMetadataFlags) {
    flags.root != "" && flags.base != "" && flags.children != ""
  }

  /**
   * What one add-metadata run decides, given the store, the flags, the
   * working directory, `git rev-parse --short` and whether the store accepts
   * the write. The existence check uses the root flag as given; the write is
   * keyed by its canonical form.
   */
  function AddMetadataOutcome(notes: map<string, SquashFact>, flags: AddMetadataFlags, ws: Workspace,
                              shortHash: string -> Option<string>, storeAccepts: bool): (o: AddOutcome)
    ensures o == Failed(MissingFlags) <==> !HasRequiredFlags(flags)
    ensures HasRequiredFlags(flags) && Walk(ws).Err? ==> o == Failed(NotARepository(Walk(ws).error))
    ensures o == AlreadyRecorded <==> HasRequiredFlags(flags) && Walk(ws).Ok? && flags.root in notes
    ensures o.Recorded? <==>
      && HasRequiredFlags(flags) && Walk(ws).Ok? && flags.root !in notes
      && shortHash(flags.root).Some? && shortHash(flags.base).Some?
      && ChildRefs(flags.children) != []
      && (forall i :: 0 <= i < |ChildRefs(flags.children)| ==> shortHash(ChildRefs(flags.children)[i]).Some?)
      && storeAccepts
    ensures o.Recorded? ==>
      && shortHash(flags.root) == Some(o.fact.root) && shortHash(flags.base) == Some(o.fact.base)
      && |o.fact.children| == |ChildRefs(flags.children)| >= 1
      && (forall i :: 0 <= i < |o.fact.children| ==> shortHash(ChildRefs(flags.children)[i]) == Some(o.fact.children[i]))
      && o.fact.strategy == flags.strategy.GetOr(DefaultStrategy)
  {
    if !HasRequiredFlags(flags) then Failed(MissingFlags)
    else match Walk(ws)
      case Err(e) => Failed(NotARepository(e))
      case Ok(_) =>
        if flags.root in notes then AlreadyRecorded
        else match shortHash(flags.root)
          case None => Failed(InvalidRoot)
          case Some(root) =>
            match shortHash(flags.base)
            case None => Failed(InvalidBase)
            case Some(base) =>
              match ResolvedRefs(Split(flags.children), shortHash)
              case Err(InvalidRef(c)) => Failed(InvalidChild(c))
              case Err(NoRefs) => Failed(NoChildren)
              case Ok(children) =>
                if !storeAccepts then Failed(WriteFailed)
                else Recorded(SquashFact(root, base, children, flags.strategy.GetOr(DefaultStrategy)))
  }

  /** A failed run names the first thing that went wrong, in the order the recorder checks. */
  lemma FailureCause(notes: map<string, SquashFact>, flags: AddMetadataFlags, ws: Workspace,
                     shortHash: string -> Option<string>, storeAccepts: bool)
    requires HasRequiredFlags(flags) && Walk(ws).Ok? && flags.root !in notes
    ensures var o := AddMetadataOutcome(notes, flags, ws, shortHash, storeAccepts);
      && (shortHash(flags.root).None? ==> o == Failed(InvalidRoot))
      && (shortHash(flags.root).Some? && shortHash(flags.base).None? ==> o == Failed(InvalidBase))
      && (shortHash(flags.root).Some? && shortHash(flags.base).Some? ==>
            && (ChildRefs(flags.children) == [] ==> o == Failed(NoChildren))
            && (forall i :: 0 <= i < |ChildRefs(flags.children)| && shortHash(ChildRefs(flags.children)[i]).None?
                              && (forall j :: 0 <= j < i ==> shortHash(ChildRefs(flags.children)[j]).Some?) ==>
                  o == Failed(InvalidChild(ChildRefs(flags.children)[i])))
            && (ChildRefs(flags.children) != [] && !storeAccepts
                && (forall i :: 0 <= i < |ChildRefs(flags.children)| ==> shortHash(ChildRefs(flags.children)[i]).Some?) ==>
                  o == Failed(WriteFailed))
            && (o.Failed? && o.error.InvalidChild? ==>
                  exists i :: 0 <= i < |ChildRefs(flags.children)| && ChildRefs(flags.children)[i] == o.error.child
                              && shortHash(o.error.child).None?))
  {
  }

  /** Nothing but a Recorded outcome touches the store, and it keeps the store well keyed. */
  lemma StoreAfterWellKeyed(notes: map<string, SquashFact>, flags: AddMetadataFlags, ws: Workspace,
                            shortHash: string -> Option<string>, storeAccepts: bool)
    requires WellKeyed(notes)
    ensures var o := AddMetadataOutcome(notes, flags, ws, shortHash, storeAccepts);
      && WellKeyed(StoreAfter(notes, o))
      && (!o.Recorded? ==> StoreAfter(notes, o) == notes)
      && (o.Recorded? ==> StoreAfter(notes, o).Keys == notes.Keys + {o.fact.root})
  {
  }

  /**
   * Running the same add-metadata twice leaves the store as the first run
   * left it: either the raw root is now a key and the second run is a
   * no-op, or it resolves to the same fact again.
   */
  lemma {:induction false} RecordTwiceIdempotent(notes: map<string, SquashFact>, flags: AddMetadataFlags, ws: Workspace,
                                                 shortHash: string -> Option<string>, storeAccepts: bool)
    ensures var once := StoreAfter(notes, AddMetadataOutcome(notes, flags, ws, shortHash, storeAccepts));
            StoreAfter(once, AddMetadataOutcome(once, flags, ws, shortHash, storeAccepts)) == once
  {
    var o1 := AddMetadataOutcome(notes, flags, ws, shortHash, storeAccepts);
    var once := StoreAfter(notes, o1);
    var o2 := AddMetadataOutcome(once, flags, ws, shortHash, storeAccepts);
    if o1.Recorded? && o2.Recorded? {
      assert flags.root !in notes;
      RecordedIsDetermined(notes, once, flags, ws, shortHash, storeAccepts);
      assert o2.fact == o1.fact;
      assert once[o1.fact.root] == o1.fact;
    }
  }

  /** A recorded fact depends only on the flags and git, not on the rest of the store. */
  lemma RecordedIsDetermined(n1: map<string, SquashFact>, n2: map<string, SquashFact>, flags: AddMetadataFlags, ws: Workspace,
                             shortHash: string -> Option<string>, storeAccepts: bool)
    requires AddMetadataOutcome(n1, flags, ws, shortHash, storeAccepts).Recorded?
    requires AddMetadataOutcome(n2, flags, ws, shortHash, storeAccepts).Recorded?
    ensures AddMetadataOutcome(n1, flags, ws, shortHash, storeAccepts) == AddMetadataOutcome(n2, flags, ws, shortHash, storeAccepts)
  {
  }

  /**
   * First write wins: once a fact is recorded for a root flag that is already
   * in canonical form, every later run with that root flag, whatever its base,
   * children or strategy, leaves the store unchanged.
   */
  lemma {:induction false} FirstWriteWins(notes: map<string, SquashFact>, first: AddMetadataFlags, later: AddMetadataFlags, ws: Workspace,
                                          shortHash: string -> Option<string>, storeAccepts: bool, laterAccepts: bool)
    requires AddMetadataOutcome(notes, first, ws, shortHash, storeAccepts).Recorded?
    requires shortHash(first.root) == Some(first.root)
    requires later.root == first.root
    ensures var once := StoreAfter(notes, AddMetadataOutcome(notes, first, ws, shortHash, storeAccepts));
            && AddMetadataOutcome(once, later, ws, shortHash, laterAccepts) in {AlreadyRecorded, Failed(MissingFlags)}
            && StoreAfter(once, AddMetadataOutcome(once, later, ws, shortHash, laterAccepts)) == once
  {
    var o1 := AddMetadataOutcome(notes, first, ws, shortHash, storeAccepts);
    assert o1.fact.root == first.root;
  }

  /**
   * The existence check reads the root flag as given while the write uses its
   * canonical form: a root spelled differently from its short hash passes the
   * check even when a fact is already filed under that hash, and replaces it.
   */
  lemma RawRootCheckCanReplace(notes: map<string, SquashFact>, flags: AddMetadataFlags, ws: Workspace,
                               shortHash: string -> Option<string>, storeAccepts: bool)
    requires AddMetadataOutcome(notes, flags, ws, shortHash, storeAccepts).Recorded?
    requires shortHash(flags.root).value in notes
    ensures flags.root != shortHash(flags.root).value
    ensures var after := StoreAfter(notes, AddMetadataOutcome(notes, flags, ws, shortHash, storeAccepts));
            after[shortHash(flags.root).value] == AddMetadataOutcome(notes, flags, ws, shortHash, storeAccepts).fact
  {
  }

  /** The notes store of a repository: commit-keyed squash facts. */
  class NotesStore {
    var notes: map<string, SquashFact>

    ghost predicate Valid()
      reads this
    {
      WellKeyed(notes)
    }

    constructor ()
      ensures Valid() && notes == map[]
    {
      notes := map[];
    }

    /** runAddMetadata: validate, check for existing metadata, canonicalise every ref, write once. */
    method AddMetadata(flags: AddMetadataFlags, ws: Workspace, shortHash: string -> Option<string>, storeAccepts: bool)
      returns (outcome: AddOutcome)
      requires Valid()
      modifies this
      ensures Valid()
      ensures outcome == AddMetadataOutcome(old(notes), flags, ws, shortHash, storeAccepts)
      ensures notes == StoreAfter(old(notes), outcome)
    {
      if flags.root == "" || flags.base == "" || flags.children == "" {
        return Failed(MissingFlags);
      }
      var repo := FindGitRepo(ws);
      if repo.Err? {
        return Failed(NotARepository(repo.error));
      }
      if flags.root in notes {
        return AlreadyRecorded;
      }
      var rootShort := shortHash(flags.root);
      if rootShort.None? {
        return Failed(InvalidRoot);
      }
      var baseShort := shortHash(flags.base);
      if baseShort.None? {
        return Failed(InvalidBase);
      }
      var children := ResolveRefs(Split(flags.children), shortHash);
      if children.Err? {
        match children.error
        case InvalidRef(c) => return Failed(InvalidChild(c));
        case NoRefs => return Failed(NoChildren);
      }
      if !storeAccepts {
        return Failed(WriteFailed);
      }
      var fact := SquashFact(rootShort.value, baseShort.value, children.value, flags.strategy.GetOr(DefaultStrategy));
      notes := notes[fact.root := fact];
      outcome := Recorded(fact);
    }
  }
}
