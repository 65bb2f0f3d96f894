/**
 * The git subcommands the core runs, each reduced to what the caller
 * observes of it. Nothing here is implemented: a value of Git fixes how the
 * repository answers, and every model that talks to git takes one.
 */
module Vcs {
  import opened Wrappers

  datatype Git = Git(
    /** `git rev-parse --short <ref>`, its output trimmed; None when it exits non-zero. */
    shortHash: string -> Option<string>,
    /** `git rev-parse <ref>`; None when it exits non-zero. */
    revParse: string -> Option<string>,
    /** `git merge-base --is-ancestor <a> <b>` exits zero. */
    isAncestor: (string, string) -> bool,
    /** `git merge-base <a> <b>`; None when it exits non-zero. */
    mergeBase: (string, string) -> Option<string>,
    /** The lines `git rev-list <a>..<b>` prints, newest commit first; none when it fails. */
    revList: (string, string) -> seq<string>)
  {
    /** `git rev-parse <ref>` succeeds. */
    predicate Resolvable(ref: string) {
      revParse(ref).Some?
    }

    /** `git rev-parse` and `git rev-parse --short` succeed on the same refs. */
    ghost predicate ResolvesAlike() {
      forall ref :: revParse(ref).Some? <==> shortHash(ref).Some?
    }

    /** `git rev-parse <ref>^`: the first parent. */
    function Parent(ref: string): Option<string> {
      revParse(ref + "^")
    }
  }
}
