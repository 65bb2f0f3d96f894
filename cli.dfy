/**
 * The command surface of cmd/git-squash-tree/main.go: `main`'s dispatch on
 * the first argument, `runInit`'s choice between global and per-repository
 * installation, and `runShowTree`'s resolution of the commit to show.
 * Printing, exit calls and the installation itself are not modelled; their
 * outcomes are values.
 */
module Cli {
  import opened Wrappers
  import opened Repo

  /** What main does with os.Args (program name first). */
  datatype Command =
    | PrintUsage(exitCode: int)
    | RunInit(args: seq<string>)
    | RunAddMetadata(args: seq<string>)
    | RunShowTree(commitRef: string)

  /** The first arguments main handles itself; anything else names a commit. */
  const Subcommands: set<string> := {"init", "add-metadata", "help", "-h", "--help"}

  /** main: usage with exit status 1 without a subcommand, the three handlers, and the tree of any other first argument. */
  function Dispatch(argv: seq<string>): (c: Command)
    ensures c == PrintUsage(1) <==> |argv| < 2
    ensures c == PrintUsage(0) <==> |argv| >= 2 && argv[1] in {"help", "-h", "--help"}
    ensures c.PrintUsage? ==> c.exitCode in {0, 1}
    ensures c.RunInit? <==> |argv| >= 2 && argv[1] == "init"
    ensures c.RunAddMetadata? <==> |argv| >= 2 && argv[1] == "add-metadata"
    ensures c.RunInit? || c.RunAddMetadata? ==> c.args == argv[2..]
    ensures c.RunShowTree? <==> |argv| >= 2 && argv[1] !in Subcommands
    ensures c.RunShowTree? ==> c.commitRef == argv[1]
  {
    if |argv| < 2 then PrintUsage(1)
    else
      match argv[1]
      case "init" => RunInit(argv[2..])
      case "add-metadata" => RunAddMetadata(argv[2..])
      case "help" => PrintUsage(0)
      case "-h" => PrintUsage(0)
      case "--help" => PrintUsage(0)
      case sub => RunShowTree(sub)
  }

  /** Where init installs the hooks, or why it cannot. */
  datatype InitPlan = InstallGlobal | InstallInRepo(hooksDir: Path) | InitFailed(walk: WalkError)

  /**
   * runInit: any `--global` argument selects the global installation;
   * otherwise the hooks go to .git/hooks of the repository found upward.
   */
  method Init(args: seq<string>, ws: Workspace) returns (plan: InitPlan)
    ensures plan == InstallGlobal <==> "--global" in args
    ensures "--global" !in args && Walk(ws).Ok? ==> plan == InstallInRepo(Walk(ws).value + [".git", "hooks"])
    ensures "--global" !in args && Walk(ws).Err? ==> plan == InitFailed(Walk(ws).error)
  {
    var global := false;
    var i := 0;
    while i < |args|
      invariant 0 <= i <= |args|
      invariant "--global" !in args[..i]
    {
      if args[i] == "--global" {
        global := true;
        break;
      }
      i := i + 1;
    }
    if global {
      return InstallGlobal;
    }
    assert args[..i] == args;
    var repo := FindGitRepo(ws);
    if repo.Err? {
      return InitFailed(repo.error);
    }
    return InstallInRepo(repo.value + [".git", "hooks"]);
  }

  datatype ShowError = ShowNotARepository(walk: WalkError) | UnresolvedCommit(commitRef: string)

  /**
   * runShowTree up to the tree: find the repository, then canonicalise the
   * commit; the tree is built for the short hash returned.
   */
  method ShowTreeTarget(commitRef: string, ws: Workspace, shortHash: string -> Option<string>)
    returns (r: Result<string, ShowError>)
    ensures r.Ok? <==> Walk(ws).Ok? && shortHash(commitRef).Some?
    ensures r.Ok? ==> shortHash(commitRef) == Some(r.value)
    ensures Walk(ws).Err? ==> r == Err(ShowNotARepository(Walk(ws).error))
    ensures Walk(ws).Ok? && shortHash(commitRef).None? ==> r == Err(UnresolvedCommit(commitRef))
  {
    var repo := FindGitRepo(ws);
    if repo.Err? {
      return Err(ShowNotARepository(repo.error));
    }
    var hash := shortHash(commitRef);
    if hash.None? {
      return Err(UnresolvedCommit(commitRef));
    }
    return Ok(hash.value);
  }
}
