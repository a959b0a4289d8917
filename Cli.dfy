/** The command line of the script: how the argument count picks the
    checkout directory and the default branch before `run` starts. */
module Cli {
  import opened Wrappers
  import opened Paths
  import opened Manifest
  import opened Walk
  import opened Resolver

  /** The branch used when none is given on the command line. */
  const DefaultBranch: string := "12.0"

  /** What the script does once it has looked at its arguments: resolve the
      dependencies into `depsCheckoutDir` (creating that directory first when
      `create` holds), print the usage text and exit with `exitCode`, or stop
      on the `KeyError` of a missing `HOME` variable. */
  datatype Invocation =
    | Resolve(depsCheckoutDir: string, depsDefaultBranch: string, create: bool)
    | Usage(exitCode: int)
    | MissingHome

  /** The `__main__` block: `argv` is `sys.argv` (the program name first),
      `home` the value of `HOME` if it is set, and `existing` the paths
      that exist. Fewer than two arguments select the default directory and
      branch; more than two are a usage error; exactly two are used as given,
      the directory first. */
  function Dispatch(argv: seq<string>, home: Option<string>, existing: set<string>): (r: Invocation)
    ensures r.Usage? <==> |argv| > 3
    ensures r.Usage? ==> r.exitCode == 1
    ensures r.MissingHome? <==> |argv| < 3 && home.None?
    ensures |argv| == 3 ==> r.Resolve? && r.depsCheckoutDir == argv[1] && r.depsDefaultBranch == argv[2]
    ensures r.Resolve? && r.create ==> |argv| < 3 && r.depsCheckoutDir !in existing
    ensures |argv| < 3 && home.Some? ==>
      var dir := Join(home.value, "dependencies");
      r == Resolve(dir, DefaultBranch, dir !in existing)
  {
    if |argv| < 3 then
      if home.None? then MissingHome
      else
        var dir := Join(home.value, "dependencies");
        Resolve(dir, DefaultBranch, dir !in existing)
    else if |argv| > 3 then
      Usage(1)
    else
      Resolve(argv[1], argv[2], false)
  }

  /** A single argument is ignored: the script behaves as with none. */
  lemma OneArgumentIgnored(program: string, arg: string, home: Option<string>, existing: set<string>)
    ensures Dispatch([program, arg], home, existing) == Dispatch([program], home, existing)
    ensures home.Some? ==> Dispatch([program, arg], home, existing).depsCheckoutDir == Join(home.value, "dependencies")
  {
  }

  /** The exit status of the script when every external command succeeds,
      given the directories `dirs` that exist before it starts: 1 after the
      usage text, after the uncaught `KeyError`, and after the exception of
      `os.listdir` on a checkout directory that is not a directory (one that
      `create` makes is); 0 after `run`. */
  function ExitStatus(inv: Invocation, dirs: set<string>): int {
    match inv
    case Resolve(dir, _, create) => if create || dir in dirs then 0 else 1
    case Usage(code) => code
    case MissingHome => 1
  }

  /** The script fails exactly when it gets more than two arguments, when it
      gets fewer than two with `HOME` unset, when the directory given is not
      a directory, or when the default directory exists as something other
      than a directory. */
  lemma FailsExactly(argv: seq<string>, home: Option<string>, dirs: set<string>, files: set<string>)
    ensures ExitStatus(Dispatch(argv, home, dirs + files), dirs) != 0 <==>
      || |argv| > 3
      || (|argv| < 3 && home.None?)
      || (|argv| == 3 && argv[1] !in dirs)
      || (|argv| < 3 && home.Some? && Join(home.value, "dependencies") in files - dirs)
  {
  }

  /** The whole script: the dispatch, the `os.makedirs` of a missing default
      directory, and `run`. `dirs` and `files` of `fs` are the paths that
      exist; `listing` is what `os.listdir` gives for an existing directory,
      and a directory just created is empty. The script changes nothing when
      it fails. */
  method Launch(fs: Disk, argv: seq<string>, home: Option<string>, listing: seq<string>)
    returns (status: int, ghost worklist: seq<string>, ghost checkedOut: seq<Dep>)
    modifies fs
    ensures var inv := Dispatch(argv, home, old(fs.dirs) + fs.files);
      && status == ExitStatus(inv, old(fs.dirs))
      && (status != 0 ==> fs.dirs == old(fs.dirs) && fs.gitCalls == old(fs.gitCalls) && fs.installed == old(fs.installed))
      && (status == 0 ==> inv.Resolve?)
      && (status == 0 && inv.Resolve? ==>
            var dirs0 := if inv.create then old(fs.dirs) + {inv.depsCheckoutDir} else old(fs.dirs);
            var entries := if inv.create then [] else listing;
            && checkedOut == FirstWins(Stream(fs.readable, inv.depsDefaultBranch, worklist))
            && IsWalk(fs.readable, inv.depsDefaultBranch, inv.depsCheckoutDir, InitialWorklist(inv.depsCheckoutDir, entries), worklist)
            && (NoDuplicates(entries) ==> NoDuplicates(worklist))
            && fs.gitCalls == old(fs.gitCalls) + Checkouts(inv.depsCheckoutDir, checkedOut, dirs0)
            && fs.dirs == dirs0 + CheckoutDirs(inv.depsCheckoutDir, checkedOut)
            && fs.installed == old(fs.installed) + InitialRequirements(fs.files, inv.depsCheckoutDir, entries)
                               + RequirementPaths(fs.files, inv.depsCheckoutDir, NameList(checkedOut)))
  {
    var inv := Dispatch(argv, home, fs.dirs + fs.files);
    status := ExitStatus(inv, fs.dirs);
    worklist, checkedOut := [], [];
    if inv.Resolve? {
      var entries := listing;
      if inv.create {
        fs.MakeDirs(inv.depsCheckoutDir);
        entries := [];
      }
      var listed;
      listed, worklist, checkedOut := Run(fs, inv.depsCheckoutDir, entries, inv.depsDefaultBranch);
      status := if listed then 0 else 1;
    }
  }
}
