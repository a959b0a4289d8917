/** The dependency walk `run` and the outside world it works on: the files
    it opens and tests, the directories `git_checkout` clones into or
    updates, and the requirement files it hands to `pip3 install`. */
module Resolver {
  import opened Wrappers
  import opened Manifest
  import opened Paths
  import opened Walk

  /** The file system and the external commands, as the walk uses them.
      The contents of every manifest the walk may open, including those that
      a clone brings in, are fixed in advance in `readable`; the regular
      files it may test are `files`. `dirs` are the existing directories,
      `gitCalls` the `git_checkout` calls made and `installed` the files
      given to `pip3 install`, in order. */
  class Disk {
    const readable: map<string, seq<string>>
    const files: set<string>
    var dirs: set<string>
    var gitCalls: seq<GitCall>
    var installed: seq<string>

    constructor (readable: map<string, seq<string>>, files: set<string>, dirs: set<string>)
      ensures this.readable == readable && this.files == files && this.dirs == dirs
      ensures gitCalls == [] && installed == []
    {
      this.readable := readable;
      this.files := files;
      this.dirs := dirs;
      gitCalls := [];
      installed := [];
    }

    /** `open(path)`: the lines of the file, or nothing when opening fails. */
    method Open(path: string) returns (lines: Option<seq<string>>)
      ensures lines.Some? <==> path in readable
      ensures lines.Some? ==> lines.value == readable[path]
    {
      if path in readable {
        lines := Some(readable[path]);
      } else {
        lines := None;
      }
    }

    /** `os.path.isdir(path)`: whether `os.listdir(path)` succeeds. */
    predicate IsDir(path: string)
      reads this
    {
      path in dirs
    }

    /** `os.path.isfile(path)`. */
    predicate IsFile(path: string) {
      path in files
    }

    /** `git_checkout`: clones `url` at `branch` into the repository's
        directory under `depsCheckoutDir` when that directory does not exist,
        and updates it to `branch` otherwise; returns the directory. */
    method GitCheckout(depsCheckoutDir: string, reponame: string, url: string, branch: string)
      returns (checkoutDir: string)
      modifies this
      ensures checkoutDir == Join(depsCheckoutDir, reponame)
      ensures old(checkoutDir !in dirs) ==> gitCalls == old(gitCalls) + [Clone(url, branch, checkoutDir)]
      ensures old(checkoutDir in dirs) ==> gitCalls == old(gitCalls) + [Update(checkoutDir, branch)]
      ensures dirs == old(dirs) + {checkoutDir}
      ensures installed == old(installed)
    {
      checkoutDir := Join(depsCheckoutDir, reponame);
      if checkoutDir !in dirs {
        gitCalls := gitCalls + [Clone(url, branch, checkoutDir)];
        dirs := dirs + {checkoutDir};
      } else {
        gitCalls := gitCalls + [Update(checkoutDir, branch)];
      }
    }

    /** `os.makedirs(path)`: the directory exists afterwards. */
    method MakeDirs(path: string)
      modifies this
      ensures dirs == old(dirs) + {path}
      ensures gitCalls == old(gitCalls) && installed == old(installed)
    {
      dirs := dirs + {path};
    }

    /** `pip3 install --no-binary pycparser -Ur reqfilename`. */
    method PipInstall(reqfilename: string)
      modifies this
      ensures installed == old(installed) + [reqfilename]
      ensures dirs == old(dirs) && gitCalls == old(gitCalls)
    {
      installed := installed + [reqfilename];
    }
  }

  /** The loop of `run` over the entries `listing` of `depsCheckoutDir`:
      queues the manifest of each entry and collects its requirements file
      when it has one. */
  method ExamineCheckouts(fs: Disk, depsCheckoutDir: string, listing: seq<string>,
                          dependencies0: seq<string>, reqfilenames0: seq<string>)
    returns (dependencies: seq<string>, reqfilenames: seq<string>)
    ensures dependencies == dependencies0 + ManifestPaths(depsCheckoutDir, listing)
    ensures reqfilenames == reqfilenames0 + RequirementPaths(fs.files, depsCheckoutDir, listing)
  {
    dependencies, reqfilenames := dependencies0, reqfilenames0;
    var e := 0;
    while e < |listing|
      invariant 0 <= e <= |listing|
      invariant dependencies == dependencies0 + ManifestPaths(depsCheckoutDir, listing[..e])
      invariant reqfilenames == reqfilenames0 + RequirementPaths(fs.files, depsCheckoutDir, listing[..e])
    {
      assert listing[..e + 1][..e] == listing[..e];
      var repo := listing[e];
      var depfilename := Join(Join(depsCheckoutDir, repo), ManifestFile);
      dependencies := dependencies + [depfilename];
      var reqfilename := Join(Join(depsCheckoutDir, repo), RequirementsFile);
      if fs.IsFile(reqfilename) {
        reqfilenames := reqfilenames + [reqfilename];
      }
      e := e + 1;
    }
    assert listing[..e] == listing;
  }

  /** The loop of `run` over the records of one manifest: a record whose
      name was processed is skipped; otherwise it is checked out, its
      requirements file is collected when it exists, and its manifest is
      queued unless already on the worklist. The worklist only grows at its
      end. */
  method ProcessDeps(fs: Disk, depsCheckoutDir: string, deps: seq<Dep>,
                     processed0: set<string>, dependencies0: seq<string>, reqfilenames0: seq<string>)
    returns (processed: set<string>, dependencies: seq<string>, reqfilenames: seq<string>)
    modifies fs
    ensures WalkState(processed, dependencies, reqfilenames, fs.gitCalls, fs.dirs)
            == VisitAll(fs.files, depsCheckoutDir, WalkState(processed0, dependencies0, reqfilenames0, old(fs.gitCalls), old(fs.dirs)), deps)
    ensures dependencies0 <= dependencies
    ensures fs.installed == old(fs.installed)
  {
    ghost var start := WalkState(processed0, dependencies0, reqfilenames0, fs.gitCalls, fs.dirs);
    processed, dependencies, reqfilenames := processed0, dependencies0, reqfilenames0;
    var j := 0;
    while j < |deps|
      invariant 0 <= j <= |deps|
      invariant WalkState(processed, dependencies, reqfilenames, fs.gitCalls, fs.dirs)
                == VisitAll(fs.files, depsCheckoutDir, start, deps[..j])
      invariant dependencies0 <= dependencies
      invariant fs.installed == old(fs.installed)
    {
      var d := deps[j];
      assert deps[..j + 1][..j] == deps[..j];
      if d.name !in processed {
        processed := processed + {d.name};
        var checkoutDir := fs.GitCheckout(depsCheckoutDir, d.name, d.url, d.branch);
        var newDepFilename := Join(checkoutDir, ManifestFile);
        var reqfilename := Join(checkoutDir, RequirementsFile);
        if fs.IsFile(reqfilename) {
          reqfilenames := reqfilenames + [reqfilename];
        }
        if newDepFilename !in dependencies {
          dependencies := dependencies + [newDepFilename];
        }
      }
      j := j + 1;
    }
    assert deps[..j] == deps;
  }

  /** The records of the manifest `depfilename`, or none when it cannot be
      opened. */
  method ReadDepfile(fs: Disk, depfilename: string, depsDefaultBranch: string) returns (deps: seq<Dep>)
    ensures deps == Read(fs.readable, depsDefaultBranch, depfilename)
  {
    var lines := fs.Open(depfilename);
    if lines.Some? {
      deps := ParseDepfile(lines.value, DefaultOwner, depsDefaultBranch);
    } else {
      deps := [];
    }
  }

  /** The last loop of `run`: `pip3 install` of every requirements file, in
      order. */
  method InstallRequirements(fs: Disk, reqfilenames: seq<string>)
    modifies fs
    ensures fs.installed == old(fs.installed) + reqfilenames
    ensures fs.gitCalls == old(fs.gitCalls) && fs.dirs == old(fs.dirs)
  {
    var r := 0;
    while r < |reqfilenames|
      invariant 0 <= r <= |reqfilenames|
      invariant fs.installed == old(fs.installed) + reqfilenames[..r]
      invariant fs.gitCalls == old(fs.gitCalls) && fs.dirs == old(fs.dirs)
    {
      assert reqfilenames[..r + 1] == reqfilenames[..r] + [reqfilenames[r]];
      fs.PipInstall(reqfilenames[r]);
      r := r + 1;
    }
    assert reqfilenames[..r] == reqfilenames;
  }

  /** The loop of `run` over the worklist, from no name processed: reads
      each manifest on the worklist in turn, the worklist growing while the
      loop runs, and visits its records. The ghost result is the records
      met, in order. */
  method WalkDependencies(fs: Disk, depsCheckoutDir: string, depsDefaultBranch: string,
                          dependencies0: seq<string>, reqfilenames0: seq<string>)
    returns (dependencies: seq<string>, reqfilenames: seq<string>, ghost stream: seq<Dep>)
    modifies fs
    ensures stream == Stream(fs.readable, depsDefaultBranch, dependencies)
    ensures VisitAll(fs.files, depsCheckoutDir, WalkState({}, dependencies0, reqfilenames0, old(fs.gitCalls), old(fs.dirs)), stream)
            == WalkState(NamesOf(stream), dependencies, reqfilenames, fs.gitCalls, fs.dirs)
    ensures fs.installed == old(fs.installed)
    ensures ReadInOrder(fs.readable, depsDefaultBranch, depsCheckoutDir, dependencies0, dependencies)
  {
    var processed: set<string> := {};
    dependencies, reqfilenames := dependencies0, reqfilenames0;
    ghost var start := WalkState({}, dependencies0, reqfilenames0, fs.gitCalls, fs.dirs);
    ghost var bound := |dependencies0| + |AllNames(fs.readable, depsDefaultBranch)|;
    stream := [];
    var i := 0;
    while i < |dependencies|
      invariant 0 <= i <= |dependencies|
      invariant stream == Stream(fs.readable, depsDefaultBranch, dependencies[..i])
      invariant WalkState(processed, dependencies, reqfilenames, fs.gitCalls, fs.dirs)
                == VisitAll(fs.files, depsCheckoutDir, start, stream)
      invariant fs.installed == old(fs.installed)
      invariant ReadInOrder(fs.readable, depsDefaultBranch, depsCheckoutDir, dependencies0, dependencies[..i])
      decreases bound - i
    {
      WorklistBound(fs.readable, depsDefaultBranch, fs.files, depsCheckoutDir, start.dirs, start.calls,
                    dependencies0, reqfilenames0, dependencies[..i]);
      WalkQueued(fs.readable, depsDefaultBranch, fs.files, depsCheckoutDir, start.dirs, start.calls,
                 dependencies0, reqfilenames0, dependencies[..i]);
      ReadInOrderSnoc(fs.readable, depsDefaultBranch, depsCheckoutDir, dependencies0, dependencies[..i], dependencies[i]);
      var depfilename := dependencies[i];
      var deps := ReadDepfile(fs, depfilename, depsDefaultBranch);
      StreamSnoc(fs.readable, depsDefaultBranch, dependencies[..i], depfilename);
      SliceSnoc(dependencies, i);
      ghost var before := dependencies;
      processed, dependencies, reqfilenames := ProcessDeps(fs, depsCheckoutDir, deps, processed, dependencies, reqfilenames);
      PrefixSlice(before, dependencies, i + 1);
      VisitAllAppend(fs.files, depsCheckoutDir, start, stream, deps);
      stream := stream + deps;
      i := i + 1;
    }
    assert dependencies[..i] == dependencies;
    WalkOutcome(fs.files, depsCheckoutDir, start.dirs, start.calls, dependencies0, reqfilenames0, stream);
  }

  /** `run`: walks the manifests breadth first from the seed manifests and
      the checkouts already present (`listing`, what `os.listdir` gives for
      `depsCheckoutDir`), checks out each dependency name the first time it
      is met, queues the manifest of every checkout, and finally installs
      every requirements file found. When `depsCheckoutDir` is not a
      directory, `os.listdir` raises before anything is changed; `listed`
      tells whether it succeeded.

      The ghost results are the worklist as it stands at the end and the
      records checked out, in order. The worklist is a walk: reading it in
      order queues exactly it, and each manifest was queued before it was
      read, which by `WalkDetermined` leaves only one possible worklist.
      When the listing repeats no entry, no manifest is queued, nor read,
      twice. */
  method Run(fs: Disk, depsCheckoutDir: string, listing: seq<string>, depsDefaultBranch: string)
    returns (listed: bool, ghost worklist: seq<string>, ghost checkedOut: seq<Dep>)
    modifies fs
    ensures listed <==> depsCheckoutDir in old(fs.dirs)
    ensures !listed ==> fs.gitCalls == old(fs.gitCalls) && fs.dirs == old(fs.dirs) && fs.installed == old(fs.installed)
    ensures listed ==> checkedOut == FirstWins(Stream(fs.readable, depsDefaultBranch, worklist))
    ensures listed ==> IsWalk(fs.readable, depsDefaultBranch, depsCheckoutDir, InitialWorklist(depsCheckoutDir, listing), worklist)
    ensures listed && NoDuplicates(listing) ==> NoDuplicates(worklist)
    ensures listed ==> |worklist| <= |SeedManifests| + |listing| + |AllNames(fs.readable, depsDefaultBranch)|
    ensures listed ==> fs.gitCalls == old(fs.gitCalls) + Checkouts(depsCheckoutDir, checkedOut, old(fs.dirs))
    ensures listed ==> fs.dirs == old(fs.dirs) + CheckoutDirs(depsCheckoutDir, checkedOut)
    ensures listed ==> fs.installed == old(fs.installed) + InitialRequirements(fs.files, depsCheckoutDir, listing)
                                       + RequirementPaths(fs.files, depsCheckoutDir, NameList(checkedOut))
  {
    var dependencies := SeedManifests;
    var reqfilenames: seq<string> := [];
    if fs.IsFile(RequirementsFile) {
      reqfilenames := reqfilenames + [RequirementsFile];
    }
    worklist, checkedOut := [], [];
    listed := fs.IsDir(depsCheckoutDir);
    if !listed {
      return;
    }
    assert reqfilenames == (if RequirementsFile in fs.files then [RequirementsFile] else []);
    dependencies, reqfilenames := ExamineCheckouts(fs, depsCheckoutDir, listing, dependencies, reqfilenames);
    assert reqfilenames == InitialRequirements(fs.files, depsCheckoutDir, listing);
    ghost var seeds, seedReqs, calls0, dirs0 := dependencies, reqfilenames, fs.gitCalls, fs.dirs;
    ghost var stream;
    dependencies, reqfilenames, stream := WalkDependencies(fs, depsCheckoutDir, depsDefaultBranch, dependencies, reqfilenames);
    ghost var installed0 := fs.installed;
    InstallRequirements(fs, reqfilenames);

    worklist := dependencies;
    checkedOut := FirstWins(stream);
    WalkOutcome(fs.files, depsCheckoutDir, dirs0, calls0, seeds, seedReqs, stream);
    WorklistBound(fs.readable, depsDefaultBranch, fs.files, depsCheckoutDir, dirs0, calls0, seeds, seedReqs, worklist);
    AppendAssoc(installed0, seedReqs, RequirementPaths(fs.files, depsCheckoutDir, NameList(checkedOut)));
    if NoDuplicates(listing) {
      InitialNoDuplicates(depsCheckoutDir, listing);
      EnqueueFacts(seeds, ManifestPaths(depsCheckoutDir, NameList(checkedOut)));
    }
  }
}
