# clone_dependencies, modelled in Dafny

`container/tools/clone_dependencies.py` resolves a tree of repository
dependencies. It reads manifest files whose lines have the form
`name [url] [branch]`. It clones or updates each repository named in them
under a checkout directory, then reads the `oca_dependencies.txt` manifest
inside each checkout. It stops when the worklist of manifests is exhausted,
and finally runs `pip3 install` on every `requirements.txt` it found.

The project models four parts of that script:

- **the manifest parser `parse_depfile`**: `Manifest.ParseDepfile` is the
  loop, proved equal to the function `Manifest.ParseLines`. Python's
  `str.strip()` and `str.split()` are modelled in `Text`, with
  `str.isspace` as the whitespace test.
- **the worklist walk `run`**, in `Resolver`. The file system, git and pip
  are an oracle object `Resolver.Disk`:
  - the manifests that can be opened, with their lines;
  - the regular files;
  - the existing directories;
  - a log of the `git_checkout` calls;
  - a log of the `pip3 install` calls.

  `Run` is split into one method per loop of the source and proved to end
  in the state that the value-level functions of `Walk` describe:
  - the worklist is a walk (`Walk.IsWalk`): reading it in order queues
    exactly it, and each manifest on it was queued by the manifests read
    before it. `Walk.WalkDetermined` proves that only one worklist has
    both properties, so the one `Run` ends with is the one the loop builds
    from the seeds, and nothing unreachable from them is checked out;
  - the records checked out are `FirstWins` of the records met in worklist
    order;
  - the git calls are one clone-or-update per record checked out;
  - the files installed are the root requirements file, then those of the
    existing entries, then those of the checkouts;
  - when the checkout directory is not a directory, `os.listdir` raises and
    nothing is changed.
- **`git_checkout`**, only as an abstract operation (`Resolver.Disk.GitCheckout`):
  - it returns `join(dir, name)`;
  - it clones when that directory is missing and updates it otherwise;
  - afterwards the directory exists.
- **the argument dispatch of the `__main__` block** (`Cli.Dispatch`), and
  the script as a whole (`Cli.Launch`).

Paths are joined as `dir + "/" + name` (`Paths.Join`).

Strings follow Python 3: lines are sequences of Unicode characters, and
`strip()` and `split()` treat as whitespace exactly the characters for
which `str.isspace` holds (`Text.IsSpace`).

Behaviour of the code worth knowing:

- **One command-line argument.** With exactly one argument the code takes
  the defaults, because the test is `len(sys.argv) < 3`
  (`Cli.OneArgumentIgnored`).
- **Order of the two arguments.** The usage line of the docstring
  (clone_dependencies.py:8) names them `<default_branch> <dir>`. The code
  reads the directory from `sys.argv[1]` and the branch from `sys.argv[2]`,
  and the model follows the code.
- **A checkout directory that is not a directory.** `os.listdir` raises for
  a missing directory given on the command line, and for a default
  directory that exists as a file. The script then exits with status 1
  before any git call (`Cli.FailsExactly`).
- **Requirement files can repeat.** An entry of the checkout directory that
  a manifest also names has its `requirements.txt` collected twice: once by
  the loop over the directory and once after its checkout
  (`Walk.RequirementsRepeat`). A run over a tree that is fully checked out
  clones nothing (`Walk.NothingClonedWhenPresent`).
- **Entries without a manifest.** The loop over the checkout directory
  collects the `requirements.txt` of every entry, whether or not it has an
  `oca_dependencies.txt`.
- **The returned checkout path.** `git_checkout` returns
  `os.path.join(deps_checkout_dir, reponame)`, which is absolute only when
  the checkout directory is.

## Model

| member | source | states |
|---|---|---|
| Manifest.ParseDepfile | container/tools/clone_dependencies.py:37-54 | The loop builds exactly the records of the lines that yield one, in line order. `ParseLines` is the records of each line parsed on its own. |
| Manifest.ParseLineByTokens | container/tools/clone_dependencies.py:40-52 | A line yields nothing exactly when it has no whitespace token, or its first token starts with `#`. Otherwise the tokens give the record: the first is the name; the second is the URL, or `https://github.com/<owner>/<name>.git` when missing; the third is the branch, or the default branch when missing. |
| Manifest.NameIsFirstToken | container/tools/clone_dependencies.py:43-44 | A record's name is non-empty and has no whitespace. It begins the stripped line and is followed there by whitespace or by nothing. |
| Manifest.ExtraTokensIgnored | container/tools/clone_dependencies.py:43-53 | Two lines whose first three tokens agree give the same result, whatever tokens follow. |
| Manifest.IgnoredLine | container/tools/clone_dependencies.py:40-42 | A line that is blank after stripping, or whose stripped form starts with `#`, can be removed from any manifest without changing the records. |
| Manifest.ParseLinesBound | container/tools/clone_dependencies.py:38-54 | There are no more records than lines. |
| Manifest.ParseLinesAppend | container/tools/clone_dependencies.py:39-53 | The records of two runs of lines put together are those of the first run followed by those of the second. Lines are parsed independently and in order. |
| Manifest.ParsedFromLine | container/tools/clone_dependencies.py:39-53 | Every record is the result of some line of the manifest. |
| Manifest.LineIsParsed | container/tools/clone_dependencies.py:39-53 | The record of every line that yields one is among the results. |
| Manifest.ParseFormatLine | container/tools/clone_dependencies.py:43-53 | A record with three non-empty whitespace-free fields, whose name does not start with `#`, written as `name url branch`, parses back to itself. |
| Manifest.ParseNameAndUrl | container/tools/clone_dependencies.py:45-52 | A line `name url` gets the default branch. |
| Manifest.ParseNameOnly | container/tools/clone_dependencies.py:45-52 | A line holding only a name gets the default GitHub URL of the owner and the default branch. |
| Text.StripTrims | container/tools/clone_dependencies.py:40 | `strip()` gives the empty string exactly for an all-whitespace line. Otherwise it starts and ends with a non-whitespace character. |
| Text.StripPadding | container/tools/clone_dependencies.py:40 | The line is the stripped line with whitespace before and after it: `strip()` removes whitespace only. |
| Text.SplitTokens | container/tools/clone_dependencies.py:43 | Every token of `split()` is non-empty and free of whitespace. There are none exactly when the line is all whitespace. |
| Text.SplitKeepsText | container/tools/clone_dependencies.py:43 | The tokens, concatenated, are the line's non-whitespace characters in order: `split()` drops exactly the whitespace. |
| Text.SplitOfStrip | container/tools/clone_dependencies.py:40-43 | Splitting the stripped line gives the same tokens as splitting the raw line. |
| Text.FirstTokenStartsStrip | container/tools/clone_dependencies.py:40-44 | The first token of a line that is not all whitespace is a prefix of the stripped line, followed there by whitespace or by nothing. |
| Text.SplitCons | container/tools/clone_dependencies.py:43 | A whitespace-free word, any non-empty run of whitespace and a rest split into the word followed by the tokens of the rest. |
| Text.SplitAfterSpace | container/tools/clone_dependencies.py:43 | Whitespace in front of a string adds no token. |
| Text.SplitInterleave | container/tools/clone_dependencies.py:43 | Whitespace-free words, laid out with any whitespace before and after them and at least one whitespace character between neighbours, split back into exactly those words. So `split()` breaks at whitespace runs and nowhere else. |
| Paths.JoinInjective | container/tools/clone_dependencies.py:58 | Joining names under one directory gives equal paths exactly for equal names. |
| Resolver.Disk.Open | container/tools/clone_dependencies.py:155-159 | Opening a manifest succeeds exactly for the readable paths, and gives their lines. |
| Resolver.Disk.GitCheckout | container/tools/clone_dependencies.py:57-134 | Returns `join(depsCheckoutDir, reponame)`. It logs a clone of `url` at `branch` when that directory was missing, and an update to `branch` otherwise. Afterwards the directory exists; nothing is installed. |
| Resolver.Disk.MakeDirs | container/tools/clone_dependencies.py:183-184 | The directory exists afterwards; no git call and no installation. |
| Resolver.Disk.PipInstall | container/tools/clone_dependencies.py:173-175 | Appends the file to the installed log and changes nothing else. |
| Resolver.ExamineCheckouts | container/tools/clone_dependencies.py:147-153 | Queues the manifest of every entry of the checkout directory, in listing order. Collects the requirements file of each entry that has one. |
| Resolver.ProcessDeps | container/tools/clone_dependencies.py:160-171 | Ends in the state that `Walk.VisitAll` gives for the records of one manifest. The worklist only grows at its end, and nothing is installed. |
| Resolver.ReadDepfile | container/tools/clone_dependencies.py:155-159 | The records of a readable manifest. A manifest that cannot be opened gives no records instead of an error. |
| Resolver.InstallRequirements | container/tools/clone_dependencies.py:172-175 | Installs every collected requirements file once, in discovery order, after the walk. |
| Resolver.WalkDependencies | container/tools/clone_dependencies.py:154-171 | The loop over the growing worklist terminates; its measure is bounded by the seeds plus one manifest per declared name. It reads every manifest on the worklist in worklist order, each one after it was queued. Its state is that of the records met, visited one by one. |
| Resolver.Run | container/tools/clone_dependencies.py:137-175 | Fails, changing nothing, exactly when the checkout directory is not a directory (`os.listdir` at line 147). Otherwise the final worklist is a walk from the seeds and the listing, unique by `Walk.WalkDetermined`. When the listing repeats no entry, the final worklist repeats no path, so no manifest is read twice. The records checked out are the first record per name met while reading it in order. The worklist length is bounded by 3 + the listing + the declared names. There is one clone or update per checkout, clones going exactly to missing directories. Installations are the root requirements file, then those of the existing entries, then those of the checkouts. |
| Walk.VisitAllWalked | container/tools/clone_dependencies.py:160-171 | Visiting records one by one from an empty processed set checks out exactly `FirstWins` of them. The worklist, requirements, git calls and directories are then determined by those checkouts. |
| Walk.WalkOutcome | container/tools/clone_dependencies.py:154-171 | The final processed set is every name met. The worklist, requirements, git calls and directories are those of the first record per name. |
| Walk.WorklistBound | container/tools/clone_dependencies.py:138-171 | The worklist never exceeds the initial worklist plus one manifest per distinct name declared by a readable manifest. |
| Walk.FirstWinsNames | container/tools/clone_dependencies.py:160-165 | The records checked out cover every name met, each exactly once, and are no more than the records met. |
| Walk.FirstWinsKeepsFirst | container/tools/clone_dependencies.py:160-165 | The first record met with a given name is checked out. |
| Walk.FirstWinsOnlyFirst | container/tools/clone_dependencies.py:160-165 | Every record checked out is the first one met with its name. A later record with the same name, whatever its URL and branch, is skipped. |
| Walk.EnqueueFacts | container/tools/clone_dependencies.py:166-171 | Queueing keeps the worklist as a prefix and adds exactly the paths not yet present. It never adds a duplicate. |
| Walk.StreamNames | container/tools/clone_dependencies.py:154-160 | Every name the walk meets is declared by some readable manifest. |
| Walk.WalkBound | container/tools/clone_dependencies.py:160-171 | The number of checkouts is at most the number of distinct declared names. |
| Walk.InitialNoDuplicates | container/tools/clone_dependencies.py:138-152 | The worklist before the walk (the three seed manifests, then the manifest of each entry of the checkout directory) repeats no path when the listing repeats no entry. |
| Walk.ManifestPathInjective | container/tools/clone_dependencies.py:149 | Two entries of the checkout directory have the same manifest path exactly when they are the same entry. |
| Walk.QueuedPrefix | container/tools/clone_dependencies.py:166-171 | Reading fewer manifests queues a prefix of the worklist: the worklist only grows at its end. |
| Walk.WalkDetermined | container/tools/clone_dependencies.py:154-171 | Two worklists that both queue exactly themselves, each manifest queued before it is read, are equal. The walk's final worklist is thus determined by the manifests and the initial worklist. |
| Walk.UnreadableAddsNothing | container/tools/clone_dependencies.py:155-159 | A manifest that cannot be opened contributes no records and does not stop the walk. |
| Walk.OneCallPerDir | container/tools/clone_dependencies.py:161-165 | When the names are distinct, no two git calls work on the same directory: each name is checked out at most once. |
| Walk.CloneWhenMissing | container/tools/clone_dependencies.py:58-84 | A checkout is a clone exactly when its directory did not exist before the walk, and it works on `join(root, name)`. |
| Walk.NothingClonedWhenPresent | container/tools/clone_dependencies.py:59-84 | When every directory already exists, the walk clones nothing and only updates. |
| Walk.RequirementsRepeat | container/tools/clone_dependencies.py:147-169 | An entry of the checkout directory that is also checked out has its requirements file listed at least twice. |
| Cli.Dispatch | container/tools/clone_dependencies.py:180-190 | Usage and exit 1 exactly for more than two arguments. The missing-`HOME` failure happens exactly for fewer than two arguments with `HOME` unset. With `HOME` set, fewer than two arguments give `$HOME/dependencies`, branch `12.0`, and creation of that directory exactly when it does not exist. Two arguments are used as directory and branch, and nothing is created. |
| Cli.OneArgumentIgnored | container/tools/clone_dependencies.py:180-184 | A single argument is ignored: the result is the default directory under `HOME` and the default branch. |
| Cli.FailsExactly | container/tools/clone_dependencies.py:147-190 | The exit status is non-zero exactly in four cases: more than two arguments; fewer than two with `HOME` unset; two whose directory is not a directory; or fewer than two where `$HOME/dependencies` exists but is not a directory. |
| Cli.Launch | container/tools/clone_dependencies.py:178-191 | The exit status is that of `ExitStatus`, and a failing script changes nothing. Otherwise a missing default directory is created first (and listed as empty), and the resulting state is that of `Run`: a unique walk without repeated paths when the listing has none, its checkouts, git calls and installations. |

## Left out

- The git commands inside `git_checkout` (clone, config, fetch, reset, clean, checkout, merge) are reduced to one logged `Clone` or `Update` call each. Their arguments are not modelled beyond URL, branch and directory.
- A failing external command (`subprocess.check_call` raising) is not modelled: every git and pip call succeeds, so the model has no run that stops half-way.
- Logging (`logging.basicConfig`, `_logger.info`) has no behavioural content and is left out.
- `print(__doc__)` is represented only by the `Usage` outcome. The usage text itself is not modelled.
- The contents of every manifest, including those that a clone brings in, are fixed in `Disk.readable` before the walk starts. A clone does not create new files in the model.
- `os.listdir` is the parameter `listing` of `Run`, in the order the file system returns it, used only when the checkout directory exists as a directory. A directory the script has just created is taken to be empty. A directory that exists but cannot be listed, for lack of permission, is not modelled.
- `os.path.join` is `dir + "/" + name`. Its special cases, an absolute second component and a trailing separator in the first, are not modelled. `os.path.exists` is membership in the directories or files of the `Disk`. An empty first component is not modelled either: with `HOME` set to the empty string the script uses `dependencies`, and the model uses `/dependencies`.
- A failing `os.makedirs` (for example under a `HOME` that cannot be written) is not modelled: creating the default directory always succeeds.
- Dependency names are taken to contain no path separator. In the model a clone creates only `join(root, name)`; a real clone also creates the repository's subdirectories, so a later name such as `a/sub` could find its directory already present and be updated where the model clones.
- Python 2 semantics are not modelled. The script's first line runs whichever `python` is installed; under Python 2 lines are byte strings and only ASCII whitespace counts. The model follows Python 3.
- Lines are handled as Python's `str.strip()` and `str.split()` see them. The way a file object splits a file into lines, and text decoding, are not modelled.
- `Resolver.Run` is one method per loop of `run` (`ExamineCheckouts`, `WalkDependencies` with `ProcessDeps`, `InstallRequirements`) rather than one method body.
- Resolver.Disk.GitCheckout: the update branch is assumed to succeed for any existing directory, including one that is not a git repository.
