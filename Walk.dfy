/** What the dependency walk of `run` computes, stated on values: the
    manifests it reads in worklist order, the records it checks out (the
    first one per name), the worklist it builds, the git calls it makes and
    the requirement files it collects. `Resolver.Run` is proved to end in
    exactly this state. */
module Walk {
  import opened Manifest
  import opened Paths

  /** One call of `git_checkout`: a shallow clone of `url` at `branch` into
      `dir` when `dir` does not exist yet, or the update sequence (fetch,
      reset, clean, checkout, merge of `branch`) of the existing `dir`. */
  datatype GitCall =
    | Clone(url: string, branch: string, dir: string)
    | Update(dir: string, branch: string)
  {
    function Dir(): string {
      match this
      case Clone(_, _, dir) => dir
      case Update(dir, _) => dir
    }
  }

  /** The manifests looked for in the current directory, in this order. */
  const SeedManifests: seq<string> := ["modules_dependencies.txt", "oca_dependencies.txt", "a714_dependencies.txt"]
  /** The manifest looked for inside each checkout. */
  const ManifestFile: string := "oca_dependencies.txt"
  /** The requirements file, in the current directory and inside each checkout. */
  const RequirementsFile: string := "requirements.txt"

  function ManifestPath(root: string, name: string): string {
    Join(Join(root, name), ManifestFile)
  }

  function RequirementsPath(root: string, name: string): string {
    Join(Join(root, name), RequirementsFile)
  }

  /** The records of the manifest at `path`; a manifest that cannot be opened
      gives none. */
  function Read(readable: map<string, seq<string>>, branch: string, path: string): seq<Dep> {
    if path in readable then ParseLines(readable[path], DefaultOwner, branch) else []
  }

  /** The records of the manifests of `worklist`, read one after the other. */
  function Stream(readable: map<string, seq<string>>, branch: string, worklist: seq<string>): seq<Dep> {
    if worklist == [] then []
    else Stream(readable, branch, worklist[..|worklist| - 1]) + Read(readable, branch, worklist[|worklist| - 1])
  }

  function NamesOf(ds: seq<Dep>): set<string> {
    set d | d in ds :: d.name
  }

  predicate DistinctNames(ds: seq<Dep>) {
    forall i, j :: 0 <= i < j < |ds| ==> ds[i].name != ds[j].name
  }

  predicate NoDuplicates(w: seq<string>) {
    forall i, j :: 0 <= i < j < |w| ==> w[i] != w[j]
  }

  /** No record before the `k`th has its name. */
  predicate IsFirst(ds: seq<Dep>, k: nat)
    requires k < |ds|
  {
    forall j :: 0 <= j < k ==> ds[j].name != ds[k].name
  }

  /** The records of `ds` whose name was not seen before, in order: the ones
      the walk checks out, given the records in the order it meets them. */
  function FirstWins(ds: seq<Dep>): seq<Dep> {
    if ds == [] then []
    else
      var init, d := ds[..|ds| - 1], ds[|ds| - 1];
      FirstWins(init) + (if d.name in NamesOf(init) then [] else [d])
  }

  function NameList(ds: seq<Dep>): seq<string> {
    if ds == [] then [] else NameList(ds[..|ds| - 1]) + [ds[|ds| - 1].name]
  }

  function ManifestPaths(root: string, names: seq<string>): (r: seq<string>)
    ensures |r| == |names|
  {
    if names == [] then [] else ManifestPaths(root, names[..|names| - 1]) + [ManifestPath(root, names[|names| - 1])]
  }

  /** The requirements files of the checkouts `names` that exist, in order. */
  function RequirementPaths(files: set<string>, root: string, names: seq<string>): seq<string> {
    if names == [] then []
    else
      var path := RequirementsPath(root, names[|names| - 1]);
      RequirementPaths(files, root, names[..|names| - 1]) + (if path in files then [path] else [])
  }

  /** `path` appended to the worklist unless it is already there. */
  function AppendNew(w: seq<string>, path: string): seq<string> {
    if path in w then w else w + [path]
  }

  function Enqueue(w: seq<string>, paths: seq<string>): seq<string> {
    if paths == [] then w else AppendNew(Enqueue(w, paths[..|paths| - 1]), paths[|paths| - 1])
  }

  /** The git call for record `d` when the directories `dirs` exist. */
  function CheckoutCall(root: string, d: Dep, dirs: set<string>): GitCall {
    var dir := Join(root, d.name);
    if dir in dirs then Update(dir, d.branch) else Clone(d.url, d.branch, dir)
  }

  /** The git calls for the records `ds`, given the directories that existed
      before the walk. */
  function Checkouts(root: string, ds: seq<Dep>, dirs: set<string>): (r: seq<GitCall>)
    ensures |r| == |ds|
  {
    if ds == [] then [] else Checkouts(root, ds[..|ds| - 1], dirs) + [CheckoutCall(root, ds[|ds| - 1], dirs)]
  }

  function CheckoutDirs(root: string, ds: seq<Dep>): set<string> {
    set d | d in ds :: Join(root, d.name)
  }

  /** The worklist before the walk: the three seed manifests, then the
      manifest of every entry of the checkout directory. */
  function InitialWorklist(root: string, listing: seq<string>): seq<string> {
    SeedManifests + ManifestPaths(root, listing)
  }

  /** The requirement files before the walk: the one in the current
      directory, then those of the entries of the checkout directory. */
  function InitialRequirements(files: set<string>, root: string, listing: seq<string>): seq<string> {
    (if RequirementsFile in files then [RequirementsFile] else []) + RequirementPaths(files, root, listing)
  }

  /** Every name that some readable manifest declares. */
  ghost function AllNames(readable: map<string, seq<string>>, branch: string): set<string> {
    set p, d | p in readable && d in ParseLines(readable[p], DefaultOwner, branch) :: d.name
  }

  // ----- one step of the walk -----

  lemma NamesOfSnoc(ds: seq<Dep>, d: Dep)
    ensures NamesOf(ds + [d]) == NamesOf(ds) + {d.name}
  {
    assert forall e :: e in ds + [d] <==> e in ds || e == d;
  }

  lemma FirstWinsSnoc(ds: seq<Dep>, d: Dep)
    ensures FirstWins(ds + [d]) == FirstWins(ds) + (if d.name in NamesOf(ds) then [] else [d])
  {
    assert (ds + [d])[..|ds|] == ds;
  }

  /** What checking out one more record adds to each part of the state. */
  lemma CheckoutSnoc(files: set<string>, root: string, done: seq<Dep>, d: Dep, dirs: set<string>)
    ensures NameList(done + [d]) == NameList(done) + [d.name]
    ensures NamesOf(done + [d]) == NamesOf(done) + {d.name}
    ensures Checkouts(root, done + [d], dirs) == Checkouts(root, done, dirs) + [CheckoutCall(root, d, dirs)]
    ensures CheckoutDirs(root, done + [d]) == CheckoutDirs(root, done) + {Join(root, d.name)}
  {
    assert (done + [d])[..|done|] == done;
    NamesOfSnoc(done, d);
    assert forall e :: e in done + [d] <==> e in done || e == d;
  }

  lemma PathsSnoc(files: set<string>, root: string, names: seq<string>, n: string, w: seq<string>)
    ensures ManifestPaths(root, names + [n]) == ManifestPaths(root, names) + [ManifestPath(root, n)]
    ensures RequirementPaths(files, root, names + [n]) ==
            RequirementPaths(files, root, names) + (if RequirementsPath(root, n) in files then [RequirementsPath(root, n)] else [])
    ensures Enqueue(w, ManifestPaths(root, names + [n])) == AppendNew(Enqueue(w, ManifestPaths(root, names)), ManifestPath(root, n))
  {
    assert (names + [n])[..|names|] == names;
    var ps := ManifestPaths(root, names + [n]);
    assert ps[..|ps| - 1] == ManifestPaths(root, names);
  }

  /** A record whose name has not been checked out finds its directory as it
      was before the walk. */
  lemma CallUnaffected(root: string, d: Dep, dirs: set<string>, done: seq<Dep>)
    requires d.name !in NamesOf(done)
    ensures CheckoutCall(root, d, dirs + CheckoutDirs(root, done)) == CheckoutCall(root, d, dirs)
  {
    forall e | e in done
      ensures Join(root, e.name) != Join(root, d.name)
    {
      JoinInjective(root, e.name, d.name);
      assert e.name in NamesOf(done);
    }
  }

  /** The state of the walk once it has met the records `stream`, starting
      from the worklist `seeds`, the requirement files `seedReqs`, the git
      calls `calls0` and the directories `dirs0`: the records checked out
      are the first per name, the worklist holds the seeds followed by the
      manifest of each checkout (when new), the requirement files those of
      the checkouts that have one, and each checkout made one git call and
      created its directory. */
  ghost predicate Walked(files: set<string>, root: string, dirs0: set<string>, calls0: seq<GitCall>,
                         seeds: seq<string>, seedReqs: seq<string>, stream: seq<Dep>,
                         done: seq<Dep>, processed: set<string>, dependencies: seq<string>,
                         reqfilenames: seq<string>, calls: seq<GitCall>, dirs: set<string>)
  {
    && done == FirstWins(stream)
    && processed == NamesOf(stream) == NamesOf(done)
    && DistinctNames(done)
    && dependencies == Enqueue(seeds, ManifestPaths(root, NameList(done)))
    && |dependencies| <= |seeds| + |done|
    && reqfilenames == seedReqs + RequirementPaths(files, root, NameList(done))
    && calls == calls0 + Checkouts(root, done, dirs0)
    && dirs == dirs0 + CheckoutDirs(root, done)
  }

  /** A record whose name was met before changes nothing but the stream. */
  lemma WalkSkip(files: set<string>, root: string, dirs0: set<string>, calls0: seq<GitCall>,
                 seeds: seq<string>, seedReqs: seq<string>, stream: seq<Dep>,
                 done: seq<Dep>, processed: set<string>, dependencies: seq<string>,
                 reqfilenames: seq<string>, calls: seq<GitCall>, dirs: set<string>, d: Dep)
    requires Walked(files, root, dirs0, calls0, seeds, seedReqs, stream, done, processed, dependencies, reqfilenames, calls, dirs)
    requires d.name in processed
    ensures Walked(files, root, dirs0, calls0, seeds, seedReqs, stream + [d], done, processed, dependencies, reqfilenames, calls, dirs)
  {
    FirstWinsSnoc(stream, d);
    NamesOfSnoc(stream, d);
  }

  lemma SliceSnoc<T>(s: seq<T>, i: nat)
    requires i < |s|
    ensures s[..i + 1] == s[..i] + [s[i]]
  {
  }

  lemma PrefixSlice<T>(a: seq<T>, b: seq<T>, n: nat)
    requires a <= b && n <= |a|
    ensures a[..n] == b[..n]
  {
  }

  lemma AppendAssoc<T>(a: seq<T>, b: seq<T>, c: seq<T>)
    ensures (a + b) + c == a + (b + c)
  {
  }

  /** A record with a new name is checked out: its git call is made on the
      directories as they stand, its directory exists afterwards, its
      manifest joins the worklist unless already there, and its
      requirements file, when it has one, joins the requirement files. */
  lemma WalkTake(files: set<string>, root: string, dirs0: set<string>, calls0: seq<GitCall>,
                 seeds: seq<string>, seedReqs: seq<string>, stream: seq<Dep>,
                 done: seq<Dep>, processed: set<string>, dependencies: seq<string>,
                 reqfilenames: seq<string>, calls: seq<GitCall>, dirs: set<string>, d: Dep)
    requires Walked(files, root, dirs0, calls0, seeds, seedReqs, stream, done, processed, dependencies, reqfilenames, calls, dirs)
    requires d.name !in processed
    ensures Walked(files, root, dirs0, calls0, seeds, seedReqs, stream + [d], done + [d], processed + {d.name},
                   AppendNew(dependencies, ManifestPath(root, d.name)),
                   reqfilenames + (if RequirementsPath(root, d.name) in files then [RequirementsPath(root, d.name)] else []),
                   calls + [CheckoutCall(root, d, dirs)], dirs + {Join(root, d.name)})
  {
    TakeNames(stream, done, processed, d);
    TakeWorklist(files, root, seeds, seedReqs, done, dependencies, reqfilenames, d);
    TakeCheckout(root, dirs0, calls0, done, calls, dirs, d);
  }

  lemma TakeNames(stream: seq<Dep>, done: seq<Dep>, processed: set<string>, d: Dep)
    requires done == FirstWins(stream) && processed == NamesOf(stream) == NamesOf(done)
    requires DistinctNames(done) && d.name !in processed
    ensures done + [d] == FirstWins(stream + [d])
    ensures processed + {d.name} == NamesOf(stream + [d]) == NamesOf(done + [d])
    ensures DistinctNames(done + [d])
  {
    FirstWinsSnoc(stream, d);
    NamesOfSnoc(stream, d);
    NamesOfSnoc(done, d);
    forall k | 0 <= k < |done|
      ensures done[k].name != d.name
    {
      assert done[k] in done;
    }
  }

  lemma TakeWorklist(files: set<string>, root: string, seeds: seq<string>, seedReqs: seq<string>,
                     done: seq<Dep>, dependencies: seq<string>, reqfilenames: seq<string>, d: Dep)
    requires dependencies == Enqueue(seeds, ManifestPaths(root, NameList(done)))
    requires |dependencies| <= |seeds| + |done|
    requires reqfilenames == seedReqs + RequirementPaths(files, root, NameList(done))
    ensures AppendNew(dependencies, ManifestPath(root, d.name)) == Enqueue(seeds, ManifestPaths(root, NameList(done + [d])))
    ensures |AppendNew(dependencies, ManifestPath(root, d.name))| <= |seeds| + |done + [d]|
    ensures reqfilenames + (if RequirementsPath(root, d.name) in files then [RequirementsPath(root, d.name)] else [])
            == seedReqs + RequirementPaths(files, root, NameList(done + [d]))
  {
    var path := RequirementsPath(root, d.name);
    var extra := if path in files then [path] else [];
    var before := RequirementPaths(files, root, NameList(done));
    CheckoutSnoc(files, root, done, d, {});
    PathsSnoc(files, root, NameList(done), d.name, seeds);
    assert RequirementPaths(files, root, NameList(done + [d])) == before + extra;
    AppendAssoc(seedReqs, before, extra);
  }

  lemma TakeCheckout(root: string, dirs0: set<string>, calls0: seq<GitCall>, done: seq<Dep>,
                     calls: seq<GitCall>, dirs: set<string>, d: Dep)
    requires d.name !in NamesOf(done)
    requires calls == calls0 + Checkouts(root, done, dirs0)
    requires dirs == dirs0 + CheckoutDirs(root, done)
    ensures calls + [CheckoutCall(root, d, dirs)] == calls0 + Checkouts(root, done + [d], dirs0)
    ensures dirs + {Join(root, d.name)} == dirs0 + CheckoutDirs(root, done + [d])
  {
    var before := Checkouts(root, done, dirs0);
    CheckoutSnoc({}, root, done, d, dirs0);
    CallUnaffected(root, d, dirs0, done);
    assert CheckoutCall(root, d, dirs) == CheckoutCall(root, d, dirs0);
    AppendAssoc(calls0, before, [CheckoutCall(root, d, dirs0)]);
  }

  /** What the walk keeps between two records: the names processed, the
      worklist, the requirement files, the git calls made and the existing
      directories. */
  datatype WalkState = WalkState(processed: set<string>, dependencies: seq<string>,
                                 reqfilenames: seq<string>, calls: seq<GitCall>, dirs: set<string>)

  /** One record of the inner loop of `run`: skipped when its name was
      processed, otherwise checked out, its requirements file collected when
      it exists and its manifest queued unless already on the worklist. */
  function Visit(files: set<string>, root: string, st: WalkState, d: Dep): WalkState {
    if d.name in st.processed then st
    else
      WalkState(st.processed + {d.name},
                AppendNew(st.dependencies, ManifestPath(root, d.name)),
                st.reqfilenames + (if RequirementsPath(root, d.name) in files then [RequirementsPath(root, d.name)] else []),
                st.calls + [CheckoutCall(root, d, st.dirs)],
                st.dirs + {Join(root, d.name)})
  }

  /** The state after visiting the records `ds` in order. */
  function VisitAll(files: set<string>, root: string, st: WalkState, ds: seq<Dep>): WalkState {
    if ds == [] then st else Visit(files, root, VisitAll(files, root, st, ds[..|ds| - 1]), ds[|ds| - 1])
  }

  /** Visiting two runs of records one after the other is visiting them
      together. */
  lemma {:induction false} VisitAllAppend(files: set<string>, root: string, st: WalkState, a: seq<Dep>, b: seq<Dep>)
    ensures VisitAll(files, root, st, a + b) == VisitAll(files, root, VisitAll(files, root, st, a), b)
    decreases |b|
  {
    if b == [] {
      assert a + b == a;
    } else {
      var init := b[..|b| - 1];
      assert (a + b)[..|a + b| - 1] == a + init;
      assert (a + b)[|a + b| - 1] == b[|b| - 1];
      VisitAllAppend(files, root, st, a, init);
    }
  }

  /** Visiting records one at a time from the start state of the walk is
      the same as checking out the first record per name: the state is
      described by `Walked` with the records `FirstWins(stream)`. */
  lemma {:induction false} VisitAllWalked(files: set<string>, root: string, dirs0: set<string>, calls0: seq<GitCall>,
                                          seeds: seq<string>, seedReqs: seq<string>, stream: seq<Dep>)
    ensures var st := VisitAll(files, root, WalkState({}, seeds, seedReqs, calls0, dirs0), stream);
      Walked(files, root, dirs0, calls0, seeds, seedReqs, stream, FirstWins(stream),
             st.processed, st.dependencies, st.reqfilenames, st.calls, st.dirs)
    decreases |stream|
  {
    var st0 := WalkState({}, seeds, seedReqs, calls0, dirs0);
    if stream == [] {
      EnqueueFacts(seeds, []);
    } else {
      var init, d := stream[..|stream| - 1], stream[|stream| - 1];
      assert stream == init + [d];
      VisitAllWalked(files, root, dirs0, calls0, seeds, seedReqs, init);
      var st := VisitAll(files, root, st0, init);
      FirstWinsSnoc(init, d);
      if d.name in st.processed {
        WalkSkip(files, root, dirs0, calls0, seeds, seedReqs, init, FirstWins(init),
                 st.processed, st.dependencies, st.reqfilenames, st.calls, st.dirs, d);
      } else {
        WalkTake(files, root, dirs0, calls0, seeds, seedReqs, init, FirstWins(init),
                 st.processed, st.dependencies, st.reqfilenames, st.calls, st.dirs, d);
      }
    }
  }

  /** The worklist never holds more than the seeds and one manifest per
      declared name. */
  lemma WorklistBound(readable: map<string, seq<string>>, branch: string, files: set<string>, root: string,
                      dirs0: set<string>, calls0: seq<GitCall>, seeds: seq<string>, seedReqs: seq<string>, w: seq<string>)
    ensures |VisitAll(files, root, WalkState({}, seeds, seedReqs, calls0, dirs0), Stream(readable, branch, w)).dependencies|
            <= |seeds| + |AllNames(readable, branch)|
  {
    var stream := Stream(readable, branch, w);
    VisitAllWalked(files, root, dirs0, calls0, seeds, seedReqs, stream);
    WalkBound(readable, branch, w, FirstWins(stream));
  }

  /** The state the walk ends in, in terms of the records it checks out. */
  lemma WalkOutcome(files: set<string>, root: string, dirs0: set<string>, calls0: seq<GitCall>,
                    seeds: seq<string>, seedReqs: seq<string>, stream: seq<Dep>)
    ensures var st := VisitAll(files, root, WalkState({}, seeds, seedReqs, calls0, dirs0), stream);
      var done := FirstWins(stream);
      && st.processed == NamesOf(stream)
      && st.dependencies == Enqueue(seeds, ManifestPaths(root, NameList(done)))
      && st.reqfilenames == seedReqs + RequirementPaths(files, root, NameList(done))
      && st.calls == calls0 + Checkouts(root, done, dirs0)
      && st.dirs == dirs0 + CheckoutDirs(root, done)
  {
    VisitAllWalked(files, root, dirs0, calls0, seeds, seedReqs, stream);
  }

  // ----- the walk is determined -----

  /** The worklist that reading the manifests `w` in order builds from
      `initial`: the manifest of every record checked out is appended
      unless already present. */
  function Queued(readable: map<string, seq<string>>, branch: string, root: string,
                  initial: seq<string>, w: seq<string>): seq<string> {
    Enqueue(initial, ManifestPaths(root, NameList(FirstWins(Stream(readable, branch, w)))))
  }

  /** The worklist after reading the manifests `w` is the one they queue. */
  lemma WalkQueued(readable: map<string, seq<string>>, branch: string, files: set<string>, root: string,
                   dirs0: set<string>, calls0: seq<GitCall>, seeds: seq<string>, seedReqs: seq<string>, w: seq<string>)
    ensures VisitAll(files, root, WalkState({}, seeds, seedReqs, calls0, dirs0), Stream(readable, branch, w)).dependencies
            == Queued(readable, branch, root, seeds, w)
  {
    WalkOutcome(files, root, dirs0, calls0, seeds, seedReqs, Stream(readable, branch, w));
  }

  /** Every manifest on `w` was queued before it was read: the `k`th one is
      on the worklist that reading the first `k` builds. */
  ghost predicate ReadInOrder(readable: map<string, seq<string>>, branch: string, root: string,
                              initial: seq<string>, w: seq<string>) {
    forall k :: 0 <= k < |w| ==> k < |Queued(readable, branch, root, initial, w[..k])|
  }

  /** A worklist the loop of `run` can end with: reading it in order queues
      exactly it, and each manifest was queued before it was read. */
  ghost predicate IsWalk(readable: map<string, seq<string>>, branch: string, root: string,
                         initial: seq<string>, w: seq<string>) {
    w == Queued(readable, branch, root, initial, w) && ReadInOrder(readable, branch, root, initial, w)
  }

  /** Reading one more manifest that was already queued keeps the order. */
  lemma ReadInOrderSnoc(readable: map<string, seq<string>>, branch: string, root: string,
                        initial: seq<string>, w: seq<string>, path: string)
    requires ReadInOrder(readable, branch, root, initial, w)
    requires |w| < |Queued(readable, branch, root, initial, w)|
    ensures ReadInOrder(readable, branch, root, initial, w + [path])
  {
    forall k | 0 <= k < |w| + 1
      ensures k < |Queued(readable, branch, root, initial, (w + [path])[..k])|
    {
      assert (w + [path])[..k] == w[..k];
    }
  }

  lemma {:induction false} StreamPrefix(readable: map<string, seq<string>>, branch: string, w: seq<string>, k: nat)
    requires k <= |w|
    ensures Stream(readable, branch, w[..k]) <= Stream(readable, branch, w)
    decreases |w|
  {
    if k < |w| {
      var init := w[..|w| - 1];
      assert w[..k] == init[..k];
      StreamPrefix(readable, branch, init, k);
    } else {
      assert w[..k] == w;
    }
  }

  lemma {:induction false} FirstWinsPrefix(a: seq<Dep>, b: seq<Dep>)
    requires a <= b
    ensures FirstWins(a) <= FirstWins(b)
    decreases |b|
  {
    if |a| < |b| {
      var init := b[..|b| - 1];
      assert a <= init;
      FirstWinsPrefix(a, init);
    } else {
      assert a == b;
    }
  }

  lemma {:induction false} NameListPrefix(a: seq<Dep>, b: seq<Dep>)
    requires a <= b
    ensures NameList(a) <= NameList(b)
    decreases |b|
  {
    if |a| < |b| {
      var init := b[..|b| - 1];
      assert a <= init;
      NameListPrefix(a, init);
    } else {
      assert a == b;
    }
  }

  lemma {:induction false} ManifestPathsPrefix(root: string, a: seq<string>, b: seq<string>)
    requires a <= b
    ensures ManifestPaths(root, a) <= ManifestPaths(root, b)
    decreases |b|
  {
    if |a| < |b| {
      var init := b[..|b| - 1];
      assert a <= init;
      ManifestPathsPrefix(root, a, init);
    } else {
      assert a == b;
    }
  }

  lemma {:induction false} EnqueuePrefix(w: seq<string>, a: seq<string>, b: seq<string>)
    requires a <= b
    ensures Enqueue(w, a) <= Enqueue(w, b)
    decreases |b|
  {
    if |a| < |b| {
      var init := b[..|b| - 1];
      assert a <= init;
      EnqueuePrefix(w, a, init);
    } else {
      assert a == b;
    }
  }

  /** Reading fewer manifests queues a prefix of the worklist. */
  lemma QueuedPrefix(readable: map<string, seq<string>>, branch: string, root: string,
                     initial: seq<string>, w: seq<string>, k: nat)
    requires k <= |w|
    ensures Queued(readable, branch, root, initial, w[..k]) <= Queued(readable, branch, root, initial, w)
  {
    var sa, sb := Stream(readable, branch, w[..k]), Stream(readable, branch, w);
    StreamPrefix(readable, branch, w, k);
    FirstWinsPrefix(sa, sb);
    NameListPrefix(FirstWins(sa), FirstWins(sb));
    ManifestPathsPrefix(root, NameList(FirstWins(sa)), NameList(FirstWins(sb)));
    EnqueuePrefix(initial, ManifestPaths(root, NameList(FirstWins(sa))), ManifestPaths(root, NameList(FirstWins(sb))));
  }

  /** Two sequences that agree on their first `j` elements and both extend
      a sequence longer than `j` agree on their first `j + 1`. */
  lemma CommonPrefixStep(u: seq<string>, a: seq<string>, b: seq<string>, j: nat)
    requires j < |u| && u <= a && u <= b
    requires j <= |a| && j <= |b| && a[..j] == b[..j]
    ensures j < |a| && j < |b| && a[..j + 1] == b[..j + 1]
  {
    assert a[j] == u[j] == b[j];
    assert a[..j + 1] == a[..j] + [a[j]];
    assert b[..j + 1] == b[..j] + [b[j]];
  }

  /** The first `k` manifests of a walk are the first `k` of any worklist
      that reading queues exactly. */
  lemma {:induction false} WalkPrefix(readable: map<string, seq<string>>, branch: string, root: string,
                                      initial: seq<string>, w1: seq<string>, w2: seq<string>, k: nat)
    requires IsWalk(readable, branch, root, initial, w1)
    requires w2 == Queued(readable, branch, root, initial, w2)
    requires k <= |w1|
    ensures k <= |w2| && w1[..k] == w2[..k]
    decreases k
  {
    if k > 0 {
      var j := k - 1;
      WalkPrefix(readable, branch, root, initial, w1, w2, j);
      var u := Queued(readable, branch, root, initial, w1[..j]);
      assert j < |u|;
      QueuedPrefix(readable, branch, root, initial, w1, j);
      QueuedPrefix(readable, branch, root, initial, w2, j);
      CommonPrefixStep(u, w1, w2, j);
    }
  }

  /** The walk's final worklist is determined by the manifests and the
      initial worklist: two worklists that both are walks are equal. */
  lemma WalkDetermined(readable: map<string, seq<string>>, branch: string, root: string,
                       initial: seq<string>, w1: seq<string>, w2: seq<string>)
    requires IsWalk(readable, branch, root, initial, w1)
    requires IsWalk(readable, branch, root, initial, w2)
    ensures w1 == w2
  {
    WalkPrefix(readable, branch, root, initial, w1, w2, |w1|);
    WalkPrefix(readable, branch, root, initial, w2, w1, |w2|);
    assert w1 == w1[..|w1|] && w2 == w2[..|w2|];
  }

  // ----- first one wins -----

  /** The records kept carry every name met, each exactly once, and there are
      no more of them than records met. */
  lemma {:induction false} FirstWinsNames(ds: seq<Dep>)
    ensures NamesOf(FirstWins(ds)) == NamesOf(ds)
    ensures DistinctNames(FirstWins(ds))
    ensures |FirstWins(ds)| <= |ds|
    decreases |ds|
  {
    if ds != [] {
      var init, d := ds[..|ds| - 1], ds[|ds| - 1];
      assert ds == init + [d];
      FirstWinsNames(init);
      NamesOfSnoc(init, d);
      var kept := FirstWins(init);
      if d.name !in NamesOf(init) {
        NamesOfSnoc(kept, d);
        forall i | 0 <= i < |kept|
          ensures kept[i].name != d.name
        {
          assert kept[i] in kept;
        }
      }
    }
  }

  /** The first record met with a given name is kept. */
  lemma {:induction false} FirstWinsKeepsFirst(ds: seq<Dep>, k: nat)
    requires k < |ds| && IsFirst(ds, k)
    ensures ds[k] in FirstWins(ds)
    decreases |ds|
  {
    var init, d := ds[..|ds| - 1], ds[|ds| - 1];
    if k == |ds| - 1 {
      forall e | e in init
        ensures e.name != d.name
      {
        var j :| 0 <= j < |init| && init[j] == e;
        assert ds[j] == e;
      }
    } else {
      assert init[k] == ds[k];
      assert IsFirst(init, k) by {
        forall j | 0 <= j < k
          ensures init[j].name != init[k].name
        {
          assert init[j] == ds[j];
        }
      }
      FirstWinsKeepsFirst(init, k);
    }
  }

  /** Every record kept is the first one met with its name: a later record
      with the same name, whatever its URL and branch, is never kept. */
  lemma {:induction false} FirstWinsOnlyFirst(ds: seq<Dep>, e: Dep)
    requires e in FirstWins(ds)
    ensures exists k :: 0 <= k < |ds| && IsFirst(ds, k) && ds[k] == e
    decreases |ds|
  {
    var init, d := ds[..|ds| - 1], ds[|ds| - 1];
    if e in FirstWins(init) {
      FirstWinsOnlyFirst(init, e);
      var k :| 0 <= k < |init| && IsFirst(init, k) && init[k] == e;
      assert ds[k] == e;
      assert IsFirst(ds, k) by {
        forall j | 0 <= j < k
          ensures ds[j].name != ds[k].name
        {
          assert ds[j] == init[j];
        }
      }
    } else {
      assert e == d && d.name !in NamesOf(init);
      var k := |ds| - 1;
      forall j | 0 <= j < k
        ensures ds[j].name != ds[k].name
      {
        assert ds[j] == init[j] && init[j] in init;
      }
    }
  }

  // ----- the worklist -----

  /** Enqueueing keeps the worklist in front, adds each path not yet present
      once and nothing else, so it adds no duplicate. */
  lemma {:induction false} EnqueueFacts(w: seq<string>, paths: seq<string>)
    ensures w <= Enqueue(w, paths)
    ensures |Enqueue(w, paths)| <= |w| + |paths|
    ensures forall p :: p in Enqueue(w, paths) <==> p in w || p in paths
    ensures NoDuplicates(w) ==> NoDuplicates(Enqueue(w, paths))
    decreases |paths|
  {
    if paths != [] {
      var init, p := paths[..|paths| - 1], paths[|paths| - 1];
      assert paths == init + [p];
      EnqueueFacts(w, init);
      var q := Enqueue(w, init);
      if p !in q {
        assert forall x :: x in q + [p] <==> x in q || x == p;
        assert q[..|w|] == (q + [p])[..|w|];
      }
    }
  }

  /** The `k`th manifest path is that of the `k`th name. */
  lemma {:induction false} ManifestPathsAt(root: string, names: seq<string>, k: nat)
    requires k < |names|
    ensures ManifestPaths(root, names)[k] == ManifestPath(root, names[k])
    decreases |names|
  {
    if k < |names| - 1 {
      ManifestPathsAt(root, names[..|names| - 1], k);
    }
  }

  /** Different entries of one checkout directory have different manifests. */
  lemma ManifestPathInjective(root: string, a: string, b: string)
    ensures ManifestPath(root, a) == ManifestPath(root, b) <==> a == b
  {
    if ManifestPath(root, a) == ManifestPath(root, b) {
      var x, y := Join(root, a), Join(root, b);
      assert |x| == |y|;
      assert x == ManifestPath(root, a)[..|x|];
      assert y == ManifestPath(root, b)[..|y|];
      JoinInjective(root, a, b);
    }
  }

  /** A manifest inside a checkout has a path separator; the seed manifests,
      in the current directory, have none. */
  lemma SeedsApart(root: string, name: string)
    ensures '/' in ManifestPath(root, name)
    ensures forall k :: 0 <= k < |SeedManifests| ==> '/' !in SeedManifests[k]
  {
    assert ManifestPath(root, name)[|root|] == '/';
  }

  /** The worklist the walk starts from has no repeated path when the
      directory listing has none. */
  lemma InitialNoDuplicates(root: string, listing: seq<string>)
    requires NoDuplicates(listing)
    ensures NoDuplicates(InitialWorklist(root, listing))
  {
    var w := InitialWorklist(root, listing);
    var n := |SeedManifests|;
    forall i, j | 0 <= i < j < |w|
      ensures w[i] != w[j]
    {
      if j >= n {
        ManifestPathsAt(root, listing, j - n);
        assert w[j] == ManifestPath(root, listing[j - n]);
        if i < n {
          SeedsApart(root, listing[j - n]);
        } else {
          ManifestPathsAt(root, listing, i - n);
          ManifestPathInjective(root, listing[i - n], listing[j - n]);
        }
      }
    }
  }

  // ----- termination -----

  lemma {:induction false} DistinctCard(ds: seq<Dep>)
    requires DistinctNames(ds)
    ensures |NamesOf(ds)| == |ds|
    decreases |ds|
  {
    if ds != [] {
      var init, d := ds[..|ds| - 1], ds[|ds| - 1];
      assert ds == init + [d];
      NamesOfSnoc(init, d);
      DistinctCard(init);
      forall e | e in init
        ensures e.name != d.name
      {
        var j :| 0 <= j < |init| && init[j] == e;
        assert ds[j] == e;
      }
    }
  }

  lemma {:induction false} SubsetCard(a: set<string>, b: set<string>)
    requires a <= b
    ensures |a| <= |b|
    decreases |a|
  {
    if a != {} {
      var x :| x in a;
      SubsetCard(a - {x}, b - {x});
    }
  }

  /** Every name the walk meets is declared by a readable manifest. */
  lemma {:induction false} StreamNames(readable: map<string, seq<string>>, branch: string, w: seq<string>)
    ensures NamesOf(Stream(readable, branch, w)) <= AllNames(readable, branch)
    decreases |w|
  {
    if w != [] {
      var init, p := w[..|w| - 1], w[|w| - 1];
      StreamNames(readable, branch, init);
      var s := Stream(readable, branch, w);
      forall d | d in s
        ensures d.name in AllNames(readable, branch)
      {
        if d !in Stream(readable, branch, init) {
          assert d in Read(readable, branch, p);
          assert p in readable && d in ParseLines(readable[p], DefaultOwner, branch);
        }
      }
    }
  }

  /** The worklist can only hold the seeds and one manifest per distinct
      declared name, which bounds the walk. */
  lemma WalkBound(readable: map<string, seq<string>>, branch: string, w: seq<string>, done: seq<Dep>)
    requires done == FirstWins(Stream(readable, branch, w))
    ensures |done| <= |AllNames(readable, branch)|
  {
    var s := Stream(readable, branch, w);
    FirstWinsNames(s);
    DistinctCard(done);
    StreamNames(readable, branch, w);
    SubsetCard(NamesOf(done), AllNames(readable, branch));
  }

  /** Reading one more manifest appends its records. */
  lemma StreamSnoc(readable: map<string, seq<string>>, branch: string, w: seq<string>, path: string)
    ensures Stream(readable, branch, w + [path]) == Stream(readable, branch, w) + Read(readable, branch, path)
  {
    assert (w + [path])[..|w|] == w;
  }

  /** A manifest that cannot be opened contributes nothing. */
  lemma UnreadableAddsNothing(readable: map<string, seq<string>>, branch: string, w: seq<string>, path: string)
    requires path !in readable
    ensures Stream(readable, branch, w + [path]) == Stream(readable, branch, w)
  {
    assert (w + [path])[..|w|] == w;
  }

  // ----- git calls -----

  lemma {:induction false} CheckoutsAt(root: string, ds: seq<Dep>, dirs: set<string>, k: nat)
    requires k < |ds|
    ensures Checkouts(root, ds, dirs)[k] == CheckoutCall(root, ds[k], dirs)
    decreases |ds|
  {
    var init := ds[..|ds| - 1];
    if k < |init| {
      CheckoutsAt(root, init, dirs, k);
      assert init[k] == ds[k];
    }
  }

  /** Each name is checked out at most once: no two git calls of the walk
      work on the same directory. */
  lemma OneCallPerDir(root: string, ds: seq<Dep>, dirs: set<string>)
    requires DistinctNames(ds)
    ensures forall i, j :: 0 <= i < j < |Checkouts(root, ds, dirs)| ==>
              Checkouts(root, ds, dirs)[i].Dir() != Checkouts(root, ds, dirs)[j].Dir()
  {
    var calls := Checkouts(root, ds, dirs);
    forall i, j | 0 <= i < j < |calls|
      ensures calls[i].Dir() != calls[j].Dir()
    {
      CheckoutsAt(root, ds, dirs, i);
      CheckoutsAt(root, ds, dirs, j);
      JoinInjective(root, ds[i].name, ds[j].name);
    }
  }

  /** A record is cloned exactly when its directory did not exist before the
      walk; otherwise its directory is updated. */
  lemma CloneWhenMissing(root: string, ds: seq<Dep>, dirs: set<string>, k: nat)
    requires k < |ds|
    ensures Checkouts(root, ds, dirs)[k].Clone? <==> Join(root, ds[k].name) !in dirs
    ensures Checkouts(root, ds, dirs)[k].Dir() == Join(root, ds[k].name)
  {
    CheckoutsAt(root, ds, dirs, k);
  }

  /** On a tree where every dependency is already checked out, the walk
      clones nothing. */
  lemma {:induction false} NothingClonedWhenPresent(root: string, ds: seq<Dep>, dirs: set<string>)
    requires forall d :: d in ds ==> Join(root, d.name) in dirs
    ensures forall c :: c in Checkouts(root, ds, dirs) ==> c.Update?
    decreases |ds|
  {
    if ds != [] {
      var init := ds[..|ds| - 1];
      assert forall d :: d in init ==> d in ds;
      NothingClonedWhenPresent(root, init, dirs);
      assert ds[|ds| - 1] in ds;
    }
  }

  // ----- requirement files -----

  lemma {:induction false} RequirementPathsHas(files: set<string>, root: string, names: seq<string>, n: string)
    requires n in names && RequirementsPath(root, n) in files
    ensures RequirementsPath(root, n) in RequirementPaths(files, root, names)
    decreases |names|
  {
    var init := names[..|names| - 1];
    if n != names[|names| - 1] {
      assert n in init by {
        var k :| 0 <= k < |names| && names[k] == n;
        assert init[k] == n;
      }
      RequirementPathsHas(files, root, init, n);
    }
  }

  /** Requirement files are not deduplicated: an entry of the checkout
      directory that the walk also checks out has its requirements file
      listed twice. */
  lemma RequirementsRepeat(files: set<string>, root: string, listing: seq<string>, names: seq<string>, n: string)
    requires n in listing && n in names && RequirementsPath(root, n) in files
    ensures multiset(InitialRequirements(files, root, listing) + RequirementPaths(files, root, names))[RequirementsPath(root, n)] >= 2
  {
    var path := RequirementsPath(root, n);
    RequirementPathsHas(files, root, listing, n);
    RequirementPathsHas(files, root, names, n);
    var a, b := InitialRequirements(files, root, listing), RequirementPaths(files, root, names);
    assert path in a;
    assert multiset(a)[path] >= 1 && multiset(b)[path] >= 1;
    assert multiset(a + b) == multiset(a) + multiset(b);
  }
}
