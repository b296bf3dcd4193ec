/** Writing migrated datasets all or none: each new version is staged beside
    its dataset and renamed over it, and what was replaced is put back when a
    step fails.  Any file operation may fail; a failing write may leave part of
    the file behind, a failing rename leaves everything as it was. */
module Migration {

  datatype Fault = NoFault | LeavesNothing | Leaves(part: string)

  type Files = map<string, string>

  class FileSystem {
    var files: Files
    var step: nat
    /** What goes wrong at each operation. */
    const faultAt: nat -> Fault
    /** Every state the files have been in since the beginning. */
    ghost var trace: seq<Files>

    constructor (initial: Files, faults: nat -> Fault)
      ensures files == initial && step == 0 && faultAt == faults && trace == [initial]
    {
      files, step, faultAt, trace := initial, 0, faults, [initial];
    }

    ghost predicate Faultless()
      reads this
    {
      forall k :: k >= step ==> faultAt(k) == NoFault
    }

    method ReadFile(path: string) returns (content: string, ok: bool)
      modifies this`step
      ensures step == old(step) + 1
      ensures ok <==> faultAt(old(step)) == NoFault && path in files
      ensures ok ==> content == files[path]
    {
      ok := faultAt(step) == NoFault && path in files;
      content := if ok then files[path] else "";
      step := step + 1;
    }

    /** Creates a file that must not exist yet. */
    method WriteNew(path: string, content: string) returns (ok: bool)
      modifies this
      ensures step == old(step) + 1 && trace == old(trace) + [files]
      ensures ok <==> faultAt(old(step)) == NoFault && path !in old(files)
      ensures ok ==> files == old(files)[path := content]
      ensures !ok ==> files == old(files) || (path !in old(files) && path in files && files == old(files)[path := files[path]])
    {
      ok := faultAt(step) == NoFault && path !in files;
      if ok {
        files := files[path := content];
      } else if path !in files && faultAt(step).Leaves? {
        files := files[path := faultAt(step).part];
      }
      step := step + 1;
      trace := trace + [files];
    }

    /** Replaces the target in one step. */
    method Rename(from: string, to: string) returns (ok: bool)
      modifies this
      ensures step == old(step) + 1 && trace == old(trace) + [files]
      ensures ok <==> faultAt(old(step)) == NoFault && from in old(files)
      ensures files == if ok then (old(files) - {from})[to := old(files)[from]] else old(files)
    {
      ok := faultAt(step) == NoFault && from in files;
      if ok {
        files := (files - {from})[to := files[from]];
      }
      step := step + 1;
      trace := trace + [files];
    }

    /** Removes a file if there is one. */
    method Remove(path: string) returns (ok: bool)
      modifies this
      ensures step == old(step) + 1 && trace == old(trace) + [files]
      ensures ok <==> faultAt(old(step)) == NoFault
      ensures files == if ok then old(files) - {path} else old(files)
    {
      ok := faultAt(step) == NoFault;
      if ok {
        files := files - {path};
      }
      step := step + 1;
      trace := trace + [files];
    }
  }

  // ------------------------------------------------------------------ the plans

  datatype Plan = Plan(datasetPath: string, originalContent: string, originalSha256: string, serializedDataset: string)

  /** Names for temporary files that nothing else uses. */
  ghost predicate Fresh(base: Files, plans: seq<Plan>, temporary: nat -> string, restore: nat -> string) {
    && (forall i: nat :: temporary(i) !in base && restore(i) !in base)
    && (forall i: nat, k | 0 <= k < |plans| ::
          temporary(i) != plans[k].datasetPath && restore(i) != plans[k].datasetPath)
    && (forall i: nat, j: nat | i != j :: temporary(i) != temporary(j))
    && (forall i: nat, j: nat :: temporary(i) != restore(j))
  }

  ghost predicate GoodPlans(plans: seq<Plan>, sha: string -> string) {
    && (forall i, j | 0 <= i < j < |plans| :: plans[i].datasetPath != plans[j].datasetPath)
    && (forall i | 0 <= i < |plans| :: plans[i].originalSha256 == sha(plans[i].originalContent))
    && (forall a, b :: sha(a) == sha(b) ==> a == b)
  }

  /** The files with the first n datasets migrated. */
  function Migrated(base: Files, plans: seq<Plan>, n: nat): Files
    requires n <= |plans|
  {
    if n == 0 then base else Migrated(base, plans, n - 1)[plans[n - 1].datasetPath := plans[n - 1].serializedDataset]
  }

  lemma {:induction false} MigratedFacts(base: Files, plans: seq<Plan>, n: nat)
    requires n <= |plans| && forall i, j | 0 <= i < j < |plans| :: plans[i].datasetPath != plans[j].datasetPath
    ensures var files := Migrated(base, plans, n);
      && (forall k | 0 <= k < n :: plans[k].datasetPath in files && files[plans[k].datasetPath] == plans[k].serializedDataset)
      && (forall p | p in base && (forall k | 0 <= k < n :: p != plans[k].datasetPath) :: p in files && files[p] == base[p])
      && (forall p | p in files :: p in base || exists k | 0 <= k < n :: p == plans[k].datasetPath)
  {
    if n > 0 {
      MigratedFacts(base, plans, n - 1);
    }
  }

  /** A dataset has the content it began with or the one planned for it. */
  ghost predicate Intact(base: Files, plans: seq<Plan>, files: Files) {
    forall k | 0 <= k < |plans| && plans[k].datasetPath in base ::
      && plans[k].datasetPath in files
      && (files[plans[k].datasetPath] == base[plans[k].datasetPath]
          || files[plans[k].datasetPath] == plans[k].serializedDataset)
  }

  /** Apart from extra files there is what there was before, with the first n
      datasets migrated. */
  ghost predicate Shape(files: Files, base: Files, plans: seq<Plan>, n: nat, extra: set<string>)
    requires n <= |plans|
  {
    files - extra == Migrated(base, plans, n)
  }

  lemma NothingExtra(files: Files, base: Files, plans: seq<Plan>, n: nat)
    requires n <= |plans| && Shape(files, base, plans, n, {})
    ensures files == Migrated(base, plans, n)
  {
    assert files - {} == files;
  }

  lemma ShapeIsIntact(files: Files, base: Files, plans: seq<Plan>, n: nat, extra: set<string>)
    requires n <= |plans| && Shape(files, base, plans, n, extra)
    requires forall i, j | 0 <= i < j < |plans| :: plans[i].datasetPath != plans[j].datasetPath
    ensures Intact(base, plans, files)
  {
    MigratedFacts(base, plans, n);
    forall k | 0 <= k < |plans| && plans[k].datasetPath in base
      ensures plans[k].datasetPath in files
      ensures files[plans[k].datasetPath] == base[plans[k].datasetPath]
           || files[plans[k].datasetPath] == plans[k].serializedDataset
    {
      assert plans[k].datasetPath in files - extra;
      if k >= n {
        assert forall i | 0 <= i < n :: plans[k].datasetPath != plans[i].datasetPath;
      }
    }
  }

  /** Adding the next state to the trace. */
  lemma TraceGrows(
    base: Files, plans: seq<Plan>, trace: seq<Files>, files: Files, n: nat, extra: set<string>, sha: string -> string)
    requires AllIntact(base, plans, trace) && GoodPlans(plans, sha)
    requires n <= |plans| && Shape(files, base, plans, n, extra)
    ensures AllIntact(base, plans, trace + [files])
  {
    ShapeIsIntact(files, base, plans, n, extra);
  }

  /** A path that is no dataset and was not there is in no shape of the files. */
  lemma NewPathIsApart(base: Files, plans: seq<Plan>, n: nat, path: string, sha: string -> string)
    requires GoodPlans(plans, sha) && n <= |plans|
    requires path !in base && forall k | 0 <= k < |plans| :: path != plans[k].datasetPath
    ensures path !in Migrated(base, plans, n)
  {
    MigratedFacts(base, plans, n);
  }

  lemma AddExtra(files: Files, base: Files, plans: seq<Plan>, n: nat, path: string, content: string, extra: set<string>)
    requires n <= |plans| && Shape(files, base, plans, n, extra)
    requires path !in Migrated(base, plans, n)
    ensures Shape(files, base, plans, n, extra + {path})
    ensures Shape(files[path := content], base, plans, n, extra + {path})
  {
    assert files - (extra + {path}) == (files - extra) - {path};
    assert files[path := content] - (extra + {path}) == files - (extra + {path});
  }

  function Temporaries(temporary: nat -> string, n: nat): set<string> {
    set k: nat | k < n :: temporary(k)
  }

  ghost predicate AllIntact(base: Files, plans: seq<Plan>, trace: seq<Files>) {
    forall files | files in trace :: Intact(base, plans, files)
  }

  /** The temporary files from i up to n hold the planned contents. */
  ghost predicate Staged(files: Files, plans: seq<Plan>, temporary: nat -> string, i: nat, n: nat) {
    n <= |plans|
    && forall k: nat | i <= k < n :: temporary(k) in files && files[temporary(k)] == plans[k].serializedDataset
  }

  /** The first n datasets were there, with the contents that were planned from. */
  predicate Unchanged(base: Files, plans: seq<Plan>, n: nat) {
    n <= |plans| && forall k | 0 <= k < n :: AsPlanned(base, plans[k])
  }

  // ------------------------------------------------------- where a run goes wrong

  /** Nothing goes wrong at n operations from the given one on. */
  predicate Clean(faultAt: nat -> Fault, from: nat, n: nat) {
    forall k: nat | from <= k < from + n :: faultAt(k) == NoFault
  }

  /** The operation after the first of n that goes wrong, or after all n. */
  function StopsAfter(faultAt: nat -> Fault, from: nat, n: nat): (stop: nat)
    ensures from <= stop <= from + n
    decreases n
  {
    if n == 0 then from
    else if faultAt(from) != NoFault then from + 1
    else StopsAfter(faultAt, from + 1, n - 1)
  }

  lemma {:induction false} StopsAtFirstFault(faultAt: nat -> Fault, from: nat, n: nat, good: nat)
    requires good <= n && Clean(faultAt, from, good)
    ensures good == n ==> StopsAfter(faultAt, from, n) == from + n
    ensures good < n && faultAt(from + good) != NoFault ==> StopsAfter(faultAt, from, n) == from + good + 1
    ensures good < n && faultAt(from + good) != NoFault ==> !Clean(faultAt, from, n)
    decreases n
  {
    if good > 0 {
      assert faultAt(from) == NoFault;
      assert Clean(faultAt, from + 1, good - 1);
      StopsAtFirstFault(faultAt, from + 1, n - 1, good - 1);
    }
  }

  lemma {:induction false} StopsInParts(faultAt: nat -> Fault, from: nat, m: nat, n: nat)
    ensures Clean(faultAt, from, m) ==> StopsAfter(faultAt, from, m + n) == StopsAfter(faultAt, from + m, n)
    ensures !Clean(faultAt, from, m) ==> StopsAfter(faultAt, from, m + n) == StopsAfter(faultAt, from, m)
    ensures Clean(faultAt, from, m + n) <==> Clean(faultAt, from, m) && Clean(faultAt, from + m, n)
    decreases m
  {
    if m > 0 {
      StopsInParts(faultAt, from + 1, m - 1, n);
      assert faultAt(from) == NoFault && Clean(faultAt, from + 1, m - 1) ==> Clean(faultAt, from, m);
      assert Clean(faultAt, from, m) ==> Clean(faultAt, from + 1, m - 1);
    }
  }

  predicate AsPlanned(base: Files, plan: Plan) {
    plan.datasetPath in base && base[plan.datasetPath] == plan.originalContent
  }

  /** The first dataset from the given one on that is no longer as planned. */
  function FirstChanged(base: Files, plans: seq<Plan>, from: nat): (i: nat)
    requires from <= |plans|
    ensures from <= i <= |plans|
    ensures forall k | from <= k < i :: AsPlanned(base, plans[k])
    ensures i < |plans| ==> !AsPlanned(base, plans[i])
    decreases |plans| - from
  {
    if from == |plans| || !AsPlanned(base, plans[from]) then from else FirstChanged(base, plans, from + 1)
  }

  /** How many operations staging has before it is done or finds a dataset changed. */
  function StagingOperations(base: Files, plans: seq<Plan>): nat {
    var i := FirstChanged(base, plans, 0);
    if i == |plans| then 2 * i else 2 * i + 1
  }

  /** The same for staging and replacing. */
  function ForwardOperations(base: Files, plans: seq<Plan>): nat {
    StagingOperations(base, plans) + (if Unchanged(base, plans, |plans|) then |plans| else 0)
  }

  // ---------------------------------------------------------------- the protocol

  /** What a run starts from and works with; it never changes during a run. */
  ghost predicate Setting(
    base: Files, plans: seq<Plan>, sha: string -> string, temporary: nat -> string, restore: nat -> string)
  {
    GoodPlans(plans, sha) && Fresh(base, plans, temporary, restore)
  }

  /** Stages the new version of each dataset, counting the files begun. */
  method Stage(
    fs: FileSystem, plans: seq<Plan>, sha: string -> string, temporary: nat -> string, ghost restore: nat -> string)
    returns (staged: nat, ok: bool)
    requires Setting(fs.files, plans, sha, temporary, restore) && AllIntact(fs.files, plans, fs.trace)
    modifies fs
    ensures staged <= |plans| && Shape(fs.files, old(fs.files), plans, 0, Temporaries(temporary, staged))
    ensures ok ==> staged == |plans| && Staged(fs.files, plans, temporary, 0, |plans|)
    ensures ok ==> Unchanged(old(fs.files), plans, |plans|)
    ensures AllIntact(old(fs.files), plans, fs.trace)
    ensures ok <==> Unchanged(old(fs.files), plans, |plans|) && Clean(fs.faultAt, old(fs.step), 2 * |plans|)
    ensures fs.step == StopsAfter(fs.faultAt, old(fs.step), StagingOperations(old(fs.files), plans))
  {
    ghost var base, from := fs.files, fs.step;
    staged := 0;
    while staged < |plans|
      invariant staged <= |plans| && Shape(fs.files, base, plans, 0, Temporaries(temporary, staged))
      invariant Staged(fs.files, plans, temporary, 0, staged) && Unchanged(base, plans, staged)
      invariant AllIntact(base, plans, fs.trace)
      invariant fs.step == from + 2 * staged && Clean(fs.faultAt, from, 2 * staged)
    {
      var begun, done := StageOne(fs, base, from, plans, sha, temporary, restore, staged);
      if !done {
        return if begun then staged + 1 else staged, false;
      }
      staged := staged + 1;
    }
    StopsAtFirstFault(fs.faultAt, from, 2 * |plans|, 2 * |plans|);
    ok := true;
  }

  /** Stages one dataset: begun says whether a temporary file may be there. */
  method StageOne(
    fs: FileSystem, ghost base: Files, ghost from: nat, plans: seq<Plan>, sha: string -> string,
    temporary: nat -> string, ghost restore: nat -> string, staged: nat)
    returns (begun: bool, ok: bool)
    requires Setting(base, plans, sha, temporary, restore) && AllIntact(base, plans, fs.trace)
    requires staged < |plans| && Shape(fs.files, base, plans, 0, Temporaries(temporary, staged))
    requires Staged(fs.files, plans, temporary, 0, staged) && Unchanged(base, plans, staged)
    requires fs.step == from + 2 * staged && Clean(fs.faultAt, from, 2 * staged)
    modifies fs
    ensures ok ==> begun
    ensures Shape(fs.files, base, plans, 0, Temporaries(temporary, if begun then staged + 1 else staged))
    ensures AllIntact(base, plans, fs.trace)
    ensures ok ==> Staged(fs.files, plans, temporary, 0, staged + 1) && Unchanged(base, plans, staged + 1)
    ensures ok ==> fs.step == from + 2 * (staged + 1) && Clean(fs.faultAt, from, 2 * (staged + 1))
    ensures !ok ==> !(Unchanged(base, plans, |plans|) && Clean(fs.faultAt, from, 2 * |plans|))
    ensures !ok ==> fs.step == StopsAfter(fs.faultAt, from, StagingOperations(base, plans))
  {
    var plan := plans[staged];
    StagingStops(fs.faultAt, from, base, plans, staged);
    DatasetInPlace(fs.files, base, plans, sha, temporary, restore, staged);
    var content, read := fs.ReadFile(plan.datasetPath);
    if !read || sha(content) != plan.originalSha256 {
      return false, false;
    }
    ghost var before, trace := fs.files, fs.trace;
    var written := fs.WriteNew(temporary(staged), plan.serializedDataset);
    StageStep(before, fs.files, base, plans, sha, temporary, restore, staged);
    TraceGrows(base, plans, trace, fs.files, 0, Temporaries(temporary, staged + 1), sha);
    if written {
      OneMoreStaged(before, plans, temporary, staged);
    }
    return true, written;
  }

  /** Staged files leave the datasets as they were. */
  lemma DatasetInPlace(
    files: Files, base: Files, plans: seq<Plan>, sha: string -> string,
    temporary: nat -> string, restore: nat -> string, n: nat)
    requires Setting(base, plans, sha, temporary, restore)
    requires n < |plans| && Shape(files, base, plans, 0, Temporaries(temporary, n))
    ensures var path := plans[n].datasetPath;
      && (path in files <==> path in base)
      && (path in files ==> files[path] == base[path])
      && (path in files ==> (sha(files[path]) == plans[n].originalSha256 <==> AsPlanned(base, plans[n])))
  {
    var path := plans[n].datasetPath;
    assert path !in Temporaries(temporary, n);
    assert path in files - Temporaries(temporary, n) <==> path in base;
  }

  /** Where staging stops if it does so at a dataset. */
  lemma StagingStops(faultAt: nat -> Fault, from: nat, base: Files, plans: seq<Plan>, staged: nat)
    requires staged < |plans| && Unchanged(base, plans, staged) && Clean(faultAt, from, 2 * staged)
    ensures var stop, all, read := StopsAfter(faultAt, from, StagingOperations(base, plans)), 2 * |plans|, from + 2 * staged;
      && (faultAt(read) != NoFault ==> stop == read + 1 && !Clean(faultAt, from, all))
      && (!AsPlanned(base, plans[staged]) ==> stop == read + 1)
      && (AsPlanned(base, plans[staged]) && faultAt(read) == NoFault && faultAt(read + 1) != NoFault ==>
            stop == read + 2 && !Clean(faultAt, from, all))
  {
    var n := StagingOperations(base, plans);
    StopsAtFirstFault(faultAt, from, 2 * |plans|, 2 * staged);
    StopsAtFirstFault(faultAt, from, n, 2 * staged);
    if faultAt(from + 2 * staged) == NoFault {
      StopsAtFirstFault(faultAt, from, 2 * |plans|, 2 * staged + 1);
      StopsAtFirstFault(faultAt, from, n, 2 * staged + 1);
    }
  }

  lemma StageStep(
    before: Files, after: Files, base: Files, plans: seq<Plan>, sha: string -> string,
    temporary: nat -> string, restore: nat -> string, n: nat)
    requires Setting(base, plans, sha, temporary, restore)
    requires n < |plans| && Shape(before, base, plans, 0, Temporaries(temporary, n))
    requires after == before || (temporary(n) in after && after == before[temporary(n) := after[temporary(n)]])
    ensures temporary(n) !in before
    ensures Shape(after, base, plans, 0, Temporaries(temporary, n + 1))
  {
    assert forall k: nat | k < n :: temporary(k) != temporary(n);
    assert temporary(n) !in before - Temporaries(temporary, n);
    assert Temporaries(temporary, n + 1) == Temporaries(temporary, n) + {temporary(n)};
    AddExtra(before, base, plans, 0, temporary(n), if temporary(n) in after then after[temporary(n)] else "",
             Temporaries(temporary, n));
  }

  lemma OneMoreStaged(before: Files, plans: seq<Plan>, temporary: nat -> string, n: nat)
    requires n < |plans| && Staged(before, plans, temporary, 0, n) && temporary(n) !in before
    ensures Staged(before[temporary(n) := plans[n].serializedDataset], plans, temporary, 0, n + 1)
  {
  }

  /** Renames the staged files over their datasets, counting those replaced. */
  method ReplaceAll(
    fs: FileSystem, ghost base: Files, plans: seq<Plan>, ghost sha: string -> string,
    temporary: nat -> string, ghost restore: nat -> string)
    returns (replaced: nat, ok: bool)
    requires Setting(base, plans, sha, temporary, restore) && AllIntact(base, plans, fs.trace)
    requires Unchanged(base, plans, |plans|)
    requires Shape(fs.files, base, plans, 0, Temporaries(temporary, |plans|))
    requires Staged(fs.files, plans, temporary, 0, |plans|)
    modifies fs
    ensures replaced <= |plans| && Shape(fs.files, base, plans, replaced, Temporaries(temporary, |plans|))
    ensures ok ==> replaced == |plans| && forall k: nat | k < |plans| :: temporary(k) !in fs.files
    ensures AllIntact(base, plans, fs.trace)
    ensures ok <==> Clean(fs.faultAt, old(fs.step), |plans|)
    ensures fs.step == StopsAfter(fs.faultAt, old(fs.step), |plans|)
  {
    ghost var from := fs.step;
    replaced := 0;
    while replaced < |plans|
      invariant replaced <= |plans| && Shape(fs.files, base, plans, replaced, Temporaries(temporary, |plans|))
      invariant Staged(fs.files, plans, temporary, replaced, |plans|)
      invariant forall k: nat | k < replaced :: temporary(k) !in fs.files
      invariant AllIntact(base, plans, fs.trace)
      invariant fs.step == from + replaced && Clean(fs.faultAt, from, replaced)
    {
      ghost var before, trace := fs.files, fs.trace;
      StopsAtFirstFault(fs.faultAt, from, |plans|, replaced);
      var renamed := fs.Rename(temporary(replaced), plans[replaced].datasetPath);
      if !renamed {
        TraceGrows(base, plans, trace, fs.files, replaced, Temporaries(temporary, |plans|), sha);
        return replaced, false;
      }
      RenameStep(before, fs.files, base, plans, sha, temporary, restore, replaced);
      RestStaysStaged(before, fs.files, base, plans, temporary, restore, replaced);
      TraceGrows(base, plans, trace, fs.files, replaced + 1, Temporaries(temporary, |plans|), sha);
      replaced := replaced + 1;
    }
    StopsAtFirstFault(fs.faultAt, from, |plans|, |plans|);
    ok := true;
  }

  lemma RenameStep(
    before: Files, after: Files, base: Files, plans: seq<Plan>, sha: string -> string,
    temporary: nat -> string, restore: nat -> string, n: nat)
    requires Setting(base, plans, sha, temporary, restore)
    requires n < |plans| && Shape(before, base, plans, n, Temporaries(temporary, |plans|))
    requires temporary(n) in before && before[temporary(n)] == plans[n].serializedDataset
    requires after == (before - {temporary(n)})[plans[n].datasetPath := before[temporary(n)]]
    ensures Shape(after, base, plans, n + 1, Temporaries(temporary, |plans|))
  {
    var extra, at := Temporaries(temporary, |plans|), plans[n].datasetPath;
    assert at !in extra && temporary(n) in extra;
    assert after - extra == (before - extra)[at := before[temporary(n)]];
  }

  lemma RestStaysStaged(
    before: Files, after: Files, base: Files, plans: seq<Plan>, temporary: nat -> string, restore: nat -> string, n: nat)
    requires Fresh(base, plans, temporary, restore)
    requires n < |plans| && Staged(before, plans, temporary, n, |plans|)
    requires after == (before - {temporary(n)})[plans[n].datasetPath := before[temporary(n)]]
    ensures Staged(after, plans, temporary, n + 1, |plans|)
  {
    forall k: nat | n + 1 <= k < |plans|
      ensures temporary(k) in after && after[temporary(k)] == plans[k].serializedDataset
    {
      assert temporary(k) != temporary(n);
    }
  }

  /** Puts the original contents back, last replaced first. */
  method RestoreReplacedDatasets(
    fs: FileSystem, ghost base: Files, plans: seq<Plan>, ghost sha: string -> string, replaced: nat,
    restore: nat -> string, ghost temporary: nat -> string, ghost staged: nat)
    returns (left: nat, ok: bool)
    requires Setting(base, plans, sha, temporary, restore) && AllIntact(base, plans, fs.trace)
    requires replaced <= |plans| && staged <= |plans| && Unchanged(base, plans, replaced)
    requires Shape(fs.files, base, plans, replaced, Temporaries(temporary, staged))
    modifies fs
    ensures left <= replaced
    ensures ok ==> left == 0 && Shape(fs.files, base, plans, 0, Temporaries(temporary, staged))
    ensures !ok ==> exists r: nat :: Shape(fs.files, base, plans, left, Temporaries(temporary, staged) + {restore(r)})
    ensures AllIntact(base, plans, fs.trace)
    ensures old(fs.Faultless()) ==> ok && fs.Faultless()
  {
    left := replaced;
    while left > 0
      invariant left <= replaced && Shape(fs.files, base, plans, left, Temporaries(temporary, staged))
      invariant AllIntact(base, plans, fs.trace)
      invariant old(fs.Faultless()) ==> fs.Faultless()
    {
      var back := RestoreOne(fs, base, plans, sha, left, restore, temporary, staged);
      if !back.done {
        return if back.renamed then left - 1 else left, false;
      }
      left := left - 1;
    }
    ok := true;
  }

  datatype Back = Back(renamed: bool, done: bool)

  method RestoreOne(
    fs: FileSystem, ghost base: Files, plans: seq<Plan>, ghost sha: string -> string, left: nat,
    restore: nat -> string, ghost temporary: nat -> string, ghost staged: nat)
    returns (back: Back)
    requires Setting(base, plans, sha, temporary, restore) && AllIntact(base, plans, fs.trace)
    requires 0 < left <= |plans| && staged <= |plans| && Unchanged(base, plans, left)
    requires Shape(fs.files, base, plans, left, Temporaries(temporary, staged))
    modifies fs
    ensures back.done ==> back.renamed && Shape(fs.files, base, plans, left - 1, Temporaries(temporary, staged))
    ensures !back.done ==> Shape(fs.files, base, plans, if back.renamed then left - 1 else left,
                                 Temporaries(temporary, staged) + {restore(left - 1)})
    ensures AllIntact(base, plans, fs.trace)
    ensures old(fs.Faultless()) ==> back.done && fs.Faultless()
  {
    ghost var extra := Temporaries(temporary, staged);
    var path := restore(left - 1);
    assert path !in extra;
    var renamed := PutBack(fs, base, plans, sha, left, path, extra);
    ghost var n := if renamed then left - 1 else left;
    ghost var full, trace := fs.files, fs.trace;
    var removed := fs.Remove(path);
    RemoveStep(full, fs.files, base, plans, sha, n, path, extra);
    TraceGrows(base, plans, trace, fs.files, n, extra + {path}, sha);
    back := Back(renamed, renamed && removed);
  }

  /** Writes the original content beside the dataset and renames it over it. */
  method PutBack(
    fs: FileSystem, ghost base: Files, plans: seq<Plan>, ghost sha: string -> string, left: nat, path: string,
    ghost extra: set<string>)
    returns (renamed: bool)
    requires GoodPlans(plans, sha) && AllIntact(base, plans, fs.trace)
    requires 0 < left <= |plans| && Unchanged(base, plans, left) && Shape(fs.files, base, plans, left, extra)
    requires path !in base && (forall k | 0 <= k < |plans| :: path != plans[k].datasetPath) && path !in extra
    modifies fs
    ensures Shape(fs.files, base, plans, if renamed then left - 1 else left, extra + {path})
    ensures AllIntact(base, plans, fs.trace)
    ensures old(fs.Faultless()) ==> renamed && fs.Faultless()
  {
    NewPathIsApart(base, plans, left, path, sha);
    ghost var before, trace := fs.files, fs.trace;
    var written := fs.WriteNew(path, plans[left - 1].originalContent);
    AddExtra(before, base, plans, left, path, if path in fs.files then fs.files[path] else "", extra);
    TraceGrows(base, plans, trace, fs.files, left, extra + {path}, sha);
    if !written {
      return false;
    }
    before, trace := fs.files, fs.trace;
    renamed := fs.Rename(path, plans[left - 1].datasetPath);
    if renamed {
      RestoreStep(before, fs.files, base, plans, sha, left, path, extra);
    }
    TraceGrows(base, plans, trace, fs.files, if renamed then left - 1 else left, extra + {path}, sha);
  }

  lemma RestoreStep(
    before: Files, after: Files, base: Files, plans: seq<Plan>, sha: string -> string, left: nat, path: string,
    extra: set<string>)
    requires GoodPlans(plans, sha) && 0 < left <= |plans| && Unchanged(base, plans, left)
    requires Shape(before, base, plans, left, extra + {path})
    requires path !in base && (forall k | 0 <= k < |plans| :: path != plans[k].datasetPath) && path !in extra
    requires path in before && before[path] == plans[left - 1].originalContent
    requires after == (before - {path})[plans[left - 1].datasetPath := before[path]]
    ensures Shape(after, base, plans, left - 1, extra + {path})
  {
    var at := plans[left - 1].datasetPath;
    MigratedBack(base, plans, sha, left);
    assert at in before - (extra + {path});
    assert after - (extra + {path}) == (before - (extra + {path}))[at := before[path]];
  }

  lemma MigratedBack(base: Files, plans: seq<Plan>, sha: string -> string, left: nat)
    requires GoodPlans(plans, sha) && 0 < left <= |plans| && Unchanged(base, plans, left)
    ensures var at := plans[left - 1].datasetPath;
      && at in Migrated(base, plans, left)
      && Migrated(base, plans, left)[at := plans[left - 1].originalContent] == Migrated(base, plans, left - 1)
  {
    var at := plans[left - 1].datasetPath;
    MigratedFacts(base, plans, left - 1);
    assert forall k | 0 <= k < left - 1 :: at != plans[k].datasetPath;
    assert base[at] == plans[left - 1].originalContent;
  }

  lemma RemoveStep(
    before: Files, after: Files, base: Files, plans: seq<Plan>, sha: string -> string, n: nat, path: string,
    extra: set<string>)
    requires GoodPlans(plans, sha) && n <= |plans| && Shape(before, base, plans, n, extra + {path})
    requires path !in base && forall k | 0 <= k < |plans| :: path != plans[k].datasetPath
    requires after == before || after == before - {path}
    ensures Shape(after, base, plans, n, extra + {path})
    ensures after == before - {path} ==> Shape(after, base, plans, n, extra)
  {
    NewPathIsApart(base, plans, n, path, sha);
    assert (before - {path}) - (extra + {path}) == before - (extra + {path});
    assert (before - {path}) - extra == before - (extra + {path});
  }

  /** Removes what is left of the staged files, whatever else is beside them. */
  method RemoveStaged(
    fs: FileSystem, ghost base: Files, plans: seq<Plan>, ghost sha: string -> string, staged: nat, ghost n: nat,
    temporary: nat -> string, ghost restore: nat -> string, ghost other: set<string>)
    returns (ok: bool)
    requires Setting(base, plans, sha, temporary, restore) && AllIntact(base, plans, fs.trace)
    requires n <= |plans| && staged <= |plans|
    requires Shape(fs.files, base, plans, n, Temporaries(temporary, staged) + other)
    modifies fs
    ensures Shape(fs.files, base, plans, n, Temporaries(temporary, staged) + other)
    ensures ok ==> Shape(fs.files, base, plans, n, other)
    ensures AllIntact(base, plans, fs.trace)
    ensures old(fs.Faultless()) ==> ok
    ensures (forall k: nat | k < staged :: temporary(k) !in old(fs.files)) ==> fs.files == old(fs.files)
  {
    ghost var gone := forall k: nat | k < staged :: temporary(k) !in fs.files;
    ghost var rest := Temporaries(temporary, staged) + other;
    for i := 0 to staged
      invariant Shape(fs.files, base, plans, n, rest) && other <= rest <= Temporaries(temporary, staged) + other
      invariant forall k: nat | k < i :: temporary(k) !in rest || temporary(k) in other
      invariant gone ==> fs.files == old(fs.files)
      invariant AllIntact(base, plans, fs.trace)
      invariant old(fs.Faultless()) ==> fs.Faultless()
    {
      ghost var before, trace := fs.files, fs.trace;
      var removed := fs.Remove(temporary(i));
      ghost var fewer := if temporary(i) in other then rest else rest - {temporary(i)};
      assert temporary(i) in rest ==> rest == fewer + {temporary(i)};
      RemoveStep(before, fs.files, base, plans, sha, n, temporary(i), fewer);
      TraceGrows(base, plans, trace, fs.files, n, rest, sha);
      if !removed {
        return false;
      }
      rest := fewer;
    }
    assert rest == other;
    ok := true;
  }

  /** How a run ended: whether all datasets were replaced, whether those that
      were are put back otherwise, and whether the staged files are gone.  The
      caller sees an error unless it migrated and cleaned. */
  datatype Outcome = Outcome(migrated: bool, restored: bool, cleaned: bool)

  /** All or nothing, whatever goes wrong when.  It migrates exactly if no
      dataset has changed and no operation of staging and replacing fails, and
      then nothing that fails later matters.  Otherwise, if nothing fails after
      the first failure, the files are exactly what they were.  And at every
      moment, however many operations fail, each dataset is whole: as it was,
      or as planned. */
  method WriteMigrationPlansWithRollback(
    fs: FileSystem, plans: seq<Plan>, sha: string -> string, temporary: nat -> string, restore: nat -> string)
    returns (outcome: Outcome)
    requires Setting(fs.files, plans, sha, temporary, restore) && fs.trace == [fs.files]
    modifies fs
    ensures outcome.migrated <==>
              && Unchanged(old(fs.files), plans, |plans|)
              && Clean(fs.faultAt, old(fs.step), 3 * |plans|)
    ensures outcome.migrated ==> fs.files == Migrated(old(fs.files), plans, |plans|)
    ensures var stop := StopsAfter(fs.faultAt, old(fs.step), ForwardOperations(old(fs.files), plans));
      !outcome.migrated && (forall k | k >= stop :: fs.faultAt(k) == NoFault) ==>
        outcome.restored && outcome.cleaned && fs.files == old(fs.files)
    ensures !outcome.migrated && outcome.restored && outcome.cleaned ==> fs.files == old(fs.files)
    ensures old(fs.Faultless()) ==> outcome.cleaned
    ensures !outcome.migrated && outcome.restored ==>
              exists n: nat :: n <= |plans| && Shape(fs.files, old(fs.files), plans, 0, Temporaries(temporary, n))
    ensures AllIntact(old(fs.files), plans, fs.trace)
  {
    ghost var base := fs.files;
    assert fs.files - Temporaries(temporary, 0) == fs.files;
    ShapeIsIntact(fs.files, base, plans, 0, Temporaries(temporary, 0));
    var staged, replaced, ok := StageAndReplace(fs, plans, sha, temporary, restore);
    if !ok {
      outcome := RollBack(fs, base, plans, sha, staged, replaced, temporary, restore);
      return;
    }
    assert Temporaries(temporary, |plans|) + {} == Temporaries(temporary, |plans|);
    AllRenamed(fs.files, base, plans, temporary);
    var cleaned := RemoveStaged(fs, base, plans, sha, staged, |plans|, temporary, restore, {});
    outcome := Outcome(true, false, cleaned);
  }

  /** Stages everything, then replaces everything. */
  method StageAndReplace(
    fs: FileSystem, plans: seq<Plan>, sha: string -> string, temporary: nat -> string, ghost restore: nat -> string)
    returns (staged: nat, replaced: nat, ok: bool)
    requires Setting(fs.files, plans, sha, temporary, restore) && AllIntact(fs.files, plans, fs.trace)
    modifies fs
    ensures staged <= |plans| && replaced <= |plans| && Unchanged(old(fs.files), plans, replaced)
    ensures Shape(fs.files, old(fs.files), plans, replaced, Temporaries(temporary, staged))
    ensures ok ==> staged == |plans| && replaced == |plans| && forall k: nat | k < |plans| :: temporary(k) !in fs.files
    ensures AllIntact(old(fs.files), plans, fs.trace)
    ensures ok <==> Unchanged(old(fs.files), plans, |plans|) && Clean(fs.faultAt, old(fs.step), 3 * |plans|)
    ensures fs.step == StopsAfter(fs.faultAt, old(fs.step), ForwardOperations(old(fs.files), plans))
  {
    ghost var base, from := fs.files, fs.step;
    replaced := 0;
    staged, ok := Stage(fs, plans, sha, temporary, restore);
    if !ok {
      StopsInStaging(fs.faultAt, from, base, plans);
    } else {
      StopsInReplacing(fs.faultAt, from, base, plans);
      replaced, ok := ReplaceAll(fs, base, plans, sha, temporary, restore);
    }
  }

  /** Restores what was replaced and removes what was staged. */
  method RollBack(
    fs: FileSystem, ghost base: Files, plans: seq<Plan>, sha: string -> string, staged: nat, replaced: nat,
    temporary: nat -> string, restore: nat -> string)
    returns (outcome: Outcome)
    requires Setting(base, plans, sha, temporary, restore) && AllIntact(base, plans, fs.trace)
    requires replaced <= |plans| && staged <= |plans| && Unchanged(base, plans, replaced)
    requires Shape(fs.files, base, plans, replaced, Temporaries(temporary, staged))
    modifies fs
    ensures !outcome.migrated
    ensures outcome.restored ==> Shape(fs.files, base, plans, 0, Temporaries(temporary, staged))
    ensures outcome.restored && outcome.cleaned ==> fs.files == base
    ensures AllIntact(base, plans, fs.trace)
    ensures old(fs.Faultless()) ==> outcome.restored && outcome.cleaned
  {
    var left, restored := RestoreReplacedDatasets(fs, base, plans, sha, replaced, restore, temporary, staged);
    ghost var other: set<string> := {};
    if !restored {
      ghost var r: nat :| Shape(fs.files, base, plans, left, Temporaries(temporary, staged) + {restore(r)});
      other := {restore(r)};
    }
    assert Temporaries(temporary, staged) + {} == Temporaries(temporary, staged);
    var cleaned := RemoveStaged(fs, base, plans, sha, staged, left, temporary, restore, other);
    if restored && cleaned {
      NothingExtra(fs.files, base, plans, 0);
    }
    outcome := Outcome(false, restored, cleaned);
  }

  /** Staging decides where a run stops unless all of it succeeds. */
  lemma StopsInStaging(faultAt: nat -> Fault, from: nat, base: Files, plans: seq<Plan>)
    requires !(Unchanged(base, plans, |plans|) && Clean(faultAt, from, 2 * |plans|))
    ensures StopsAfter(faultAt, from, ForwardOperations(base, plans))
         == StopsAfter(faultAt, from, StagingOperations(base, plans))
    ensures !(Unchanged(base, plans, |plans|) && Clean(faultAt, from, 3 * |plans|))
  {
    StopsInParts(faultAt, from, 2 * |plans|, |plans|);
  }

  lemma StopsInReplacing(faultAt: nat -> Fault, from: nat, base: Files, plans: seq<Plan>)
    requires Unchanged(base, plans, |plans|) && Clean(faultAt, from, 2 * |plans|)
    ensures var replacing := StopsAfter(faultAt, from, StagingOperations(base, plans));
      && StopsAfter(faultAt, from, ForwardOperations(base, plans)) == StopsAfter(faultAt, replacing, |plans|)
      && (Clean(faultAt, from, 3 * |plans|) <==> Clean(faultAt, replacing, |plans|))
  {
    StopsInParts(faultAt, from, 2 * |plans|, |plans|);
    StopsAtFirstFault(faultAt, from, 2 * |plans|, 2 * |plans|);
  }

  /** Once every staged file has been renamed none is left. */
  lemma AllRenamed(files: Files, base: Files, plans: seq<Plan>, temporary: nat -> string)
    requires Shape(files, base, plans, |plans|, Temporaries(temporary, |plans|))
    requires forall k: nat | k < |plans| :: temporary(k) !in files
    ensures files == Migrated(base, plans, |plans|)
  {
    assert files - Temporaries(temporary, |plans|) == files;
  }
}
