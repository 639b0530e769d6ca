/**
 * `run_single`: split the input, run every map job, then every reduce job,
 * then merge; each phase starts only once the previous one has returned,
 * and a panic (or a split that never returns) ends the run there.
 */
module Coordinator {
  import opened Wrappers
  import opened Job
  import opened Splitter
  import opened MapDriver
  import opened ReduceDriver
  import opened Merger

  /** `for i in 0..k { do_map(i, ..) }`, stopping at the first panic. */
  function MapAll(files: map<string, string>, f: string, nreduce: nat,
                  hash: string -> nat, mapper: string -> seq<KeyValue>, k: nat): Step
  {
    if k == 0 then Step(Finished, files)
    else
      var s := MapAll(files, f, nreduce, hash, mapper, k - 1);
      if s.outcome != Finished then s else MapPhase(s.files, f, k - 1, nreduce, hash, mapper)
  }

  /** `for i in 0..k { do_reduce(i, ..) }`, stopping at the first panic. */
  function ReduceAll(files: map<string, string>, f: string, nmap: nat,
                     reducer: (string, seq<string>) -> Option<string>, k: nat): Step
  {
    if k == 0 then Step(Finished, files)
    else
      var s := ReduceAll(files, f, nmap, reducer, k - 1);
      if s.outcome != Finished then s else ReducePhase(s.files, f, k - 1, nmap, reducer)
  }

  /** The whole run, phase after phase. */
  function Pipeline(files: map<string, string>, f: string, nmap: nat, nreduce: nat,
                    hash: string -> nat, mapper: string -> seq<KeyValue>,
                    reducer: (string, seq<string>) -> Option<string>): Step
  {
    var s1 := SplitPhase(files, f, nmap);
    if s1.outcome != Finished then s1
    else
      var s2 := MapAll(s1.files, f, nreduce, hash, mapper, nmap);
      if s2.outcome != Finished then s2
      else
        var s3 := ReduceAll(s2.files, f, nmap, reducer, nreduce);
        if s3.outcome != Finished then s3
        else MergePhase(s3.files, f, nreduce)
  }

  lemma {:induction false} MapAllStops(files: map<string, string>, f: string, nreduce: nat,
                                       hash: string -> nat, mapper: string -> seq<KeyValue>, k: nat, n: nat)
    requires k <= n && MapAll(files, f, nreduce, hash, mapper, k).outcome != Finished
    ensures MapAll(files, f, nreduce, hash, mapper, n) == MapAll(files, f, nreduce, hash, mapper, k)
  {
    if k < n {
      MapAllStops(files, f, nreduce, hash, mapper, k, n - 1);
    }
  }

  lemma {:induction false} ReduceAllStops(files: map<string, string>, f: string, nmap: nat,
                                          reducer: (string, seq<string>) -> Option<string>, k: nat, n: nat)
    requires k <= n && ReduceAll(files, f, nmap, reducer, k).outcome != Finished
    ensures ReduceAll(files, f, nmap, reducer, n) == ReduceAll(files, f, nmap, reducer, k)
  {
    if k < n {
      ReduceAllStops(files, f, nmap, reducer, k, n - 1);
    }
  }

  method RunSingle(fs: FileStore, nmap: nat, nreduce: nat, f: string, hash: string -> nat,
                   mapper: string -> seq<KeyValue>, reducer: (string, seq<string>) -> Option<string>)
    returns (o: Outcome)
    modifies fs
    ensures Step(o, fs.files) == Pipeline(old(fs.files), f, nmap, nreduce, hash, mapper, reducer)
  {
    o := Split(fs, f, nmap);
    if o != Finished {
      return;
    }
    ghost var split := fs.files;
    for i := 0 to nmap
      invariant Step(Finished, fs.files) == MapAll(split, f, nreduce, hash, mapper, i)
    {
      o := DoMap(fs, i, f, nreduce, hash, mapper);
      if o != Finished {
        MapAllStops(split, f, nreduce, hash, mapper, i + 1, nmap);
        return;
      }
    }
    ghost var mapped := fs.files;
    for i := 0 to nreduce
      invariant Step(Finished, fs.files) == ReduceAll(mapped, f, nmap, reducer, i)
    {
      o := DoReduce(fs, i, f, nmap, reducer);
      if o != Finished {
        ReduceAllStops(mapped, f, nmap, reducer, i + 1, nreduce);
        return;
      }
    }
    o := Merge(fs, f, nreduce);
  }

  // ---------------------------------------------------------------------
  // What the map phase leaves behind

  /** File `x` is the same in both stores: absent from both, or present with equal contents. */
  predicate Same(a: map<string, string>, b: map<string, string>, x: string)
  {
    (x in a <==> x in b) && (x in a ==> a[x] == b[x])
  }

  /** A map job writes no file other than its own intermediate ones. */
  lemma NotSpread(f: string, job: nat, nreduce: nat, id: FileId)
    requires !(id.Intermediate? && id.m == job)
    ensures NameOf(f, id) !in SpreadNames(f, job, nreduce)
  {
    forall r | 0 <= r < nreduce ensures NameOf(f, id) != ReduceName(f, job, r) {
      if NameOf(f, id) == ReduceName(f, job, r) {
        NamesDistinct(f, id, Intermediate(job, r));
      }
    }
  }

  /** `x` is intermediate file `(m, r)` for some map job `m < k` and reduce job `r < nreduce`. */
  predicate IsSpread(f: string, k: nat, nreduce: nat, x: string)
  {
    exists m, r :: 0 <= m < k && 0 <= r < nreduce && x == ReduceName(f, m, r)
  }

  /** The intermediate files of map jobs below `k - 1`, and of map job `k - 1`, are those below `k`. */
  lemma SpreadGrows(f: string, k: nat, nreduce: nat, x: string)
    requires k > 0
    ensures IsSpread(f, k - 1, nreduce, x) ==> IsSpread(f, k, nreduce, x)
    ensures x in SpreadNames(f, k - 1, nreduce) ==> IsSpread(f, k, nreduce, x)
  {
    if IsSpread(f, k - 1, nreduce, x) {
      var m, r :| 0 <= m < k - 1 && 0 <= r < nreduce && x == ReduceName(f, m, r);
      assert 0 <= m < k;
    }
    if x in SpreadNames(f, k - 1, nreduce) {
      var r :| 0 <= r < nreduce && SpreadNames(f, k - 1, nreduce)[r] == x;
      assert x == ReduceName(f, k - 1, r);
    }
  }

  /** Intermediate file `(m, r)` of every map job `m < k` holds its share of map job `m`'s pairs. */
  predicate Mapped(files: map<string, string>, s: map<string, string>, f: string, nreduce: nat,
                   hash: string -> nat, mapper: string -> seq<KeyValue>, k: nat)
  {
    (forall m :: 0 <= m < k ==> MapName(f, m) in files) &&
    forall m, r :: 0 <= m < k && 0 <= r < nreduce ==>
      ReduceName(f, m, r) in s &&
      s[ReduceName(f, m, r)] == Serialize(Select(mapper(files[MapName(f, m)]), hash, nreduce, r))
  }

  /**
   * Map jobs 0 .. k-1 all return exactly when all their inputs exist, and
   * then every intermediate file holds its share of its map job's pairs;
   * otherwise the run stops at a map job whose input is missing. Either
   * way no file other than the intermediate files of those map jobs
   * changes: the input, the map inputs, the partial results, the final
   * result and every file unrelated to the job are untouched.
   */
  lemma {:induction false} MapAllWrites(files: map<string, string>, f: string, nreduce: nat,
                                        hash: string -> nat, mapper: string -> seq<KeyValue>, k: nat)
    ensures var s := MapAll(files, f, nreduce, hash, mapper, k);
      (s.outcome == Finished <==> forall m :: 0 <= m < k ==> MapName(f, m) in files) &&
      (s.outcome != Finished ==> exists m :: 0 <= m < k && s.outcome == Aborted(Missing(MapName(f, m)))) &&
      (s.outcome == Finished ==> Mapped(files, s.files, f, nreduce, hash, mapper, k)) &&
      (forall id: FileId :: !id.Intermediate? ==> Same(s.files, files, NameOf(f, id))) &&
      (forall x :: !IsSpread(f, k, nreduce, x) ==> Same(s.files, files, x))
  {
    if k > 0 {
      var s := MapAll(files, f, nreduce, hash, mapper, k - 1);
      MapAllWrites(files, f, nreduce, hash, mapper, k - 1);
      var job := k - 1;
      if s.outcome == Finished {
        assert Same(s.files, files, NameOf(f, MapInput(job)));
        if MapName(f, job) in files {
          MapStep(files, s.files, f, nreduce, hash, mapper, k);
        } else {
          assert MapAll(files, f, nreduce, hash, mapper, k).outcome == Aborted(Missing(MapName(f, job)));
        }
      }
    }
  }

  /** The induction step of `MapAllWrites`: map job `k - 1` runs on its intact input. */
  lemma MapStep(files: map<string, string>, before: map<string, string>, f: string, nreduce: nat,
                hash: string -> nat, mapper: string -> seq<KeyValue>, k: nat)
    requires k > 0 && MapName(f, k - 1) in files
    requires Mapped(files, before, f, nreduce, hash, mapper, k - 1)
    requires forall id: FileId :: !id.Intermediate? ==> Same(before, files, NameOf(f, id))
    requires forall x :: !IsSpread(f, k - 1, nreduce, x) ==> Same(before, files, x)
    ensures var s := MapPhase(before, f, k - 1, nreduce, hash, mapper);
      s.outcome == Finished && Mapped(files, s.files, f, nreduce, hash, mapper, k) &&
      (forall id: FileId :: !id.Intermediate? ==> Same(s.files, files, NameOf(f, id))) &&
      (forall x :: !IsSpread(f, k, nreduce, x) ==> Same(s.files, files, x))
  {
    var job := k - 1;
    assert Same(before, files, NameOf(f, MapInput(job)));
    var s := MapPhase(before, f, job, nreduce, hash, mapper);
    MapWrites(before, f, job, nreduce, hash, mapper);
    forall m, r | 0 <= m < job && 0 <= r < nreduce
      ensures ReduceName(f, m, r) in s.files && s.files[ReduceName(f, m, r)] == before[ReduceName(f, m, r)]
    {
      NotSpread(f, job, nreduce, Intermediate(m, r));
    }
    forall id: FileId | !id.Intermediate? ensures Same(s.files, files, NameOf(f, id)) {
      NotSpread(f, job, nreduce, id);
    }
    forall x | !IsSpread(f, k, nreduce, x) ensures Same(s.files, files, x) {
      SpreadGrows(f, k, nreduce, x);
      assert x !in SpreadNames(f, job, nreduce);
      assert Same(before, files, x);
    }
  }
}
