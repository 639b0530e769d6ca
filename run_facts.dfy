/**
 * What a whole run of `run_single` computes. When the map function emits
 * pairs that survive the record format and every reduction is a single
 * token, a run that finishes writes, as the final file, every key the map
 * jobs emitted, once each and in increasing order, with the reduction of all
 * its values; and `merge` never overwrites a key, because each key reaches
 * exactly one reduce job.
 */
module RunFacts {
  import opened Wrappers
  import opened Text
  import opened Ordered
  import opened Job
  import opened Splitter
  import opened SplitFacts
  import opened MapDriver
  import opened ReduceDriver
  import opened Merger
  import opened Coordinator

  /** The map function only emits pairs of tokens, which read back unchanged. */
  ghost predicate CleanMapper(mapper: string -> seq<KeyValue>)
  {
    forall content, i :: 0 <= i < |mapper(content)| ==> Clean(mapper(content)[i])
  }

  /** Every reduction that returns is a single token. */
  ghost predicate TokenReducer(reducer: (string, seq<string>) -> Option<string>)
  {
    forall k, vs :: reducer(k, vs).Some? ==> IsToken(reducer(k, vs).value)
  }

  /** Every pair the map jobs emit on the map inputs `texts`, map job by map job. */
  function AllPairs(mapper: string -> seq<KeyValue>, texts: seq<string>): seq<KeyValue>
  {
    if texts == [] then [] else AllPairs(mapper, texts[..|texts| - 1]) + mapper(texts[|texts| - 1])
  }

  /** No key occurs twice. */
  predicate DistinctKeys(kvs: seq<KeyValue>)
  {
    forall i, j :: 0 <= i < j < |kvs| ==> kvs[i].key != kvs[j].key
  }

  /** The result files of the reduce jobs read one after another. */
  function Flatten(outs: seq<seq<KeyValue>>): seq<KeyValue>
  {
    if outs == [] then [] else Flatten(outs[..|outs| - 1]) + outs[|outs| - 1]
  }

  lemma {:induction false} AllPairsClean(mapper: string -> seq<KeyValue>, texts: seq<string>)
    requires CleanMapper(mapper)
    ensures forall i :: 0 <= i < |AllPairs(mapper, texts)| ==> Clean(AllPairs(mapper, texts)[i])
  {
    if texts != [] {
      var init := AllPairs(mapper, texts[..|texts| - 1]);
      var more := mapper(texts[|texts| - 1]);
      AllPairsClean(mapper, texts[..|texts| - 1]);
      forall i | 0 <= i < |init + more| ensures Clean((init + more)[i]) {
        if i >= |init| {
          assert (init + more)[i] == more[i - |init|];
        }
      }
    }
  }

  /** Reading depends only on the files read. */
  lemma {:induction false} CollectSame(a: map<string, string>, b: map<string, string>, names: seq<string>)
    requires forall i :: 0 <= i < |names| ==> Same(a, b, names[i])
    ensures Collect(a, names) == Collect(b, names)
  {
    if names != [] {
      CollectSame(a, b, names[..|names| - 1]);
    }
  }

  /**
   * Reduce job `r` reads, from the files of map jobs 0 .. k-1, exactly the
   * pairs they emitted that hash to `r`, in map job order and then emission
   * order.
   */
  lemma {:induction false} GatherRead(s: map<string, string>, f: string, nreduce: nat, hash: string -> nat,
                                      mapper: string -> seq<KeyValue>, texts: seq<string>, r: nat, k: nat)
    requires nreduce > 0 && CleanMapper(mapper) && k <= |texts|
    requires forall m :: 0 <= m < k ==>
      ReduceName(f, m, r) in s && s[ReduceName(f, m, r)] == Serialize(Select(mapper(texts[m]), hash, nreduce, r))
    ensures Collect(s, GatherNames(f, r, k)) == Ok(Select(AllPairs(mapper, texts[..k]), hash, nreduce, r))
  {
    if k > 0 {
      GatherRead(s, f, nreduce, hash, mapper, texts, r, k - 1);
      var names := GatherNames(f, r, k);
      assert names[..k - 1] == GatherNames(f, r, k - 1);
      assert texts[..k][..k - 1] == texts[..k - 1];
      var kvs := mapper(texts[k - 1]);
      MapReadBack(kvs, hash, nreduce, r, names[k - 1]);
      SelectAppend(AllPairs(mapper, texts[..k - 1]), kvs, hash, nreduce, r);
    }
  }

  /** `merge` reads the result files 0 .. k-1 as their pairs one after another. */
  lemma {:induction false} MergeRead(s: map<string, string>, f: string, outs: seq<seq<KeyValue>>, k: nat)
    requires k <= |outs|
    requires forall r :: 0 <= r < k ==> MergeName(f, r) in s && s[MergeName(f, r)] == Serialize(outs[r])
    requires forall r, i :: 0 <= r < k && 0 <= i < |outs[r]| ==> Clean(outs[r][i])
    ensures Collect(s, MergeNames(f, k)) == Ok(Flatten(outs[..k]))
  {
    if k > 0 {
      MergeRead(s, f, outs, k - 1);
      var names := MergeNames(f, k);
      assert names[..k - 1] == MergeNames(f, k - 1);
      assert outs[..k][..k - 1] == outs[..k - 1];
      ParseSerialize(names[k - 1], outs[k - 1]);
    }
  }

  /** A pair is in the first `k` result files exactly when it is in the one of its bucket. */
  lemma {:induction false} FlattenMembers(outs: seq<seq<KeyValue>>, hash: string -> nat, n: nat, k: nat)
    requires n > 0 && k <= |outs|
    requires forall r, x :: 0 <= r < k && x in outs[r] ==> hash(x.key) % n == r
    ensures forall x :: x in Flatten(outs[..k]) <==> hash(x.key) % n < k && x in outs[hash(x.key) % n]
  {
    if k > 0 {
      FlattenMembers(outs, hash, n, k - 1);
      assert outs[..k][..k - 1] == outs[..k - 1];
    }
  }

  /** Result files with distinct keys and disjoint buckets read as pairs with distinct keys. */
  lemma {:induction false} FlattenDistinct(outs: seq<seq<KeyValue>>, hash: string -> nat, n: nat, k: nat)
    requires n > 0 && k <= |outs|
    requires forall r, x :: 0 <= r < k && x in outs[r] ==> hash(x.key) % n == r
    requires forall r :: 0 <= r < k ==> DistinctKeys(outs[r])
    ensures DistinctKeys(Flatten(outs[..k]))
  {
    if k > 0 {
      FlattenDistinct(outs, hash, n, k - 1);
      FlattenMembers(outs, hash, n, k - 1);
      assert outs[..k][..k - 1] == outs[..k - 1];
      var a: seq<KeyValue> := Flatten(outs[..k - 1]);
      var b: seq<KeyValue> := outs[k - 1];
      assert Flatten(outs[..k]) == a + b;
      forall i: int, j: int | 0 <= i < j < |a + b| ensures (a + b)[i].key != (a + b)[j].key {
        if j < |a| {
          assert (a + b)[i] == a[i] && (a + b)[j] == a[j];
        } else if i >= |a| {
          assert (a + b)[i] == b[i - |a|] && (a + b)[j] == b[j - |a|];
        } else {
          assert (a + b)[i] == a[i] && a[i] in a;
          assert (a + b)[j] == b[j - |a|] && b[j - |a|] in b;
        }
      }
    }
  }

  /** The values of a key that hashes to `r` all go to reduce job `r`, in order. */
  lemma {:induction false} ValuesForSelect(kvs: seq<KeyValue>, hash: string -> nat, n: nat, k: string)
    requires n > 0
    ensures ValuesFor(Select(kvs, hash, n, hash(k) % n), k) == ValuesFor(kvs, k)
  {
    if kvs != [] {
      var init := kvs[..|kvs| - 1];
      var x := kvs[|kvs| - 1];
      var r := hash(k) % n;
      ValuesForSelect(init, hash, n, k);
      var si := Select(init, hash, n, r);
      if hash(x.key) % n == r {
        assert Select(kvs, hash, n, r) == si + [x];
        assert (si + [x])[..|si|] == si;
      } else {
        assert x.key != k;
        assert ValuesFor(kvs, k) == ValuesFor(init, k) + [];
      }
    }
  }

  // ---------------------------------------------------------------------
  // The reduce loop

  /**
   * Reduce job `r` reads the intermediate files of `files`, none of its
   * reductions panics, and result file `r` in `s` holds the lines it writes.
   */
  predicate Reduced(files: map<string, string>, s: map<string, string>, f: string, nmap: nat,
                    reducer: (string, seq<string>) -> Option<string>, r: nat)
  {
    var c := Collect(files, GatherNames(f, r, nmap));
    c.Ok? && Emit(Group(c.value), reducer).failed.None? &&
    MergeName(f, r) in s && s[MergeName(f, r)] == Serialize(Emit(Group(c.value), reducer).out)
  }

  /** One reduce job writes its result file and no other file. */
  lemma ReducePhaseFrame(files: map<string, string>, f: string, job: nat, nmap: nat,
                         reducer: (string, seq<string>) -> Option<string>)
    ensures var s := ReducePhase(files, f, job, nmap, reducer);
      (s.outcome == Finished ==> Reduced(files, s.files, f, nmap, reducer, job)) &&
      (forall x :: x != MergeName(f, job) ==> Same(s.files, files, x))
  {
  }

  /** `x` is the result file of some reduce job `r < k`. */
  predicate IsResult(f: string, k: nat, x: string)
  {
    exists r :: 0 <= r < k && x == MergeName(f, r)
  }

  lemma ResultGrows(f: string, k: nat, x: string)
    requires k > 0
    ensures IsResult(f, k - 1, x) ==> IsResult(f, k, x)
    ensures x == MergeName(f, k - 1) ==> IsResult(f, k, x)
  {
    if IsResult(f, k - 1, x) {
      var r :| 0 <= r < k - 1 && x == MergeName(f, r);
      assert 0 <= r < k;
    }
  }

  /**
   * When reduce jobs 0 .. k-1 all return, each has read its files without
   * a panicking reduction and has written its result file; no file other
   * than the results of those jobs is touched either way.
   */
  lemma ReduceAllWrites(files: map<string, string>, f: string, nmap: nat,
                        reducer: (string, seq<string>) -> Option<string>, k: nat)
    ensures var s := ReduceAll(files, f, nmap, reducer, k);
      (s.outcome == Finished ==> forall r :: 0 <= r < k ==> Reduced(files, s.files, f, nmap, reducer, r)) &&
      (forall id: FileId :: !id.Partial? ==> Same(s.files, files, NameOf(f, id))) &&
      (forall x :: !IsResult(f, k, x) ==> Same(s.files, files, x))
  {
    ReduceAllFrame(files, f, nmap, reducer, k);
    ReduceAllOthers(files, f, nmap, reducer, k);
    if ReduceAll(files, f, nmap, reducer, k).outcome == Finished {
      ReduceAllResults(files, f, nmap, reducer, k);
    }
  }

  lemma {:induction false} ReduceAllFrame(files: map<string, string>, f: string, nmap: nat,
                                          reducer: (string, seq<string>) -> Option<string>, k: nat)
    ensures forall id: FileId :: !id.Partial? ==> Same(ReduceAll(files, f, nmap, reducer, k).files, files, NameOf(f, id))
  {
    if k > 0 {
      var s := ReduceAll(files, f, nmap, reducer, k - 1);
      ReduceAllFrame(files, f, nmap, reducer, k - 1);
      if s.outcome == Finished {
        var t := ReducePhase(s.files, f, k - 1, nmap, reducer);
        ReducePhaseFrame(s.files, f, k - 1, nmap, reducer);
        forall id: FileId | !id.Partial? ensures Same(t.files, files, NameOf(f, id)) {
          if NameOf(f, id) == MergeName(f, k - 1) {
            NamesDistinct(f, id, Partial(k - 1));
          }
        }
      }
    }
  }

  lemma {:induction false} ReduceAllOthers(files: map<string, string>, f: string, nmap: nat,
                                           reducer: (string, seq<string>) -> Option<string>, k: nat)
    ensures forall x :: !IsResult(f, k, x) ==> Same(ReduceAll(files, f, nmap, reducer, k).files, files, x)
  {
    if k > 0 {
      var s := ReduceAll(files, f, nmap, reducer, k - 1);
      ReduceAllOthers(files, f, nmap, reducer, k - 1);
      if s.outcome == Finished {
        var t := ReducePhase(s.files, f, k - 1, nmap, reducer);
        ReducePhaseFrame(s.files, f, k - 1, nmap, reducer);
        forall x | !IsResult(f, k, x) ensures Same(t.files, files, x) {
          ResultGrows(f, k, x);
          assert Same(t.files, s.files, x) && Same(s.files, files, x);
        }
      }
    }
  }

  lemma {:induction false} ReduceAllResults(files: map<string, string>, f: string, nmap: nat,
                                            reducer: (string, seq<string>) -> Option<string>, k: nat)
    requires ReduceAll(files, f, nmap, reducer, k).outcome == Finished
    ensures forall r :: 0 <= r < k ==> Reduced(files, ReduceAll(files, f, nmap, reducer, k).files, f, nmap, reducer, r)
  {
    if k > 0 {
      var s := ReduceAll(files, f, nmap, reducer, k - 1);
      assert s.outcome == Finished;
      ReduceAllResults(files, f, nmap, reducer, k - 1);
      ReduceAllFrame(files, f, nmap, reducer, k - 1);
      ReduceStep(files, s.files, f, nmap, reducer, k - 1);
      var t := ReducePhase(s.files, f, k - 1, nmap, reducer);
      ReducePhaseFrame(s.files, f, k - 1, nmap, reducer);
      forall r | 0 <= r < k - 1 ensures Reduced(files, t.files, f, nmap, reducer, r) {
        assert Reduced(files, s.files, f, nmap, reducer, r);
        if MergeName(f, r) == MergeName(f, k - 1) {
          NamesDistinct(f, Partial(r), Partial(k - 1));
        }
        assert Same(t.files, s.files, MergeName(f, r));
      }
    }
  }

  /** Reduce job `job` on a store whose intermediate files are those of `files`. */
  lemma ReduceStep(files: map<string, string>, before: map<string, string>, f: string, nmap: nat,
                   reducer: (string, seq<string>) -> Option<string>, job: nat)
    requires forall id: FileId :: !id.Partial? ==> Same(before, files, NameOf(f, id))
    ensures var s := ReducePhase(before, f, job, nmap, reducer);
      s.outcome == Finished ==> Reduced(files, s.files, f, nmap, reducer, job)
  {
    var names := GatherNames(f, job, nmap);
    forall i | 0 <= i < |names| ensures Same(before, files, names[i]) {
      assert names[i] == NameOf(f, Intermediate(i, job));
    }
    CollectSame(before, files, names);
    ReducePhaseFrame(before, f, job, nmap, reducer);
  }

  // ---------------------------------------------------------------------
  // From the reduce jobs to the final file

  /**
   * The lines reduce job `r` writes, when the map jobs emitted `kvs` in all
   * and none of its reductions panics: distinct keys, once each, all of
   * bucket `r`, each with the reduction of every value emitted for it.
   */
  lemma BucketOut(kvs: seq<KeyValue>, hash: string -> nat, n: nat, r: nat,
                  reducer: (string, seq<string>) -> Option<string>)
    requires n > 0 && TokenReducer(reducer)
    requires forall i :: 0 <= i < |kvs| ==> Clean(kvs[i])
    requires Emit(Group(Select(kvs, hash, n, r)), reducer).failed.None?
    ensures var out := Emit(Group(Select(kvs, hash, n, r)), reducer).out;
      DistinctKeys(out) && KeySet(out) == KeySet(Select(kvs, hash, n, r)) &&
      forall x :: x in out ==>
        hash(x.key) % n == r && Clean(x) && reducer(x.key, ValuesFor(kvs, x.key)) == Some(x.value)
  {
    var sel := Select(kvs, hash, n, r);
    var out := Emit(Group(sel), reducer).out;
    ReduceLines(sel, reducer);
    ReduceComplete(sel, reducer);
    forall i, j | 0 <= i < j < |out| ensures out[i].key != out[j].key {
      LessIrreflexive(out[i].key);
    }
    forall x | x in out
      ensures hash(x.key) % n == r && Clean(x) && reducer(x.key, ValuesFor(kvs, x.key)) == Some(x.value)
    {
      var i :| 0 <= i < |out| && out[i] == x;
      var j :| 0 <= j < |sel| && sel[j].key == x.key;
      SelectMembers(kvs, hash, n, r, sel[j]);
      var e :| 0 <= e < |kvs| && kvs[e] == sel[j];
      assert Clean(kvs[e]);
      ValuesForSelect(kvs, hash, n, x.key);
    }
  }

  /**
   * Result file `r` of store `s` holds the lines reduce job `r` writes when
   * the map jobs emitted `kvs` in all, with no reduction panicking.
   */
  ghost predicate BucketsWritten(s: map<string, string>, f: string, kvs: seq<KeyValue>, hash: string -> nat, n: nat,
                                 reducer: (string, seq<string>) -> Option<string>)
    requires n > 0
  {
    forall r :: 0 <= r < n ==>
      var e := Emit(Group(Select(kvs, hash, n, r)), reducer);
      e.failed.None? && MergeName(f, r) in s && s[MergeName(f, r)] == Serialize(e.out)
  }

  /** The keys `merge` reads are the keys the map jobs emitted. */
  lemma MergedKeys(kvs: seq<KeyValue>, hash: string -> nat, n: nat, outs: seq<seq<KeyValue>>)
    requires n > 0 && |outs| == n
    requires forall r :: 0 <= r < n ==> KeySet(outs[r]) == KeySet(Select(kvs, hash, n, r))
    requires forall x :: x in Flatten(outs) <==> hash(x.key) % n < n && x in outs[hash(x.key) % n]
    requires forall r, x :: 0 <= r < n && x in outs[r] ==> hash(x.key) % n == r
    ensures KeySet(Flatten(outs)) == KeySet(kvs)
  {
    var all := Flatten(outs);
    forall k | k in KeySet(all) ensures k in KeySet(kvs) {
      var i :| 0 <= i < |all| && all[i].key == k;
      var b := hash(k) % n;
      assert all[i] in outs[b];
      assert k in KeySet(outs[b]);
      var j :| 0 <= j < |Select(kvs, hash, n, b)| && Select(kvs, hash, n, b)[j].key == k;
      SelectMembers(kvs, hash, n, b, Select(kvs, hash, n, b)[j]);
    }
    forall k | k in KeySet(kvs) ensures k in KeySet(all) {
      var i :| 0 <= i < |kvs| && kvs[i].key == k;
      var b := hash(k) % n;
      SelectMembers(kvs, hash, n, b, kvs[i]);
      var sel := Select(kvs, hash, n, b);
      var j :| 0 <= j < |sel| && sel[j] == kvs[i];
      assert k in KeySet(sel);
      var x :| x in outs[b] && x.key == k by {
        var l :| 0 <= l < |outs[b]| && outs[b][l].key == k;
        assert outs[b][l] in outs[b];
      }
      var l :| 0 <= l < |all| && all[l] == x;
    }
  }

  /**
   * `merge` on the result files of one run: it reads pairs with distinct
   * keys, so nothing is overwritten, and writes every emitted key once, in
   * increasing order, with the reduction of all the values emitted for it.
   */
  lemma MergeResult(s: map<string, string>, f: string, kvs: seq<KeyValue>, hash: string -> nat, n: nat,
                    reducer: (string, seq<string>) -> Option<string>)
    requires n > 0 && TokenReducer(reducer)
    requires forall i :: 0 <= i < |kvs| ==> Clean(kvs[i])
    requires BucketsWritten(s, f, kvs, hash, n, reducer)
    ensures var c := Collect(s, MergeNames(f, n));
      c.Ok? && DistinctKeys(c.value) &&
      var out := Entries(Merged(c.value));
      MergePhase(s, f, n) == Step(Finished, s[FinalName(f) := Serialize(out)]) &&
      KeysIncreasing(out) && KeySet(out) == KeySet(kvs) &&
      forall i :: 0 <= i < |out| ==> reducer(out[i].key, ValuesFor(kvs, out[i].key)) == Some(out[i].value)
  {
    var outs := seq(n, r requires 0 <= r < n => Emit(Group(Select(kvs, hash, n, r)), reducer).out);
    forall r | 0 <= r < n
      ensures DistinctKeys(outs[r]) && KeySet(outs[r]) == KeySet(Select(kvs, hash, n, r))
      ensures forall x: KeyValue :: x in outs[r] ==>
        hash(x.key) % n == r && Clean(x) && reducer(x.key, ValuesFor(kvs, x.key)) == Some(x.value)
    {
      BucketOut(kvs, hash, n, r, reducer);
    }
    forall r, i | 0 <= r < n && 0 <= i < |outs[r]| ensures Clean(outs[r][i]) {
      assert outs[r][i] in outs[r];
    }
    MergeRead(s, f, outs, n);
    assert outs[..n] == outs;
    FlattenMembers(outs, hash, n, n);
    FlattenDistinct(outs, hash, n, n);
    var all := Flatten(outs);
    MergedKeys(kvs, hash, n, outs);
    MergeWrites(s, f, n, all);
    var out := Entries(Merged(all));
    forall i | 0 <= i < |out| ensures reducer(out[i].key, ValuesFor(kvs, out[i].key)) == Some(out[i].value) {
      LastValueIn(all, out[i].key);
      assert KeyValue(out[i].key, out[i].value) in all;
    }
  }

  // ---------------------------------------------------------------------
  // The whole run

  /** The file store once every reduce job has run, just before `merge`. */
  function ReduceStage(files: map<string, string>, f: string, nmap: nat, nreduce: nat,
                       hash: string -> nat, mapper: string -> seq<KeyValue>,
                       reducer: (string, seq<string>) -> Option<string>): Step
  {
    var s1 := SplitPhase(files, f, nmap);
    var s2 := MapAll(s1.files, f, nreduce, hash, mapper, nmap);
    ReduceAll(s2.files, f, nmap, reducer, nreduce)
  }

  /** The map inputs `split` writes for file `f`. */
  function SplitTexts(files: map<string, string>, f: string, nmap: nat): seq<string>
    requires f in files && nmap > 0
  {
    Chunks(Segments(files[f]), SplitTrace(files[f], nmap).closes)
  }

  /**
   * Once `split` and every map job have returned, intermediate file
   * `(m, r)` holds the records of the pairs map job `m` emitted on chunk
   * `m` that hash to `r`.
   */
  lemma AfterMap(files: map<string, string>, f: string, nmap: nat, nreduce: nat,
                 hash: string -> nat, mapper: string -> seq<KeyValue>)
    requires SplitPhase(files, f, nmap).outcome == Finished
    requires MapAll(SplitPhase(files, f, nmap).files, f, nreduce, hash, mapper, nmap).outcome == Finished
    ensures f in files && nmap > 0
    ensures var s2 := MapAll(SplitPhase(files, f, nmap).files, f, nreduce, hash, mapper, nmap).files;
      var texts := SplitTexts(files, f, nmap);
      |texts| == nmap &&
      forall m, r :: 0 <= m < nmap && 0 <= r < nreduce ==>
        ReduceName(f, m, r) in s2 && s2[ReduceName(f, m, r)] == Serialize(Select(mapper(texts[m]), hash, nreduce, r))
  {
    var s1 := SplitPhase(files, f, nmap);
    assert f in files && nmap > 0;
    SplitHangs(files[f], nmap);
    SplitWrites(files, f, nmap);
    MapAllWrites(s1.files, f, nreduce, hash, mapper, nmap);
  }

  /** Reduce job `r` of a finished run, on the pairs of all map jobs. */
  lemma BucketRead(s2: map<string, string>, s3: map<string, string>, f: string, nmap: nat, nreduce: nat,
                   hash: string -> nat, mapper: string -> seq<KeyValue>,
                   reducer: (string, seq<string>) -> Option<string>, texts: seq<string>, r: nat)
    requires CleanMapper(mapper) && r < nreduce && |texts| == nmap
    requires forall m :: 0 <= m < nmap ==>
      ReduceName(f, m, r) in s2 && s2[ReduceName(f, m, r)] == Serialize(Select(mapper(texts[m]), hash, nreduce, r))
    requires Reduced(s2, s3, f, nmap, reducer, r)
    ensures var e := Emit(Group(Select(AllPairs(mapper, texts), hash, nreduce, r)), reducer);
      e.failed.None? && MergeName(f, r) in s3 && s3[MergeName(f, r)] == Serialize(e.out)
  {
    GatherRead(s2, f, nreduce, hash, mapper, texts, r, nmap);
    assert texts[..nmap] == texts;
  }

  /**
   * A run that finishes has split its input without hanging, run every map
   * job on its chunk and every reduce job on the pairs emitted for it, and
   * ends with `merge` on the result files.
   */
  lemma Stages(files: map<string, string>, f: string, nmap: nat, nreduce: nat,
               hash: string -> nat, mapper: string -> seq<KeyValue>,
               reducer: (string, seq<string>) -> Option<string>)
    requires nreduce > 0 && CleanMapper(mapper)
    requires Pipeline(files, f, nmap, nreduce, hash, mapper, reducer).outcome == Finished
    ensures f in files && nmap > 0
    ensures var s3 := ReduceStage(files, f, nmap, nreduce, hash, mapper, reducer);
      Pipeline(files, f, nmap, nreduce, hash, mapper, reducer) == MergePhase(s3.files, f, nreduce) &&
      BucketsWritten(s3.files, f, AllPairs(mapper, SplitTexts(files, f, nmap)), hash, nreduce, reducer)
  {
    var s1 := SplitPhase(files, f, nmap);
    assert s1.outcome == Finished;
    var s2 := MapAll(s1.files, f, nreduce, hash, mapper, nmap);
    assert s2.outcome == Finished;
    AfterMap(files, f, nmap, nreduce, hash, mapper);
    var texts := SplitTexts(files, f, nmap);
    var s3 := ReduceAll(s2.files, f, nmap, reducer, nreduce);
    assert s3.outcome == Finished;
    ReduceAllWrites(s2.files, f, nmap, reducer, nreduce);
    forall r | 0 <= r < nreduce
      ensures var e := Emit(Group(Select(AllPairs(mapper, texts), hash, nreduce, r)), reducer);
        e.failed.None? && MergeName(f, r) in s3.files && s3.files[MergeName(f, r)] == Serialize(e.out)
    {
      BucketRead(s2.files, s3.files, f, nmap, nreduce, hash, mapper, reducer, texts, r);
    }
  }

  /**
   * Within one run `merge` never overwrites a key: every key reaches one
   * reduce job only, which writes it once, so the lines `merge` reads have
   * pairwise distinct keys.
   */
  lemma NoOverwrite(files: map<string, string>, f: string, nmap: nat, nreduce: nat,
                    hash: string -> nat, mapper: string -> seq<KeyValue>,
                    reducer: (string, seq<string>) -> Option<string>)
    requires nreduce > 0 && CleanMapper(mapper) && TokenReducer(reducer)
    requires Pipeline(files, f, nmap, nreduce, hash, mapper, reducer).outcome == Finished
    ensures var c := Collect(ReduceStage(files, f, nmap, nreduce, hash, mapper, reducer).files, MergeNames(f, nreduce));
      c.Ok? && DistinctKeys(c.value)
  {
    Stages(files, f, nmap, nreduce, hash, mapper, reducer);
    var all := AllPairs(mapper, SplitTexts(files, f, nmap));
    AllPairsClean(mapper, SplitTexts(files, f, nmap));
    MergeResult(ReduceStage(files, f, nmap, nreduce, hash, mapper, reducer).files, f, all, hash, nreduce, reducer);
  }

  /**
   * What a finished run computes: the final file lists every key the map
   * jobs emitted on the chunks of the input, once each and in strictly
   * increasing order, each with the reduction of all the values emitted for
   * it, in map job order and then emission order.
   */
  lemma RunSingleResult(files: map<string, string>, f: string, nmap: nat, nreduce: nat,
                        hash: string -> nat, mapper: string -> seq<KeyValue>,
                        reducer: (string, seq<string>) -> Option<string>)
    requires nreduce > 0 && CleanMapper(mapper) && TokenReducer(reducer)
    requires Pipeline(files, f, nmap, nreduce, hash, mapper, reducer).outcome == Finished
    ensures f in files && nmap > 0
    ensures var st := Pipeline(files, f, nmap, nreduce, hash, mapper, reducer);
      var all := AllPairs(mapper, SplitTexts(files, f, nmap));
      FinalName(f) in st.files &&
      exists out: seq<KeyValue> ::
        st.files[FinalName(f)] == Serialize(out) && KeysIncreasing(out) && KeySet(out) == KeySet(all) &&
        forall i :: 0 <= i < |out| ==> reducer(out[i].key, ValuesFor(all, out[i].key)) == Some(out[i].value)
  {
    Stages(files, f, nmap, nreduce, hash, mapper, reducer);
    var all := AllPairs(mapper, SplitTexts(files, f, nmap));
    AllPairsClean(mapper, SplitTexts(files, f, nmap));
    var s3 := ReduceStage(files, f, nmap, nreduce, hash, mapper, reducer).files;
    MergeResult(s3, f, all, hash, nreduce, reducer);
    var out := Entries(Merged(Collect(s3, MergeNames(f, nreduce)).value));
    assert Pipeline(files, f, nmap, nreduce, hash, mapper, reducer).files[FinalName(f)] == Serialize(out);
  }

  /** With no reduce jobs a finished run writes an empty final file. */
  lemma RunNoReducers(files: map<string, string>, f: string, nmap: nat,
                      hash: string -> nat, mapper: string -> seq<KeyValue>,
                      reducer: (string, seq<string>) -> Option<string>)
    requires Pipeline(files, f, nmap, 0, hash, mapper, reducer).outcome == Finished
    ensures var st := Pipeline(files, f, nmap, 0, hash, mapper, reducer);
      FinalName(f) in st.files && st.files[FinalName(f)] == ""
  {
    var s1 := SplitPhase(files, f, nmap);
    assert s1.outcome == Finished;
    var s2 := MapAll(s1.files, f, 0, hash, mapper, nmap);
    assert s2.outcome == Finished;
    assert MergeNames(f, 0) == [];
    assert Entries(Merged([])) == [];
  }
}
