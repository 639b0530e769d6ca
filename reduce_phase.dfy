/**
 * `do_reduce`: gather the pairs bound for one reduce job from every map
 * job's intermediate file, group their values by key in a `BTreeMap`, and
 * write one `key reduce(key, values)` line per key in key order.
 */
module ReduceDriver {
  import opened Wrappers
  import opened Ordered
  import opened Job
  import opened Reading

  /** The `BTreeMap<String, Vec<String>>` that `do_reduce` fills. */
  type Groups = seq<(string, seq<string>)>

  /** One line read: push the value onto its key's list, or insert a list of one. */
  function Add(g: Groups, kv: KeyValue): Groups
  {
    match Get(g, kv.key)
    case Some(vs) => Put(g, kv.key, vs + [kv.value])
    case None => Put(g, kv.key, [kv.value])
  }

  function Group(kvs: seq<KeyValue>): Groups
  {
    Fold(Add, [], kvs)
  }

  /** The values read for key `k`, in reading order. */
  function ValuesFor(kvs: seq<KeyValue>, k: string): seq<string>
  {
    if kvs == [] then []
    else
      var last := kvs[|kvs| - 1];
      ValuesFor(kvs[..|kvs| - 1], k) + (if last.key == k then [last.value] else [])
  }

  lemma {:induction false} ValuesForAbsent(kvs: seq<KeyValue>, k: string)
    requires k !in KeySet(kvs)
    ensures ValuesFor(kvs, k) == []
  {
    if kvs != [] {
      var init := kvs[..|kvs| - 1];
      KeySetSnoc(init, kvs[|kvs| - 1]);
      assert kvs == init + [kvs[|kvs| - 1]];
      ValuesForAbsent(init, k);
    }
  }

  /**
   * Grouping collects, for every key read, the list of all its values in
   * reading order, and has no entry for any other key.
   */
  lemma {:induction false} GroupGet(kvs: seq<KeyValue>, k: string)
    ensures Get(Group(kvs), k) == if k in KeySet(kvs) then Some(ValuesFor(kvs, k)) else None
  {
    if kvs != [] {
      var init := kvs[..|kvs| - 1];
      var x := kvs[|kvs| - 1];
      assert kvs == init + [x];
      GroupGet(init, k);
      KeySetSnoc(init, x);
      if k !in KeySet(init) {
        ValuesForAbsent(init, k);
      }
      AddGet(Group(init), x, k);
      assert Group(kvs) == Add(Group(init), x);
      if x.key == k {
        assert ValuesFor(kvs, k) == ValuesFor(init, k) + [x.value];
      } else {
        assert ValuesFor(kvs, k) == ValuesFor(init, k) + [];
        assert ValuesFor(init, k) + [] == ValuesFor(init, k);
      }
    }
  }

  /** What one line does to the list of key `k`. */
  lemma AddGet(g: Groups, x: KeyValue, k: string)
    ensures Get(Add(g, x), k) ==
      if k != x.key then Get(g, k)
      else Some((if Get(g, k).Some? then Get(g, k).value else []) + [x.value])
  {
    if Get(g, x.key).None? {
      assert [] + [x.value] == [x.value];
    }
  }

  /** The map iterates in strictly increasing key order. */
  lemma {:induction false} GroupSorted(kvs: seq<KeyValue>)
    ensures Sorted(Group(kvs))
  {
    if kvs != [] {
      var init := kvs[..|kvs| - 1];
      var x := kvs[|kvs| - 1];
      GroupSorted(init);
      var g := Group(init);
      match Get(g, x.key)
      case Some(vs) => PutSorted(g, x.key, vs + [x.value]);
      case None => PutSorted(g, x.key, [x.value]);
    }
  }

  /** Entry `i` of the grouping is some key read together with all its values. */
  lemma GroupEntry(kvs: seq<KeyValue>, i: nat)
    requires i < |Group(kvs)|
    ensures Group(kvs)[i].0 in KeySet(kvs) && Group(kvs)[i].1 == ValuesFor(kvs, Group(kvs)[i].0)
  {
    var g := Group(kvs);
    GroupSorted(kvs);
    GetSorted(g, i);
    GroupGet(kvs, g[i].0);
  }

  /** One entry per key read. */
  lemma GroupSize(kvs: seq<KeyValue>)
    ensures Keys(Group(kvs)) == KeySet(kvs) && |Group(kvs)| == |KeySet(kvs)|
  {
    var g := Group(kvs);
    forall k ensures k in Keys(g) <==> k in KeySet(kvs) {
      GroupGet(kvs, k);
    }
    GroupSorted(kvs);
    SortedKeysCount(g);
  }

  // ---------------------------------------------------------------------
  // Writing the result

  /** The lines written so far, and the key whose reduction panicked, if any. */
  datatype Emitted = Emitted(out: seq<KeyValue>, failed: Option<string>)

  /**
   * `for (k, v) in hash.iter()`: reduce every entry in order, stopping at
   * the first entry whose reduction panics.
   */
  function Emit(g: Groups, reducer: (string, seq<string>) -> Option<string>): Emitted
  {
    if g == [] then Emitted([], None)
    else
      var e := Emit(g[..|g| - 1], reducer);
      var last := g[|g| - 1];
      if e.failed.Some? then e
      else
        match reducer(last.0, last.1)
        case None => Emitted(e.out, Some(last.0))
        case Some(v) => Emitted(e.out + [KeyValue(last.0, v)], None)
  }

  /** Once a prefix panics, the rest of the entries are never reduced. */
  lemma {:induction false} EmitStops(g: Groups, reducer: (string, seq<string>) -> Option<string>, k: nat)
    requires k <= |g| && Emit(g[..k], reducer).failed.Some?
    ensures Emit(g, reducer) == Emit(g[..k], reducer)
    decreases |g|
  {
    if k < |g| {
      assert g[..|g| - 1][..k] == g[..k];
      EmitStops(g[..|g| - 1], reducer, k);
    } else {
      assert g[..k] == g;
    }
  }

  /**
   * Line `i` holds entry `i`'s key and its reduction; the lines stop short
   * exactly when some reduction panics, and then at the first such entry.
   */
  lemma {:induction false} EmitShape(g: Groups, reducer: (string, seq<string>) -> Option<string>)
    ensures var e := Emit(g, reducer);
      |e.out| <= |g| &&
      (forall i :: 0 <= i < |e.out| ==> e.out[i].key == g[i].0 && reducer(g[i].0, g[i].1) == Some(e.out[i].value)) &&
      (e.failed.None? <==> |e.out| == |g|) &&
      (e.failed.Some? ==> e.failed.value == g[|e.out|].0 && reducer(g[|e.out|].0, g[|e.out|].1).None?)
  {
    if g != [] {
      var init := g[..|g| - 1];
      EmitShape(init, reducer);
      assert forall i :: 0 <= i < |init| ==> init[i] == g[i];
    }
  }

  /** The inner loop of the writing phase, on the `BufWriter`'s contents. */
  method EmitText(g: Groups, reducer: (string, seq<string>) -> Option<string>) returns (text: string, failed: Option<string>)
    ensures text == Serialize(Emit(g, reducer).out) && failed == Emit(g, reducer).failed
  {
    text := "";
    ghost var out: seq<KeyValue> := [];
    for k := 0 to |g|
      invariant Emit(g[..k], reducer) == Emitted(out, None)
      invariant text == Serialize(out)
    {
      assert g[..k + 1][..k] == g[..k];
      var r := reducer(g[k].0, g[k].1);
      if r.None? {
        EmitStops(g, reducer, k + 1);
        return text, Some(g[k].0);
      }
      var line := KeyValue(g[k].0, r.value);
      SerializeSnoc(out, line);
      text := text + Record(line);
      out := out + [line];
    }
    assert g[..|g|] == g;
    return text, None;
  }

  // ---------------------------------------------------------------------
  // The phase

  /**
   * What `do_reduce` for reduce job `job` does to the file store. A missing
   * intermediate file or a short line panics before the result file is
   * created; once it is created, a panicking reduction leaves the lines
   * before it in the file (unwinding flushes the `BufWriter`).
   */
  function ReducePhase(files: map<string, string>, f: string, job: nat, nmap: nat,
                       reducer: (string, seq<string>) -> Option<string>): Step
  {
    match Collect(files, GatherNames(f, job, nmap))
    case Err(e) => Step(Aborted(e), files)
    case Ok(kvs) =>
      var e := Emit(Group(kvs), reducer);
      var written := files[MergeName(f, job) := Serialize(e.out)];
      if e.failed.Some? then Step(Aborted(ReducerPanic(e.failed.value)), written)
      else Step(Finished, written)
  }

  method DoReduce(fs: FileStore, job: nat, f: string, nmap: nat,
                  reducer: (string, seq<string>) -> Option<string>) returns (o: Outcome)
    modifies fs
    ensures Step(o, fs.files) == ReducePhase(old(fs.files), f, job, nmap, reducer)
  {
    var g := FoldFiles(fs, GatherNames(f, job, nmap), Add, []);
    if g.Err? {
      return Aborted(g.fault);
    }
    var text, failed := EmitText(g.value, reducer);
    fs.files := fs.files[MergeName(f, job) := text];
    if failed.Some? {
      return Aborted(ReducerPanic(failed.value));
    }
    return Finished;
  }

  /**
   * Line `i` of the result is a key read together with the reduction of all
   * its values, and the keys increase strictly from line to line.
   */
  lemma ReduceLines(kvs: seq<KeyValue>, reducer: (string, seq<string>) -> Option<string>)
    ensures var out := Emit(Group(kvs), reducer).out;
      KeysIncreasing(out) &&
      forall i :: 0 <= i < |out| ==>
        out[i].key in KeySet(kvs) && reducer(out[i].key, ValuesFor(kvs, out[i].key)) == Some(out[i].value)
  {
    var g := Group(kvs);
    var out := Emit(g, reducer).out;
    EmitShape(g, reducer);
    GroupSorted(kvs);
    forall i | 0 <= i < |out|
      ensures out[i].key in KeySet(kvs) && reducer(out[i].key, ValuesFor(kvs, out[i].key)) == Some(out[i].value)
    {
      GroupEntry(kvs, i);
    }
    forall i, j | 0 <= i < j < |out| ensures Less(out[i].key, out[j].key) {
      assert out[i].key == g[i].0 && out[j].key == g[j].0;
    }
  }

  /** Every key read has an entry in the grouping. */
  lemma GroupHas(kvs: seq<KeyValue>, k: string) returns (i: nat)
    requires k in KeySet(kvs)
    ensures i < |Group(kvs)| && Group(kvs)[i].0 == k
  {
    GroupSize(kvs);
    assert k in Keys(Group(kvs));
    i :| 0 <= i < |Group(kvs)| && Group(kvs)[i].0 == k;
  }

  /**
   * Writing completes exactly when no key's reduction panics, and then
   * every key read is written.
   */
  lemma ReduceComplete(kvs: seq<KeyValue>, reducer: (string, seq<string>) -> Option<string>)
    ensures var e := Emit(Group(kvs), reducer);
      (e.failed.None? <==> forall k :: k in KeySet(kvs) ==> reducer(k, ValuesFor(kvs, k)).Some?) &&
      (e.failed.None? ==> KeySet(e.out) == KeySet(kvs))
  {
    var g := Group(kvs);
    var e := Emit(g, reducer);
    EmitShape(g, reducer);
    ReduceLines(kvs, reducer);
    if e.failed.None? {
      forall k | k in KeySet(kvs) ensures reducer(k, ValuesFor(kvs, k)).Some? && k in KeySet(e.out) {
        var i := GroupHas(kvs, k);
        assert e.out[i].key == k;
      }
    } else {
      var n := |e.out|;
      GroupEntry(kvs, n);
    }
  }

  /**
   * A panicking reduction stops writing at the least key whose reduction
   * panics: every smaller key has been written.
   */
  lemma ReduceFirstPanic(kvs: seq<KeyValue>, reducer: (string, seq<string>) -> Option<string>)
    requires Emit(Group(kvs), reducer).failed.Some?
    ensures var e := Emit(Group(kvs), reducer); var k := e.failed.value;
      k in KeySet(kvs) && reducer(k, ValuesFor(kvs, k)).None? &&
      forall x :: x in KeySet(kvs) && Less(x, k) ==> x in KeySet(e.out)
  {
    var g := Group(kvs);
    var e := Emit(g, reducer);
    EmitShape(g, reducer);
    GroupSorted(kvs);
    var n := |e.out|;
    var k := g[n].0;
    GroupEntry(kvs, n);
    forall x | x in KeySet(kvs) && Less(x, k) ensures x in KeySet(e.out) {
      var i := GroupHas(kvs, x);
      SortedIndex(g, i, n);
      assert e.out[i].key == x;
    }
  }

  /**
   * The phase, once every intermediate file is present and well formed
   * (read as `kvs`: map jobs in index order, then line order): it writes
   * the lines `ReduceLines` describes and ends as `ReduceComplete` and
   * `ReduceFirstPanic` say.
   */
  lemma ReduceWrites(files: map<string, string>, f: string, job: nat, nmap: nat,
                     reducer: (string, seq<string>) -> Option<string>, kvs: seq<KeyValue>)
    requires Collect(files, GatherNames(f, job, nmap)) == Ok(kvs)
    ensures var st := ReducePhase(files, f, job, nmap, reducer);
      var e := Emit(Group(kvs), reducer);
      st.files == files[MergeName(f, job) := Serialize(e.out)] &&
      (st.outcome == Finished <==> forall k :: k in KeySet(kvs) ==> reducer(k, ValuesFor(kvs, k)).Some?) &&
      (st.outcome != Finished ==> st.outcome == Aborted(ReducerPanic(e.failed.value)) && e.failed.value in KeySet(kvs))
  {
    ReduceComplete(kvs, reducer);
    if Emit(Group(kvs), reducer).failed.Some? {
      ReduceFirstPanic(kvs, reducer);
    }
  }

  /** The phase panics, leaving the store untouched, exactly when reading fails. */
  lemma ReduceReadFails(files: map<string, string>, f: string, job: nat, nmap: nat,
                        reducer: (string, seq<string>) -> Option<string>)
    requires Collect(files, GatherNames(f, job, nmap)).Err?
    ensures ReducePhase(files, f, job, nmap, reducer) ==
      Step(Aborted(Collect(files, GatherNames(f, job, nmap)).fault), files)
  {
  }
}
