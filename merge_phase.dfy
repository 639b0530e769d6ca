/**
 * `merge`: read the results of all reduce jobs into one `BTreeMap`, a later
 * line overwriting an earlier one with the same key, and write the map out
 * in key order as the final result.
 */
module Merger {
  import opened Wrappers
  import opened Ordered
  import opened Job
  import opened Reading

  /** The `BTreeMap<String, String>` that `merge` fills. */
  type Table = seq<(string, string)>

  /** `hash.insert(k, v)` for one line read. */
  function Insert(t: Table, kv: KeyValue): Table
  {
    Put(t, kv.key, kv.value)
  }

  function Merged(kvs: seq<KeyValue>): Table
  {
    Fold(Insert, [], kvs)
  }

  /** The value of the last pair read with key `k`. */
  function LastValue(kvs: seq<KeyValue>, k: string): Option<string>
  {
    if kvs == [] then None
    else if kvs[|kvs| - 1].key == k then Some(kvs[|kvs| - 1].value)
    else LastValue(kvs[..|kvs| - 1], k)
  }

  lemma {:induction false} LastValueFound(kvs: seq<KeyValue>, k: string)
    ensures LastValue(kvs, k).Some? <==> k in KeySet(kvs)
  {
    if kvs != [] {
      var init := kvs[..|kvs| - 1];
      KeySetSnoc(init, kvs[|kvs| - 1]);
      assert kvs == init + [kvs[|kvs| - 1]];
      LastValueFound(init, k);
    }
  }

  /** A value found for `k` is the value of some pair read with key `k`. */
  lemma {:induction false} LastValueIn(kvs: seq<KeyValue>, k: string)
    requires LastValue(kvs, k).Some?
    ensures KeyValue(k, LastValue(kvs, k).value) in kvs
  {
    var init := kvs[..|kvs| - 1];
    if kvs[|kvs| - 1].key != k {
      LastValueIn(init, k);
      assert forall x :: x in init ==> x in kvs;
    }
  }

  /** The last write wins: the table holds, for each key, its last value read. */
  lemma {:induction false} MergedGet(kvs: seq<KeyValue>, k: string)
    ensures Get(Merged(kvs), k) == LastValue(kvs, k)
  {
    if kvs != [] {
      var init := kvs[..|kvs| - 1];
      MergedGet(init, k);
      assert Merged(kvs) == Insert(Merged(init), kvs[|kvs| - 1]);
    }
  }

  lemma {:induction false} MergedSorted(kvs: seq<KeyValue>)
    ensures Sorted(Merged(kvs))
  {
    if kvs != [] {
      var init := kvs[..|kvs| - 1];
      var x := kvs[|kvs| - 1];
      MergedSorted(init);
      PutSorted(Merged(init), x.key, x.value);
      assert Merged(kvs) == Put(Merged(init), x.key, x.value);
    }
  }

  /** The table as the pairs its iteration writes. */
  function Entries(t: Table): (out: seq<KeyValue>)
    ensures |out| == |t| && forall i :: 0 <= i < |t| ==> out[i] == KeyValue(t[i].0, t[i].1)
  {
    seq(|t|, i requires 0 <= i < |t| => KeyValue(t[i].0, t[i].1))
  }

  /** What `merge` does: panic on a missing or short-lined result, else write the final file. */
  function MergePhase(files: map<string, string>, f: string, nreduce: nat): Step
  {
    match Collect(files, MergeNames(f, nreduce))
    case Err(e) => Step(Aborted(e), files)
    case Ok(kvs) => Step(Finished, files[FinalName(f) := Serialize(Entries(Merged(kvs)))])
  }

  /** `for (k, v) in hash.iter() { write!(buf, "{} {}\n", k, v) }`. */
  method WriteTable(t: Table) returns (text: string)
    ensures text == Serialize(Entries(t))
  {
    text := "";
    for i := 0 to |t|
      invariant text == Serialize(Entries(t[..i]))
    {
      var line := KeyValue(t[i].0, t[i].1);
      assert Entries(t[..i + 1]) == Entries(t[..i]) + [line];
      SerializeSnoc(Entries(t[..i]), line);
      text := text + Record(line);
    }
    assert t[..|t|] == t;
  }

  method Merge(fs: FileStore, f: string, nreduce: nat) returns (o: Outcome)
    modifies fs
    ensures Step(o, fs.files) == MergePhase(old(fs.files), f, nreduce)
  {
    var t := FoldFiles(fs, MergeNames(f, nreduce), Insert, []);
    if t.Err? {
      return Aborted(t.fault);
    }
    var text := WriteTable(t.value);
    fs.files := fs.files[FinalName(f) := text];
    return Finished;
  }

  /**
   * Once every result file reads as `kvs` (reduce jobs in index order,
   * then line order), the final file lists every key read exactly once, in
   * strictly increasing order, each with the value of its last occurrence.
   */
  lemma MergeWrites(files: map<string, string>, f: string, nreduce: nat, kvs: seq<KeyValue>)
    requires Collect(files, MergeNames(f, nreduce)) == Ok(kvs)
    ensures var st := MergePhase(files, f, nreduce);
      var out := Entries(Merged(kvs));
      st == Step(Finished, files[FinalName(f) := Serialize(out)]) &&
      KeysIncreasing(out) && KeySet(out) == KeySet(kvs) &&
      forall i :: 0 <= i < |out| ==> LastValue(kvs, out[i].key) == Some(out[i].value)
  {
    var t := Merged(kvs);
    var out := Entries(t);
    MergedSorted(kvs);
    forall i | 0 <= i < |out| ensures LastValue(kvs, out[i].key) == Some(out[i].value) {
      GetSorted(t, i);
      MergedGet(kvs, t[i].0);
    }
    forall k ensures k in KeySet(out) <==> k in KeySet(kvs) {
      MergedGet(kvs, k);
      LastValueFound(kvs, k);
      if k in Keys(t) {
        var i :| 0 <= i < |t| && t[i].0 == k;
        assert out[i].key == k;
      }
      if k in KeySet(out) {
        var i :| 0 <= i < |out| && out[i].key == k;
        assert t[i].0 == k;
      }
    }
  }

  /**
   * When no key is read twice nothing is overwritten: each key's value is
   * the one value read for it.
   */
  lemma {:induction false} LastValueUnique(kvs: seq<KeyValue>, i: nat)
    requires i < |kvs| && forall j :: 0 <= j < |kvs| && j != i ==> kvs[j].key != kvs[i].key
    ensures LastValue(kvs, kvs[i].key) == Some(kvs[i].value)
  {
    if i < |kvs| - 1 {
      var init := kvs[..|kvs| - 1];
      assert init[i] == kvs[i];
      LastValueUnique(init, i);
    }
  }
}
