/**
 * `do_map`: run the user's map function on one map input and spread its
 * pairs over `nreduce` intermediate files by `hash(key) % nreduce`.
 */
module MapDriver {
  import opened Text
  import opened Job

  /** The pairs of `kvs` that go to reduce job `r`, in emission order. */
  function Select(kvs: seq<KeyValue>, hash: string -> nat, n: nat, r: nat): seq<KeyValue>
    requires n > 0
  {
    if kvs == [] then []
    else
      var rest := Select(kvs[..|kvs| - 1], hash, n, r);
      var kv := kvs[|kvs| - 1];
      if hash(kv.key) % n == r then rest + [kv] else rest
  }

  /** What intermediate file `r` holds, for every reduce job `r < n`. */
  function Parts(kvs: seq<KeyValue>, hash: string -> nat, n: nat): (ps: seq<string>)
    ensures |ps| == n && forall r :: 0 <= r < n ==> ps[r] == Serialize(Select(kvs, hash, n, r))
  {
    seq(n, r requires 0 <= r < n => Serialize(Select(kvs, hash, n, r)))
  }

  /**
   * What `do_map` for map job `job` does to the file store: panic when its
   * input is missing, and otherwise write the `nreduce` intermediate files.
   */
  function MapPhase(files: map<string, string>, f: string, job: nat, nreduce: nat,
                    hash: string -> nat, mapper: string -> seq<KeyValue>): Step
  {
    var name := MapName(f, job);
    if name !in files then Step(Aborted(Missing(name)), files)
    else Step(Finished, WriteAll(files, SpreadNames(f, job, nreduce), Parts(mapper(files[name]), hash, nreduce)))
  }

  /**
   * The inner loop of `do_map`: the records, in emission order, of the
   * pairs that hash to reduce job `r`.
   */
  method BucketText(res: seq<KeyValue>, hash: string -> nat, nreduce: nat, r: nat) returns (out: string)
    requires nreduce > 0
    ensures out == Serialize(Select(res, hash, nreduce, r))
  {
    out := "";
    for k := 0 to |res|
      invariant out == Serialize(Select(res[..k], hash, nreduce, r))
    {
      var kv := res[k];
      assert res[..k + 1][..k] == res[..k];
      if hash(kv.key) % nreduce == r {
        SerializeSnoc(Select(res[..k], hash, nreduce, r), kv);
        out := out + Record(kv);
      }
    }
    assert res[..|res|] == res;
  }

  method DoMap(fs: FileStore, job: nat, f: string, nreduce: nat,
               hash: string -> nat, mapper: string -> seq<KeyValue>) returns (o: Outcome)
    modifies fs
    ensures Step(o, fs.files) == MapPhase(old(fs.files), f, job, nreduce, hash, mapper)
  {
    var name := MapName(f, job);
    if name !in fs.files {
      return Aborted(Missing(name));
    }
    var res := mapper(fs.files[name]);
    ghost var files0 := fs.files;
    ghost var names := SpreadNames(f, job, nreduce);
    ghost var parts := Parts(res, hash, nreduce);
    for r := 0 to nreduce
      invariant fs.files == WriteAll(files0, names[..r], parts[..r])
    {
      var out := BucketText(res, hash, nreduce, r);
      WriteAllSnoc(files0, names[..r], parts[..r], names[r], parts[r]);
      assert names[..r + 1] == names[..r] + [names[r]];
      assert parts[..r + 1] == parts[..r] + [parts[r]];
      fs.files := fs.files[ReduceName(f, job, r) := out];
    }
    assert names[..nreduce] == names && parts[..nreduce] == parts;
    return Finished;
  }

  // ---------------------------------------------------------------------
  // The partition

  /** A pair goes to reduce job `r` exactly when it was emitted and hashes to `r`. */
  lemma {:induction false} SelectMembers(kvs: seq<KeyValue>, hash: string -> nat, n: nat, r: nat, x: KeyValue)
    requires n > 0
    ensures x in Select(kvs, hash, n, r) <==> x in kvs && hash(x.key) % n == r
  {
    if kvs != [] {
      var init := kvs[..|kvs| - 1];
      SelectMembers(init, hash, n, r, x);
      assert kvs == init + [kvs[|kvs| - 1]];
    }
  }

  /** Each emitted pair lands in the file of its bucket and in no other. */
  lemma SelectExactlyOne(kvs: seq<KeyValue>, hash: string -> nat, n: nat, i: nat)
    requires n > 0 && i < |kvs|
    ensures var b := hash(kvs[i].key) % n;
      b < n && kvs[i] in Select(kvs, hash, n, b) &&
      forall r :: r != b ==> kvs[i] !in Select(kvs, hash, n, r)
  {
    var b := hash(kvs[i].key) % n;
    SelectMembers(kvs, hash, n, b, kvs[i]);
    forall r | r != b ensures kvs[i] !in Select(kvs, hash, n, r) {
      SelectMembers(kvs, hash, n, r, kvs[i]);
    }
  }

  /** Selection keeps emission order: it distributes over concatenation. */
  lemma {:induction false} SelectAppend(a: seq<KeyValue>, b: seq<KeyValue>, hash: string -> nat, n: nat, r: nat)
    requires n > 0
    ensures Select(a + b, hash, n, r) == Select(a, hash, n, r) + Select(b, hash, n, r)
    decreases |b|
  {
    if b == [] {
      assert a + b == a;
    } else {
      var init := b[..|b| - 1];
      SelectAppend(a, init, hash, n, r);
      assert (a + b)[..|a + b| - 1] == a + init;
    }
  }

  /** The files of reduce jobs 0 .. k-1, in index order, as one sequence of pairs. */
  function Gather(kvs: seq<KeyValue>, hash: string -> nat, n: nat, k: nat): seq<KeyValue>
    requires n > 0
  {
    if k == 0 then [] else Gather(kvs, hash, n, k - 1) + Select(kvs, hash, n, k - 1)
  }

  lemma {:induction false} GatherSnoc(kvs: seq<KeyValue>, x: KeyValue, hash: string -> nat, n: nat, k: nat)
    requires n > 0
    ensures multiset(Gather(kvs + [x], hash, n, k)) ==
      multiset(Gather(kvs, hash, n, k)) + (if hash(x.key) % n < k then multiset{x} else multiset{})
  {
    if k > 0 {
      GatherSnoc(kvs, x, hash, n, k - 1);
      assert (kvs + [x])[..|kvs|] == kvs;
    }
  }

  /**
   * Completeness and disjointness together: over all `n` files every
   * emitted pair occurs exactly as often as it was emitted.
   */
  lemma {:induction false} GatherAll(kvs: seq<KeyValue>, hash: string -> nat, n: nat)
    requires n > 0
    ensures multiset(Gather(kvs, hash, n, n)) == multiset(kvs)
    decreases |kvs|
  {
    if kvs != [] {
      var init := kvs[..|kvs| - 1];
      var x := kvs[|kvs| - 1];
      GatherAll(init, hash, n);
      assert kvs == init + [x];
      GatherSnoc(init, x, hash, n, n);
    } else {
      GatherEmpty(hash, n, n);
    }
  }

  lemma {:induction false} GatherEmpty(hash: string -> nat, n: nat, k: nat)
    requires n > 0
    ensures Gather([], hash, n, k) == []
  {
    if k > 0 {
      GatherEmpty(hash, n, k - 1);
    }
  }

  // ---------------------------------------------------------------------
  // The files written

  /**
   * When `do_map` finds its input, intermediate file `r` of that map job
   * holds the `"key value\n"` record of every pair bound for reduce job `r`,
   * in emission order, and no other file changes.
   */
  lemma MapWrites(files: map<string, string>, f: string, job: nat, nreduce: nat,
                  hash: string -> nat, mapper: string -> seq<KeyValue>)
    requires MapName(f, job) in files
    ensures var st := MapPhase(files, f, job, nreduce, hash, mapper);
      var res := mapper(files[MapName(f, job)]);
      st.outcome == Finished &&
      (forall r :: 0 <= r < nreduce ==>
        ReduceName(f, job, r) in st.files && st.files[ReduceName(f, job, r)] == Serialize(Select(res, hash, nreduce, r))) &&
      (forall x :: x !in SpreadNames(f, job, nreduce) ==>
        (x in st.files <==> x in files) && (x in files ==> st.files[x] == files[x]))
  {
    var res := mapper(files[MapName(f, job)]);
    SpreadNamesDistinct(f, job, nreduce);
    WriteAllGet(files, SpreadNames(f, job, nreduce), Parts(res, hash, nreduce));
  }

  /** With no reduce jobs `do_map` writes nothing at all. */
  lemma MapNoReducers(files: map<string, string>, f: string, job: nat,
                      hash: string -> nat, mapper: string -> seq<KeyValue>)
    requires MapName(f, job) in files
    ensures MapPhase(files, f, job, 0, hash, mapper) == Step(Finished, files)
  {
    assert SpreadNames(f, job, 0) == [];
  }

  /**
   * Read back as `do_reduce` reads it, intermediate file `r` yields exactly
   * the pairs bound for `r` when the map function emits clean pairs (keys
   * and values that are non-empty and free of whitespace).
   */
  lemma MapReadBack(kvs: seq<KeyValue>, hash: string -> nat, n: nat, r: nat, name: string)
    requires n > 0 && forall i :: 0 <= i < |kvs| ==> Clean(kvs[i])
    ensures ParseLines(name, Lines(Serialize(Select(kvs, hash, n, r)))) == Ok(Select(kvs, hash, n, r))
  {
    var s := Select(kvs, hash, n, r);
    forall i | 0 <= i < |s| ensures Clean(s[i]) {
      SelectMembers(kvs, hash, n, r, s[i]);
    }
    ParseSerialize(name, s);
  }
}
