/**
 * The reading loops `do_reduce` and `merge` share: open each file in turn,
 * take the first two whitespace tokens of every line as key and value, and
 * feed the pair to an accumulator (there, a `BTreeMap`).
 */
module Reading {
  import opened Text
  import opened Job

  /** The accumulator after feeding it `kvs`, one pair at a time, in order. */
  function Fold<S>(step: (S, KeyValue) -> S, s: S, kvs: seq<KeyValue>): S
  {
    if kvs == [] then s else step(Fold(step, s, kvs[..|kvs| - 1]), kvs[|kvs| - 1])
  }

  lemma {:induction false} FoldAppend<S>(step: (S, KeyValue) -> S, s: S, a: seq<KeyValue>, b: seq<KeyValue>)
    ensures Fold(step, s, a + b) == Fold(step, Fold(step, s, a), b)
    decreases |b|
  {
    if b == [] {
      assert a + b == a;
    } else {
      var init := b[..|b| - 1];
      FoldAppend(step, s, a, init);
      assert (a + b)[..|a + b| - 1] == a + init;
    }
  }

  /** What a reading loop computes: the fold of every pair read, or the first panic. */
  function Folded<S>(r: Result<seq<KeyValue>>, step: (S, KeyValue) -> S, s: S): Result<S>
  {
    match r
    case Err(e) => Err(e)
    case Ok(kvs) => Ok(Fold(step, s, kvs))
  }

  /** `for line in reader.lines()` over one file, starting from accumulator `s0`. */
  method FoldLines<S>(name: string, lines: seq<string>, step: (S, KeyValue) -> S, s0: S) returns (r: Result<S>)
    ensures r == Folded(ParseLines(name, lines), step, s0)
  {
    var s := s0;
    ghost var kvs: seq<KeyValue> := [];
    for k := 0 to |lines|
      invariant ParseLines(name, lines[..k]) == Ok(kvs)
      invariant s == Fold(step, s0, kvs)
    {
      var kv := Tokens(lines[k]);
      assert lines[..k + 1][..k] == lines[..k];
      if |kv| < 2 {
        ParseLinesErr(name, lines, k + 1);
        return Err(ShortLine(name, lines[k]));
      }
      var pair := KeyValue(kv[0], kv[1]);
      s := step(s, pair);
      kvs := kvs + [pair];
    }
    assert lines[..|lines|] == lines;
    return Ok(s);
  }

  /** The outer loop: every file of `names` in order; a missing file panics at `File::open`. */
  method FoldFiles<S>(fs: FileStore, names: seq<string>, step: (S, KeyValue) -> S, s0: S) returns (r: Result<S>)
    ensures r == Folded(Collect(fs.files, names), step, s0)
  {
    var s := s0;
    ghost var kvs: seq<KeyValue> := [];
    for i := 0 to |names|
      invariant Collect(fs.files, names[..i]) == Ok(kvs)
      invariant s == Fold(step, s0, kvs)
    {
      var name := names[i];
      assert names[..i + 1][..i] == names[..i];
      if name !in fs.files {
        CollectErr(fs.files, names, i + 1);
        return Err(Missing(name));
      }
      var more := FoldLines(name, Lines(fs.files[name]), step, s);
      if more.Err? {
        CollectErr(fs.files, names, i + 1);
        return Err(more.fault);
      }
      var read :| ParseLines(name, Lines(fs.files[name])) == Ok(read);
      FoldAppend(step, s0, kvs, read);
      s := more.value;
      kvs := kvs + read;
    }
    assert names[..|names|] == names;
    return Ok(s);
  }
}
