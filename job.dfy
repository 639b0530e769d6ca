/**
 * What every phase of the pipeline shares: the key/value pair, the ways a
 * phase can end, the names of the job's files, the in-memory file store the
 * phases read and write, and the one-record-per-line file format.
 */
module Job {
  import opened Wrappers
  import opened Text
  import opened Decimal
  import opened Ordered

  /** `KeyValue` of src/mreduce.rs. */
  datatype KeyValue = KeyValue(key: string, value: string)

  /** The panics of the source, one per kind of `expect`/index failure. */
  datatype Fault =
    | Missing(file: string)             // File::open(..).expect(..) on an absent file
    | DivideByZero                      // size / nmap with nmap == 0
    | ShortLine(file: string, line: string) // kv[0] or kv[1] out of bounds
    | ReducerPanic(key: string)         // the user's reduce function panicked

  /** How a phase ends: it returns, the process panics, or it loops for ever. */
  datatype Outcome = Finished | Aborted(fault: Fault) | Hangs

  /** A phase's outcome together with the file store it leaves behind. */
  datatype Step = Step(outcome: Outcome, files: map<string, string>)

  datatype Result<T> = Ok(value: T) | Err(fault: Fault)

  /** The keys that occur in `kvs`. */
  function KeySet(kvs: seq<KeyValue>): set<string>
  {
    set i | 0 <= i < |kvs| :: kvs[i].key
  }

  lemma KeySetSnoc(kvs: seq<KeyValue>, kv: KeyValue)
    ensures KeySet(kvs + [kv]) == KeySet(kvs) + {kv.key}
  {
    var s := kvs + [kv];
    forall x | x in KeySet(kvs) ensures x in KeySet(s) {
      var i :| 0 <= i < |kvs| && kvs[i].key == x;
      assert s[i].key == x;
    }
    assert s[|kvs|].key == kv.key;
  }

  /** Keys strictly increasing, as a `BTreeMap` is written out. */
  predicate KeysIncreasing(kvs: seq<KeyValue>)
  {
    forall i, j :: 0 <= i < j < |kvs| ==> Less(kvs[i].key, kvs[j].key)
  }

  // ---------------------------------------------------------------------
  // File names

  /** `map_filename`: the input of map job `job`. */
  function MapName(f: string, job: nat): string
  {
    "mrtmp." + f + "-" + Render(job)
  }

  /** `reduce_filename`: what map job `m` writes for reduce job `r`. */
  function ReduceName(f: string, m: nat, r: nat): string
  {
    MapName(f, m) + "-" + Render(r)
  }

  /** `merge_filename`: the result of reduce job `r`. */
  function MergeName(f: string, r: nat): string
  {
    "mrtmp." + f + "-res-" + Render(r)
  }

  /** The final result written by `merge`. */
  function FinalName(f: string): string
  {
    "mrtmp." + f
  }

  /** Every file one job on input `f` touches. */
  datatype FileId = Input | MapInput(m: nat) | Intermediate(m: nat, r: nat) | Partial(r: nat) | Final

  function NameOf(f: string, id: FileId): string
  {
    match id
    case Input => f
    case MapInput(m) => MapName(f, m)
    case Intermediate(m, r) => ReduceName(f, m, r)
    case Partial(r) => MergeName(f, r)
    case Final => FinalName(f)
  }

  /** What follows "mrtmp.<f>-" in the name of a map, intermediate or partial file. */
  function Tail(id: FileId): string
    requires id.MapInput? || id.Intermediate? || id.Partial?
  {
    match id
    case MapInput(m) => Render(m)
    case Intermediate(m, r) => Render(m) + "-" + Render(r)
    case Partial(r) => "res-" + Render(r)
  }

  lemma NameOfTail(f: string, id: FileId)
    requires id.MapInput? || id.Intermediate? || id.Partial?
    ensures NameOf(f, id) == "mrtmp." + f + "-" + Tail(id)
  {
  }

  /** Index of the first '-' in `s`, or `|s|` when there is none. */
  function FirstDash(s: string): nat
  {
    if s == [] then 0 else if s[0] == '-' then 0 else 1 + FirstDash(s[1..])
  }

  lemma {:induction false} FirstDashAfterDigits(w: string, x: string)
    requires AllDigits(w)
    ensures FirstDash(w + x) == |w| + FirstDash(x)
  {
    if w != [] {
      assert (w + x)[1..] == w[1..] + x;
      FirstDashAfterDigits(w[1..], x);
    } else {
      assert w + x == x;
    }
  }

  /**
   * The shape of a tail tells its kind: only a partial result's starts with
   * a letter, only an intermediate file's has a dash, and that dash follows
   * the map index.
   */
  lemma TailShape(id: FileId)
    requires id.MapInput? || id.Intermediate? || id.Partial?
    ensures IsDigit(Tail(id)[0]) <==> !id.Partial?
    ensures id.MapInput? ==> FirstDash(Tail(id)) == |Tail(id)|
    ensures id.Intermediate? ==> FirstDash(Tail(id)) == |Render(id.m)| < |Tail(id)|
  {
    match id
    case MapInput(m) =>
      FirstDashAfterDigits(Render(m), "");
      assert Render(m) + "" == Render(m);
    case Intermediate(m, r) =>
      FirstDashAfterDigits(Render(m), "-" + Render(r));
      assert Render(m) + "-" + Render(r) == Render(m) + ("-" + Render(r));
    case Partial(r) =>
  }

  lemma TailInjective(a: FileId, b: FileId)
    requires a.MapInput? || a.Intermediate? || a.Partial?
    requires b.MapInput? || b.Intermediate? || b.Partial?
    requires Tail(a) == Tail(b)
    ensures a == b
  {
    TailShape(a);
    TailShape(b);
    var s := Tail(a);
    if a.MapInput? {
      RenderInjective(a.m, b.m);
    } else if a.Intermediate? {
      var la := |Render(a.m)|;
      assert s[..la] == Render(a.m) && s[..la] == Render(b.m);
      assert s[la + 1..] == Render(a.r) && s[la + 1..] == Render(b.r);
      RenderInjective(a.m, b.m);
      RenderInjective(a.r, b.r);
    } else {
      assert s[4..] == Render(a.r) && s[4..] == Render(b.r);
      RenderInjective(a.r, b.r);
    }
  }

  /**
   * No two files of one job share a name: the input, every map input, every
   * intermediate file, every partial result and the final result are
   * pairwise distinct.
   */
  lemma NamesDistinct(f: string, a: FileId, b: FileId)
    requires NameOf(f, a) == NameOf(f, b)
    ensures a == b
  {
    var p := "mrtmp." + f;
    if a.Input? || b.Input? || a.Final? || b.Final? {
      // lengths: |f|, |f| + 6, and at least |f| + 8 for the other kinds
      if !a.Input? && !a.Final? { NameOfTail(f, a); }
      if !b.Input? && !b.Final? { NameOfTail(f, b); }
    } else {
      NameOfTail(f, a);
      NameOfTail(f, b);
      var s := NameOf(f, a);
      assert s[|p| + 1..] == Tail(a);
      assert NameOf(f, b)[|p| + 1..] == Tail(b);
      TailInjective(a, b);
    }
  }

  /** The names of the inputs of map jobs 0 .. n-1. */
  function MapNames(f: string, n: nat): (ns: seq<string>)
    ensures |ns| == n && forall j :: 0 <= j < n ==> ns[j] == MapName(f, j)
  {
    seq(n, j requires 0 <= j < n => MapName(f, j))
  }

  /** The files map job `m` writes, for reduce jobs 0 .. n-1. */
  function SpreadNames(f: string, m: nat, n: nat): (ns: seq<string>)
    ensures |ns| == n && forall r :: 0 <= r < n ==> ns[r] == ReduceName(f, m, r)
  {
    seq(n, r requires 0 <= r < n => ReduceName(f, m, r))
  }

  /** The files reduce job `r` reads, from map jobs 0 .. n-1. */
  function GatherNames(f: string, r: nat, n: nat): (ns: seq<string>)
    ensures |ns| == n && forall m :: 0 <= m < n ==> ns[m] == ReduceName(f, m, r)
  {
    seq(n, m requires 0 <= m < n => ReduceName(f, m, r))
  }

  /** The results of reduce jobs 0 .. n-1. */
  function MergeNames(f: string, n: nat): (ns: seq<string>)
    ensures |ns| == n && forall r :: 0 <= r < n ==> ns[r] == MergeName(f, r)
  {
    seq(n, r requires 0 <= r < n => MergeName(f, r))
  }

  // ---------------------------------------------------------------------
  // The file store

  /** The file system the phases share: file name to full contents. */
  class FileStore {
    var files: map<string, string>

    constructor (initial: map<string, string>)
      ensures files == initial
    {
      files := initial;
    }
  }

  /** Writing `contents[j]` to `names[j]`, for j in order (truncating each file). */
  function WriteAll(files: map<string, string>, names: seq<string>, contents: seq<string>): map<string, string>
    requires |names| == |contents|
  {
    if names == [] then files
    else WriteAll(files, names[..|names| - 1], contents[..|contents| - 1])[names[|names| - 1] := contents[|contents| - 1]]
  }

  lemma WriteAllSnoc(files: map<string, string>, names: seq<string>, contents: seq<string>, n: string, c: string)
    requires |names| == |contents|
    ensures WriteAll(files, names + [n], contents + [c]) == WriteAll(files, names, contents)[n := c]
  {
    assert (names + [n])[..|names|] == names;
    assert (contents + [c])[..|contents|] == contents;
  }

  lemma MapNamesSnoc(f: string, n: nat)
    ensures MapNames(f, n + 1) == MapNames(f, n) + [MapName(f, n)]
  {
  }

  predicate Distinct(names: seq<string>)
  {
    forall i, j :: 0 <= i < j < |names| ==> names[i] != names[j]
  }

  /**
   * After writing files with distinct names, each holds what was written
   * to it and every other file is as before.
   */
  lemma {:induction false} WriteAllGet(files: map<string, string>, names: seq<string>, contents: seq<string>)
    requires |names| == |contents| && Distinct(names)
    ensures forall j :: 0 <= j < |names| ==>
      names[j] in WriteAll(files, names, contents) && WriteAll(files, names, contents)[names[j]] == contents[j]
    ensures forall x :: x !in names ==>
      (x in WriteAll(files, names, contents) <==> x in files) &&
      (x in files ==> WriteAll(files, names, contents)[x] == files[x])
  {
    if names != [] {
      var n := |names| - 1;
      WriteAllGet(files, names[..n], contents[..n]);
      forall j | 0 <= j < n ensures names[..n][j] == names[j] && names[j] != names[n] {
      }
    }
  }

  lemma MapNamesDistinct(f: string, n: nat)
    ensures Distinct(MapNames(f, n))
  {
    forall i, j | 0 <= i < j < n ensures MapName(f, i) != MapName(f, j) {
      if MapName(f, i) == MapName(f, j) {
        NamesDistinct(f, MapInput(i), MapInput(j));
      }
    }
  }

  lemma SpreadNamesDistinct(f: string, m: nat, n: nat)
    ensures Distinct(SpreadNames(f, m, n))
  {
    forall i, j | 0 <= i < j < n ensures ReduceName(f, m, i) != ReduceName(f, m, j) {
      if ReduceName(f, m, i) == ReduceName(f, m, j) {
        NamesDistinct(f, Intermediate(m, i), Intermediate(m, j));
      }
    }
  }

  // ---------------------------------------------------------------------
  // Records: one "key value\n" line per pair

  /** `write!(buf, "{} {}\n", key, value)`. */
  function Record(kv: KeyValue): string
  {
    kv.key + " " + kv.value + "\n"
  }

  function Serialize(kvs: seq<KeyValue>): string
  {
    Concat(seq(|kvs|, i requires 0 <= i < |kvs| => Record(kvs[i])))
  }

  lemma SerializeSnoc(kvs: seq<KeyValue>, kv: KeyValue)
    ensures Serialize(kvs + [kv]) == Serialize(kvs) + Record(kv)
  {
    var rs := seq(|kvs + [kv]|, i requires 0 <= i < |kvs + [kv]| => Record((kvs + [kv])[i]));
    assert rs[..|rs| - 1] == seq(|kvs|, i requires 0 <= i < |kvs| => Record(kvs[i]));
  }

  /**
   * A line as `do_reduce` and `merge` read it: its first two whitespace
   * tokens are key and value, later tokens are ignored, and a line with
   * fewer than two tokens makes `kv[0]` or `kv[1]` panic.
   */
  function ParseRecord(line: string): (r: Option<KeyValue>)
    ensures r.None? <==> |Tokens(line)| < 2
    ensures r.Some? ==> r.value == KeyValue(Tokens(line)[0], Tokens(line)[1])
  {
    var kv := Tokens(line);
    if |kv| < 2 then None else Some(KeyValue(kv[0], kv[1]))
  }

  /**
   * A line laid out as a record: optional leading whitespace, the key, at
   * least one whitespace character, the value, and then either nothing or
   * whitespace followed by anything at all.
   */
  predicate RecordLayout(line: string, a: string, k: string, b: string, v: string, rest: string)
  {
    line == a + k + b + v + rest && Blank(a) && IsToken(k) && b != [] && Blank(b) && IsToken(v) &&
    (rest == [] || IsWhitespace(rest[0]))
  }

  /**
   * A line reads as the pair `(k, v)` exactly when it is laid out as leading
   * whitespace, `k`, whitespace, `v`, and whitespace or the end of the line.
   */
  lemma ParseRecordLayout(line: string, k: string, v: string)
    ensures ParseRecord(line) == Some(KeyValue(k, v)) <==>
      exists a: string, b: string, rest: string :: RecordLayout(line, a, k, b, v, rest)
  {
    if ParseRecord(line) == Some(KeyValue(k, v)) {
      var ts := Tokens(line);
      TokensAreTokens(line);
      var a, r1 := TokensHead(line);
      assert Tokens(r1) == ts[1..] && ts[1..][0] == v;
      var b, rest := TokensHead(r1);
      assert IsToken(v);
      assert RecordLayout(line, a, k, b, v, rest);
    }
    if exists a: string, b: string, rest: string :: RecordLayout(line, a, k, b, v, rest) {
      var a: string, b: string, rest: string :| RecordLayout(line, a, k, b, v, rest);
      var r1 := b + v + rest;
      assert line == a + k + r1;
      assert r1[0] == b[0];
      TokensLead(a, k, r1);
      assert b + v + rest == [] + b + v + rest;
      TokensLead(b, v, rest);
      assert Tokens(line) == [k] + ([v] + Tokens(rest));
    }
  }

  /**
   * Tokens after the second are ignored: a line that starts with two tokens
   * reads as those two, whatever follows them after whitespace.
   */
  lemma ParseRecordExtra(k: string, v: string, rest: string)
    requires IsToken(k) && IsToken(v) && (rest == [] || IsWhitespace(rest[0]))
    ensures ParseRecord(k + " " + v + rest) == Some(KeyValue(k, v))
  {
    var s := k + " " + v + rest;
    var tail := " " + (v + rest);
    assert s == k + tail;
    WordLenOfToken(k, tail);
    assert s[..|k|] == k && s[|k|..] == tail;
    assert tail[1..] == v + rest;
    WordLenOfToken(v, rest);
    assert (v + rest)[..|v|] == v && (v + rest)[|v|..] == rest;
    assert Tokens(v + rest) == [v] + Tokens(rest);
    assert Tokens(s) == [k] + Tokens(tail);
  }

  /** A line of one token is short. */
  lemma ParseRecordShort(w: string)
    requires IsToken(w)
    ensures ParseRecord(w).None?
  {
    TokensOfToken(w);
  }

  /** The pairs of the lines of file `name`, or the panic at the first short line. */
  function ParseLines(name: string, lines: seq<string>): Result<seq<KeyValue>>
  {
    if lines == [] then Ok([])
    else
      match ParseLines(name, lines[..|lines| - 1])
      case Err(e) => Err(e)
      case Ok(kvs) =>
        match ParseRecord(lines[|lines| - 1])
        case None => Err(ShortLine(name, lines[|lines| - 1]))
        case Some(kv) => Ok(kvs + [kv])
  }

  /**
   * Reading files `names` in order, as `do_reduce` and `merge` do: the pairs
   * of all their lines, or the panic of the first absent file or short line.
   */
  function Collect(files: map<string, string>, names: seq<string>): Result<seq<KeyValue>>
  {
    if names == [] then Ok([])
    else
      var name := names[|names| - 1];
      match Collect(files, names[..|names| - 1])
      case Err(e) => Err(e)
      case Ok(kvs) =>
        if name !in files then Err(Missing(name))
        else
          match ParseLines(name, Lines(files[name]))
          case Err(e) => Err(e)
          case Ok(more) => Ok(kvs + more)
  }

  /** Once a prefix of the lines fails, the whole file fails the same way. */
  lemma {:induction false} ParseLinesErr(name: string, lines: seq<string>, k: nat)
    requires k <= |lines| && ParseLines(name, lines[..k]).Err?
    ensures ParseLines(name, lines) == ParseLines(name, lines[..k])
    decreases |lines|
  {
    if k < |lines| {
      assert lines[..|lines| - 1][..k] == lines[..k];
      ParseLinesErr(name, lines[..|lines| - 1], k);
    } else {
      assert lines[..k] == lines;
    }
  }

  lemma {:induction false} CollectErr(files: map<string, string>, names: seq<string>, k: nat)
    requires k <= |names| && Collect(files, names[..k]).Err?
    ensures Collect(files, names) == Collect(files, names[..k])
    decreases |names|
  {
    if k < |names| {
      assert names[..|names| - 1][..k] == names[..k];
      CollectErr(files, names[..|names| - 1], k);
    } else {
      assert names[..k] == names;
    }
  }

  /** A pair whose key and value are tokens survives being written and read back. */
  predicate Clean(kv: KeyValue)
  {
    IsToken(kv.key) && IsToken(kv.value)
  }

  lemma RecordIsFullLine(kv: KeyValue)
    requires Clean(kv)
    ensures IsFullLine(Record(kv))
    ensures StripEol(Record(kv)) == kv.key + " " + kv.value
  {
    var x := Record(kv);
    assert x == (kv.key + " " + kv.value) + "\n";
    forall i | 0 <= i < |x| - 1 ensures x[i] != '\n' {
      if i < |kv.key| {
        assert x[i] == kv.key[i];
      } else if i > |kv.key| {
        assert x[i] == kv.value[i - |kv.key| - 1];
      }
    }
    var y := x[..|x| - 1];
    assert y == kv.key + " " + kv.value;
    assert y[|y| - 1] == kv.value[|kv.value| - 1];
  }

  /** Parse after serialise: the file of clean pairs reads back as those pairs. */
  lemma {:induction false} ParseSerialize(name: string, kvs: seq<KeyValue>)
    requires forall i :: 0 <= i < |kvs| ==> Clean(kvs[i])
    ensures ParseLines(name, Lines(Serialize(kvs))) == Ok(kvs)
  {
    var rs := seq(|kvs|, i requires 0 <= i < |kvs| => Record(kvs[i]));
    forall j | 0 <= j < |rs| ensures IsFullLine(rs[j]) {
      RecordIsFullLine(kvs[j]);
    }
    SegmentsOfLines(rs);
    var ls := Lines(Serialize(kvs));
    assert |ls| == |kvs|;
    forall j | 0 <= j < |ls| ensures ls[j] == kvs[j].key + " " + kvs[j].value {
      RecordIsFullLine(kvs[j]);
    }
    ParseCleanLines(name, ls, kvs);
  }

  lemma {:induction false} ParseCleanLines(name: string, ls: seq<string>, kvs: seq<KeyValue>)
    requires |ls| == |kvs|
    requires forall i :: 0 <= i < |kvs| ==> Clean(kvs[i]) && ls[i] == kvs[i].key + " " + kvs[i].value
    ensures ParseLines(name, ls) == Ok(kvs)
    decreases |ls|
  {
    if ls != [] {
      var n := |ls| - 1;
      ParseCleanLines(name, ls[..n], kvs[..n]);
      TokensOfPair(kvs[n].key, kvs[n].value);
      assert kvs[..n] + [kvs[n]] == kvs;
    }
  }
}
