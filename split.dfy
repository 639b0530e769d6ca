/**
 * `split` (src/mreduce.rs): cut the input into `nmap` line-aligned map
 * inputs by byte offset.
 *
 * The loop state is the iteration count `t` (iteration `t` reads line `t`,
 * or nothing once the file is exhausted), the byte offset `i` at which that
 * read starts, the 1-based number `m` of the chunk being filled, and `buf`.
 * `Scan` is that loop as a recursion over iterations; `closes` records the
 * iterations at which a chunk was written. At end of file `read_line`
 * returns 0, so an iteration there that closes nothing leaves the whole state
 * as it was: from then on the source loops for ever, which `Scan` reports as
 * `hangs`.
 */
module Splitter {
  import opened Text
  import opened Job

  /** What iteration `t` reads: line `t`, or "" past the end of the file. */
  function ReadAt(L: seq<string>, t: nat): string
  {
    if t < |L| then L[t] else ""
  }

  /** The value of `i` at iteration `t`: bytes read before it. */
  function Offset(L: seq<string>, t: nat): nat
  {
    ByteLen(Concat(L[..Min(t, |L|)]))
  }

  predicate Increasing(closes: seq<nat>)
  {
    forall j :: 0 < j < |closes| ==> closes[j - 1] < closes[j]
  }

  /** The first iteration that belongs to chunk `j`. */
  function Start(closes: seq<nat>, j: nat): nat
    requires j <= |closes|
  {
    if j == 0 then 0 else closes[j - 1] + 1
  }

  datatype Trace = Trace(closes: seq<nat>, hangs: bool)

  /**
   * The loop of `split` from iteration `t` with `m` chunks opened and the
   * earlier chunks closed at `closes`.
   */
  function Scan(L: seq<string>, nchunk: nat, nmap: nat, t: nat, m: nat, closes: seq<nat>): (r: Trace)
    requires 1 <= m <= nmap
    decreases |L| - Min(t, |L|), nmap - m
  {
    if Offset(L, t) > nchunk * m then
      if m == nmap then Trace(closes + [t], false)
      else Scan(L, nchunk, nmap, t + 1, m + 1, closes + [t])
    else if t >= |L| then Trace(closes, true)
    else Scan(L, nchunk, nmap, t + 1, m, closes)
  }

  /** The lines of chunk `j`: those read after the previous close, up to and including its own. */
  function ChunkLines(L: seq<string>, closes: seq<nat>, j: nat): seq<string>
    requires j < |closes|
  {
    var a := Min(Start(closes, j), |L|);
    var b := Min(closes[j] + 1, |L|);
    if a <= b then L[a..b] else []
  }

  /** What `outfile.write(buf)` writes at each close. */
  function Chunks(L: seq<string>, closes: seq<nat>): (cs: seq<string>)
    ensures |cs| == |closes|
  {
    seq(|closes|, j requires 0 <= j < |closes| => Concat(ChunkLines(L, closes, j)))
  }

  /** The lines read before the last close: the part of the input the chunks hold. */
  function End(L: seq<string>, closes: seq<nat>): nat
  {
    if closes == [] then 0 else Min(closes[|closes| - 1] + 1, |L|)
  }

  /** The trace of one call of `split`. */
  function SplitTrace(content: string, nmap: nat): (r: Trace)
    requires nmap > 0
  {
    Scan(Segments(content), ByteLen(content) / nmap, nmap, 0, 1, [])
  }

  /**
   * The file store once the loop has followed trace `tr`: every closed
   * chunk written to its map input and, when the loop hangs, the chunk being
   * filled left as an empty file.
   */
  function Settle(files0: map<string, string>, f: string, L: seq<string>, tr: Trace): Step
  {
    var texts := Chunks(L, tr.closes);
    if tr.hangs then Step(Hangs, WriteAll(files0, MapNames(f, |texts| + 1), texts + [""]))
    else Step(Finished, WriteAll(files0, MapNames(f, |texts|), texts))
  }

  /**
   * `split(f, nmap)` on a file store: panics when `f` is absent or `nmap`
   * is 0; otherwise files `mrtmp.f-0` .. are created and each closed chunk
   * written to its file.
   */
  function SplitPhase(files: map<string, string>, f: string, nmap: nat): Step
  {
    if f !in files then Step(Aborted(Missing(f)), files)
    else if nmap == 0 then Step(Aborted(DivideByZero), files)
    else Settle(files, f, Segments(files[f]), SplitTrace(files[f], nmap))
  }

  // ---------------------------------------------------------------------
  // The imperative loop

  lemma OffsetStep(L: seq<string>, t: nat)
    ensures Offset(L, t + 1) == Offset(L, t) + ByteLen(ReadAt(L, t))
  {
    if t < |L| {
      assert L[..t + 1][..t] == L[..t];
      ByteLenAppend(Concat(L[..t]), L[t]);
    }
  }

  lemma BufStep(L: seq<string>, s: nat, t: nat)
    requires s <= t
    ensures Concat(L[Min(s, |L|)..Min(t, |L|)]) + ReadAt(L, t) == Concat(L[Min(s, |L|)..Min(t + 1, |L|)])
  {
    if t < |L| {
      var a := L[s..t + 1];
      assert a[..|a| - 1] == L[s..t];
      assert a[|a| - 1] == L[t];
    } else {
      var x := Concat(L[Min(s, |L|)..|L|]);
      assert x + "" == x;
    }
  }

  /** A chunk just opened holds nothing. */
  lemma BufEmpty(L: seq<string>, t: nat)
    ensures Concat(L[Min(t, |L|)..Min(t, |L|)]) == ""
  {
    assert L[Min(t, |L|)..Min(t, |L|)] == [];
  }

  lemma ChunksSnoc(L: seq<string>, closes: seq<nat>, t: nat)
    requires Start(closes, |closes|) <= t
    ensures Chunks(L, closes + [t]) ==
      Chunks(L, closes) + [Concat(L[Min(Start(closes, |closes|), |L|)..Min(t + 1, |L|)])]
  {
    var c := closes + [t];
    assert forall j :: 0 <= j < |closes| ==> ChunkLines(L, c, j) == ChunkLines(L, closes, j);
  }

  lemma ScanClose(L: seq<string>, nchunk: nat, nmap: nat, t: nat, m: nat, closes: seq<nat>)
    requires 1 <= m < nmap && |closes| == m - 1
    requires Offset(L, t) > nchunk * m
    ensures Scan(L, nchunk, nmap, t, m, closes) == Scan(L, nchunk, nmap, t + 1, m + 1, closes + [t])
  {
  }

  lemma ScanRead(L: seq<string>, nchunk: nat, nmap: nat, t: nat, m: nat, closes: seq<nat>)
    requires 1 <= m <= nmap && |closes| == m - 1
    requires Offset(L, t) <= nchunk * m && t < |L|
    ensures Scan(L, nchunk, nmap, t, m, closes) == Scan(L, nchunk, nmap, t + 1, m, closes)
  {
  }

  /** Creating the file of the next chunk, empty. */
  lemma OpenFile(files0: map<string, string>, f: string, written: seq<string>)
    ensures WriteAll(files0, MapNames(f, |written|), written)[MapName(f, |written|) := ""]
      == WriteAll(files0, MapNames(f, |written| + 1), written + [""])
  {
    MapNamesSnoc(f, |written|);
    WriteAllSnoc(files0, MapNames(f, |written|), written, MapName(f, |written|), "");
  }

  /** Writing the chunk being filled: its file goes from empty to `text`. */
  lemma FillFile(files0: map<string, string>, f: string, written: seq<string>, text: string)
    ensures WriteAll(files0, MapNames(f, |written| + 1), written + [""])[MapName(f, |written|) := text]
      == WriteAll(files0, MapNames(f, |written| + 1), written + [text])
  {
    MapNamesSnoc(f, |written|);
    WriteAllSnoc(files0, MapNames(f, |written|), written, MapName(f, |written|), "");
    WriteAllSnoc(files0, MapNames(f, |written|), written, MapName(f, |written|), text);
  }

  /**
   * The state of `split` at the top of iteration `t`: chunks 0 .. m - 2 are
   * written, chunk m - 1 is open as an empty file, and `buf` holds the lines
   * read since it was opened.
   */
  ghost predicate Filling(files0: map<string, string>, f: string, L: seq<string>, nmap: nat,
                          files: map<string, string>, t: nat, m: nat, i: nat, buf: string, closes: seq<nat>)
  {
    1 <= m <= nmap && |closes| == m - 1 && Start(closes, |closes|) <= t
    && i == Offset(L, t)
    && buf == Concat(L[Min(Start(closes, |closes|), |L|)..Min(t, |L|)])
    && files == WriteAll(files0, MapNames(f, |closes| + 1), Chunks(L, closes) + [""])
  }

  lemma FillingStart(files0: map<string, string>, f: string, L: seq<string>, nmap: nat)
    requires nmap >= 1
    ensures Filling(files0, f, L, nmap, files0[MapName(f, 0) := ""], 0, 1, 0, "", [])
  {
    OpenFile(files0, f, []);
    BufEmpty(L, 0);
  }

  /** An iteration that reads a line and closes nothing. */
  lemma FillingRead(files0: map<string, string>, f: string, L: seq<string>, nmap: nat,
                    files: map<string, string>, t: nat, m: nat, i: nat, buf: string, closes: seq<nat>)
    requires Filling(files0, f, L, nmap, files, t, m, i, buf, closes)
    ensures Filling(files0, f, L, nmap, files, t + 1, m, i + ByteLen(ReadAt(L, t)), buf + ReadAt(L, t), closes)
  {
    BufStep(L, Start(closes, |closes|), t);
    OffsetStep(L, t);
  }

  /** An iteration that writes chunk m - 1 and opens chunk m. */
  lemma FillingClose(files0: map<string, string>, f: string, L: seq<string>, nmap: nat,
                     files: map<string, string>, t: nat, m: nat, i: nat, buf: string, closes: seq<nat>)
    requires Filling(files0, f, L, nmap, files, t, m, i, buf, closes) && m < nmap
    ensures Filling(files0, f, L, nmap,
                    files[MapName(f, m - 1) := buf + ReadAt(L, t)][MapName(f, m) := ""],
                    t + 1, m + 1, i + ByteLen(ReadAt(L, t)), "", closes + [t])
  {
    var written := Chunks(L, closes);
    var text := buf + ReadAt(L, t);
    var c := closes + [t];
    BufStep(L, Start(closes, |closes|), t);
    OffsetStep(L, t);
    ChunksSnoc(L, closes, t);
    assert Chunks(L, c) == written + [text];
    FillFile(files0, f, written, text);
    OpenFile(files0, f, written + [text]);
    assert |c| == |written + [text]|;
    assert Start(c, |c|) == t + 1;
    BufEmpty(L, t + 1);
  }

  /** The iteration that writes the last chunk. */
  lemma FillingFinish(files0: map<string, string>, f: string, L: seq<string>, nmap: nat,
                      files: map<string, string>, t: nat, m: nat, i: nat, buf: string, closes: seq<nat>)
    requires Filling(files0, f, L, nmap, files, t, m, i, buf, closes)
    ensures files[MapName(f, m - 1) := buf + ReadAt(L, t)]
      == WriteAll(files0, MapNames(f, |closes| + 1), Chunks(L, closes + [t]))
  {
    BufStep(L, Start(closes, |closes|), t);
    ChunksSnoc(L, closes, t);
    FillFile(files0, f, Chunks(L, closes), buf + ReadAt(L, t));
  }

  /**
   * The loop of `split` on its whole state, one iteration per call: the
   * file store, the iteration `t`, the chunk number `m`, the offset `i` and
   * the buffer.
   */
  function Run(f: string, L: seq<string>, nchunk: nat, nmap: nat,
               files: map<string, string>, t: nat, m: nat, i: nat, buf: string): Step
    requires 1 <= m <= nmap
    decreases |L| - Min(t, |L|), nmap - m
  {
    var line := ReadAt(L, t);
    var full := buf + line;
    if i > nchunk * m then
      var written := files[MapName(f, m - 1) := full];
      if m == nmap then Step(Finished, written)
      else Run(f, L, nchunk, nmap, written[MapName(f, m) := ""], t + 1, m + 1, i + ByteLen(line), "")
    else if t >= |L| then Step(Hangs, files)
    else Run(f, L, nchunk, nmap, files, t + 1, m, i + ByteLen(line), full)
  }

  /** An iteration of `Run` that closes a chunk and goes on. */
  lemma RunClose(f: string, L: seq<string>, nchunk: nat, nmap: nat,
                 files: map<string, string>, t: nat, m: nat, i: nat, buf: string)
    requires 1 <= m < nmap && i > nchunk * m
    ensures Run(f, L, nchunk, nmap, files, t, m, i, buf)
      == Run(f, L, nchunk, nmap, files[MapName(f, m - 1) := buf + ReadAt(L, t)][MapName(f, m) := ""],
             t + 1, m + 1, i + ByteLen(ReadAt(L, t)), "")
  {
  }

  /** An iteration of `Run` that only reads. */
  lemma RunRead(f: string, L: seq<string>, nchunk: nat, nmap: nat,
                files: map<string, string>, t: nat, m: nat, i: nat, buf: string)
    requires 1 <= m <= nmap && i <= nchunk * m && t < |L|
    ensures Run(f, L, nchunk, nmap, files, t, m, i, buf)
      == Run(f, L, nchunk, nmap, files, t + 1, m, i + ByteLen(ReadAt(L, t)), buf + ReadAt(L, t))
  {
  }

  /** The iteration of `Run` that writes the last chunk. */
  lemma RunLast(f: string, L: seq<string>, nchunk: nat, nmap: nat,
                files: map<string, string>, t: nat, m: nat, i: nat, buf: string)
    requires 1 <= m == nmap && i > nchunk * m
    ensures Run(f, L, nchunk, nmap, files, t, m, i, buf) == Step(Finished, files[MapName(f, m - 1) := buf + ReadAt(L, t)])
  {
  }

  /** The iteration of `Run` at end of file that closes nothing. */
  lemma RunStuck(f: string, L: seq<string>, nchunk: nat, nmap: nat,
                 files: map<string, string>, t: nat, m: nat, i: nat, buf: string)
    requires 1 <= m <= nmap && i <= nchunk * m && t >= |L|
    ensures Run(f, L, nchunk, nmap, files, t, m, i, buf) == Step(Hangs, files)
  {
  }

  lemma SettleFinish(files0: map<string, string>, f: string, L: seq<string>, nchunk: nat, nmap: nat,
                     files: map<string, string>, t: nat, m: nat, i: nat, buf: string, closes: seq<nat>)
    requires Filling(files0, f, L, nmap, files, t, m, i, buf, closes) && i > nchunk * m && m == nmap
    ensures Run(f, L, nchunk, nmap, files, t, m, i, buf) == Settle(files0, f, L, Scan(L, nchunk, nmap, t, m, closes))
  {
    FillingFinish(files0, f, L, nmap, files, t, m, i, buf, closes);
    assert Scan(L, nchunk, nmap, t, m, closes) == Trace(closes + [t], false);
  }

  lemma SettleHang(files0: map<string, string>, f: string, L: seq<string>, nchunk: nat, nmap: nat,
                   files: map<string, string>, t: nat, m: nat, i: nat, buf: string, closes: seq<nat>)
    requires Filling(files0, f, L, nmap, files, t, m, i, buf, closes) && i <= nchunk * m && t >= |L|
    ensures Run(f, L, nchunk, nmap, files, t, m, i, buf) == Settle(files0, f, L, Scan(L, nchunk, nmap, t, m, closes))
  {
    assert Scan(L, nchunk, nmap, t, m, closes) == Trace(closes, true);
  }

  /** From any state `Filling` describes, the loop ends as `Settle` says of its trace. */
  lemma {:induction false} RunSettles(files0: map<string, string>, f: string, L: seq<string>, nchunk: nat, nmap: nat,
                   files: map<string, string>, t: nat, m: nat, i: nat, buf: string, closes: seq<nat>)
    requires Filling(files0, f, L, nmap, files, t, m, i, buf, closes)
    ensures Run(f, L, nchunk, nmap, files, t, m, i, buf) == Settle(files0, f, L, Scan(L, nchunk, nmap, t, m, closes))
    decreases |L| - Min(t, |L|), nmap - m, 1
  {
    if i > nchunk * m {
      if m == nmap {
        SettleFinish(files0, f, L, nchunk, nmap, files, t, m, i, buf, closes);
      } else {
        SettlesAfterClose(files0, f, L, nchunk, nmap, files, t, m, i, buf, closes);
      }
    } else if t < |L| {
      SettlesAfterRead(files0, f, L, nchunk, nmap, files, t, m, i, buf, closes);
    } else {
      SettleHang(files0, f, L, nchunk, nmap, files, t, m, i, buf, closes);
    }
  }

  lemma {:induction false} SettlesAfterClose(files0: map<string, string>, f: string, L: seq<string>, nchunk: nat, nmap: nat,
                   files: map<string, string>, t: nat, m: nat, i: nat, buf: string, closes: seq<nat>)
    requires Filling(files0, f, L, nmap, files, t, m, i, buf, closes) && i > nchunk * m && m < nmap
    ensures Run(f, L, nchunk, nmap, files, t, m, i, buf) == Settle(files0, f, L, Scan(L, nchunk, nmap, t, m, closes))
    decreases |L| - Min(t, |L|), nmap - m, 0
  {
    var line := ReadAt(L, t);
    ScanClose(L, nchunk, nmap, t, m, closes);
    FillingClose(files0, f, L, nmap, files, t, m, i, buf, closes);
    RunClose(f, L, nchunk, nmap, files, t, m, i, buf);
    RunSettles(files0, f, L, nchunk, nmap, files[MapName(f, m - 1) := buf + line][MapName(f, m) := ""],
               t + 1, m + 1, i + ByteLen(line), "", closes + [t]);
  }

  lemma {:induction false} SettlesAfterRead(files0: map<string, string>, f: string, L: seq<string>, nchunk: nat, nmap: nat,
                   files: map<string, string>, t: nat, m: nat, i: nat, buf: string, closes: seq<nat>)
    requires Filling(files0, f, L, nmap, files, t, m, i, buf, closes) && i <= nchunk * m && t < |L|
    ensures Run(f, L, nchunk, nmap, files, t, m, i, buf) == Settle(files0, f, L, Scan(L, nchunk, nmap, t, m, closes))
    decreases |L| - Min(t, |L|), nmap - m, 0
  {
    var line := ReadAt(L, t);
    ScanRead(L, nchunk, nmap, t, m, closes);
    FillingRead(files0, f, L, nmap, files, t, m, i, buf, closes);
    RunRead(f, L, nchunk, nmap, files, t, m, i, buf);
    RunSettles(files0, f, L, nchunk, nmap, files, t + 1, m, i + ByteLen(line), buf + line, closes);
  }

  /** `split` on a file store runs its loop from the state it sets up. */
  lemma SplitRuns(files0: map<string, string>, f: string, nmap: nat)
    requires f in files0 && nmap > 0
    ensures SplitPhase(files0, f, nmap) == Run(f, Segments(files0[f]), ByteLen(files0[f]) / nmap, nmap,
                                               files0[MapName(f, 0) := ""], 0, 1, 0, "")
  {
    var L := Segments(files0[f]);
    FillingStart(files0, f, L, nmap);
    RunSettles(files0, f, L, ByteLen(files0[f]) / nmap, nmap, files0[MapName(f, 0) := ""], 0, 1, 0, "", []);
  }

  /**
   * The loop of `split`, proved to end in the state `SplitPhase` describes.
   * The loop stops at the first iteration that would repeat forever (end of
   * file and nothing closed) and reports `Hangs` there.
   */
  method Split(fs: FileStore, f: string, nmap: nat) returns (outcome: Outcome)
    modifies fs
    ensures Step(outcome, fs.files) == SplitPhase(old(fs.files), f, nmap)
  {
    if f !in fs.files {
      return Aborted(Missing(f));
    }
    if nmap == 0 {
      return Aborted(DivideByZero);
    }
    var content := fs.files[f];
    var size := ByteLen(content);
    var nchunk: nat := size / nmap;
    var L := Segments(content);
    ghost var files0 := fs.files;
    fs.files := fs.files[MapName(f, 0) := ""];
    var buf := "";
    var i: nat := 0;
    var m := 1;
    var t := 0;
    ghost var goal := Run(f, L, nchunk, nmap, fs.files, t, m, i, buf);
    while true
      invariant 1 <= m <= nmap
      invariant Run(f, L, nchunk, nmap, fs.files, t, m, i, buf) == goal
      decreases |L| - Min(t, |L|), nmap - m
    {
      ghost var before, read := fs.files, buf;
      var line := ReadAt(L, t);
      var len := ByteLen(line);
      buf := buf + line;
      if i > nchunk * m {
        fs.files := fs.files[MapName(f, m - 1) := buf];
        buf := "";
        if m == nmap {
          RunLast(f, L, nchunk, nmap, before, t, m, i, read);
          SplitRuns(files0, f, nmap);
          return Finished;
        }
        RunClose(f, L, nchunk, nmap, before, t, m, i, read);
        fs.files := fs.files[MapName(f, m) := ""];
        m := m + 1;
      } else if t >= |L| {
        RunStuck(f, L, nchunk, nmap, before, t, m, i, read);
        SplitRuns(files0, f, nmap);
        return Hangs;
      } else {
        RunRead(f, L, nchunk, nmap, before, t, m, i, read);
      }
      i := i + len;
      t := t + 1;
    }
  }
}
