/**
 * What `split` guarantees, and what it does not: how many chunks it writes,
 * where each chunk ends, which part of the input the chunks hold, and
 * exactly when the loop never terminates.
 */
module SplitFacts {
  import opened Text
  import opened Job
  import opened Splitter

  // ---------------------------------------------------------------------
  // Offsets

  lemma OffsetMono(L: seq<string>, u: nat, v: nat)
    requires u <= v
    ensures Offset(L, u) <= Offset(L, v)
  {
    var a, b := Min(u, |L|), Min(v, |L|);
    assert L[..b] == L[..a] + L[a..b];
    ConcatAppend(L[..a], L[a..b]);
    ByteLenAppend(Concat(L[..a]), Concat(L[a..b]));
  }

  /** From the end of the file on, the offset is the size of the file. */
  lemma OffsetEnd(content: string, u: nat)
    requires u >= |Segments(content)|
    ensures Offset(Segments(content), u) == ByteLen(content)
  {
    var L := Segments(content);
    assert L[..Min(u, |L|)] == L;
    SegmentsConcat(content);
  }

  lemma OffsetAtMost(content: string, u: nat)
    ensures Offset(Segments(content), u) <= ByteLen(content)
  {
    var L := Segments(content);
    OffsetMono(L, u, u + |L|);
    OffsetEnd(content, u + |L|);
  }

  lemma MulMono(a: nat, b: nat, c: nat)
    requires b <= c
    ensures a * b <= a * c
  {
  }

  // ---------------------------------------------------------------------
  // The shape of a trace

  /**
   * From a consistent state the loop only appends closes, in increasing
   * order, never more than `nmap` of them, and it stops without hanging
   * exactly when all `nmap` chunks are closed.
   */
  lemma {:induction false} ScanShape(L: seq<string>, nchunk: nat, nmap: nat, t: nat, m: nat, closes: seq<nat>)
    requires 1 <= m <= nmap && |closes| == m - 1
    requires Increasing(closes) && Start(closes, |closes|) <= t
    ensures var r := Scan(L, nchunk, nmap, t, m, closes);
      closes <= r.closes && Increasing(r.closes) && |r.closes| <= nmap && (|r.closes| == nmap <==> !r.hangs)
    decreases |L| - Min(t, |L|), nmap - m
  {
    var c := closes + [t];
    if Offset(L, t) > nchunk * m {
      if m < nmap {
        ScanShape(L, nchunk, nmap, t + 1, m + 1, c);
      }
    } else if t < |L| {
      ScanShape(L, nchunk, nmap, t + 1, m, closes);
    }
  }

  /**
   * Chunk `j` (numbered from 0) ends at the first iteration after the
   * previous chunk whose starting offset exceeds `nchunk * (j + 1)`.
   */
  ghost predicate Boundaries(L: seq<string>, nchunk: nat, closes: seq<nat>)
  {
    forall j :: 0 <= j < |closes| ==>
      Offset(L, closes[j]) > nchunk * (j + 1) &&
      forall u :: Start(closes, j) <= u < closes[j] ==> Offset(L, u) <= nchunk * (j + 1)
  }

  lemma BoundariesSnoc(L: seq<string>, nchunk: nat, closes: seq<nat>, t: nat)
    requires Boundaries(L, nchunk, closes)
    requires Offset(L, t) > nchunk * (|closes| + 1)
    requires forall u :: Start(closes, |closes|) <= u < t ==> Offset(L, u) <= nchunk * (|closes| + 1)
    ensures Boundaries(L, nchunk, closes + [t])
  {
    var c := closes + [t];
    forall j | 0 <= j < |c|
      ensures Offset(L, c[j]) > nchunk * (j + 1)
      ensures forall u :: Start(c, j) <= u < c[j] ==> Offset(L, u) <= nchunk * (j + 1)
    {
      if j < |closes| {
        assert c[j] == closes[j] && Start(c, j) == Start(closes, j);
      }
    }
  }

  /** Every chunk of a trace ends where `Boundaries` says. */
  lemma {:induction false} ScanBoundaries(L: seq<string>, nchunk: nat, nmap: nat, t: nat, m: nat, closes: seq<nat>)
    requires 1 <= m <= nmap && |closes| == m - 1 && Start(closes, |closes|) <= t
    requires Boundaries(L, nchunk, closes)
    requires forall u :: Start(closes, |closes|) <= u < t ==> Offset(L, u) <= nchunk * m
    ensures Boundaries(L, nchunk, Scan(L, nchunk, nmap, t, m, closes).closes)
    decreases |L| - Min(t, |L|), nmap - m
  {
    var r := Scan(L, nchunk, nmap, t, m, closes);
    if Offset(L, t) > nchunk * m {
      assert nchunk * m == nchunk * (|closes| + 1);
      BoundariesSnoc(L, nchunk, closes, t);
      if m < nmap {
        ScanBoundaries(L, nchunk, nmap, t + 1, m + 1, closes + [t]);
        assert r == Scan(L, nchunk, nmap, t + 1, m + 1, closes + [t]);
      } else {
        assert r.closes == closes + [t];
      }
    } else if t < |L| {
      ScanBoundaries(L, nchunk, nmap, t + 1, m, closes);
      assert r == Scan(L, nchunk, nmap, t + 1, m, closes);
    } else {
      assert r.closes == closes;
    }
  }

  /**
   * When the loop hangs, no iteration after the last close ever reaches the
   * threshold of the chunk being filled, `nchunk * m`.
   */
  lemma {:induction false} ScanStuck(L: seq<string>, nchunk: nat, nmap: nat, t: nat, m: nat, closes: seq<nat>)
    requires 1 <= m <= nmap && |closes| == m - 1
    requires forall u :: Start(closes, |closes|) <= u < t ==> Offset(L, u) <= nchunk * m
    requires Scan(L, nchunk, nmap, t, m, closes).hangs
    ensures var r := Scan(L, nchunk, nmap, t, m, closes);
      exists k :: m <= k <= nmap && |r.closes| == k - 1 && Offset(L, t + |L|) <= nchunk * k
    decreases |L| - Min(t, |L|), nmap - m
  {
    if Offset(L, t) > nchunk * m {
      assert m < nmap;
      ScanStuck(L, nchunk, nmap, t + 1, m + 1, closes + [t]);
    } else if t < |L| {
      ScanStuck(L, nchunk, nmap, t + 1, m, closes);
    } else {
      assert Min(t + |L|, |L|) == Min(t, |L|);
      assert Offset(L, t + |L|) == Offset(L, t);
    }
  }

  /** The run of `split` on a file has the shape and boundaries above. */
  lemma SplitTraceFacts(content: string, nmap: nat)
    requires nmap > 0
    ensures var r := SplitTrace(content, nmap);
      Increasing(r.closes) && |r.closes| <= nmap && (|r.closes| == nmap <==> !r.hangs) &&
      Boundaries(Segments(content), ByteLen(content) / nmap, r.closes)
  {
    var L := Segments(content);
    var nchunk := ByteLen(content) / nmap;
    ScanShape(L, nchunk, nmap, 0, 1, []);
    ScanBoundaries(L, nchunk, nmap, 0, 1, []);
  }

  /** When `split` hangs, the whole file fits below the threshold of the open chunk. */
  lemma SplitStuck(content: string, nmap: nat)
    requires nmap > 0 && SplitTrace(content, nmap).hangs
    ensures exists k ::
      1 <= k <= nmap && |SplitTrace(content, nmap).closes| == k - 1 && ByteLen(content) <= ByteLen(content) / nmap * k
  {
    var L := Segments(content);
    var nchunk := ByteLen(content) / nmap;
    var r := SplitTrace(content, nmap);
    assert r == Scan(L, nchunk, nmap, 0, 1, []);
    ScanStuck(L, nchunk, nmap, 0, 1, []);
    var k :| 1 <= k <= nmap && |r.closes| == k - 1 && Offset(L, 0 + |L|) <= nchunk * k;
    OffsetEnd(content, |L|);
    assert ByteLen(content) <= nchunk * k;
  }

  /** Euclidean division, stated without products of variables in sight. */
  lemma DivFacts(size: nat, nmap: nat, k: nat)
    requires nmap > 0 && k <= nmap
    ensures size / nmap * k <= size / nmap * nmap <= size
    ensures size % nmap == 0 <==> size / nmap * nmap == size
  {
    MulMono(size / nmap, k, nmap);
  }

  // ---------------------------------------------------------------------
  // Termination

  /**
   * `split` never returns exactly when `nmap` divides the size of the file
   * (in particular for an empty file, and for every file when `nmap` is 1):
   * the last chunk closes only once the offset exceeds `nchunk * nmap`,
   * which is then the whole file.
   */
  lemma SplitHangs(content: string, nmap: nat)
    requires nmap > 0
    ensures SplitTrace(content, nmap).hangs <==> ByteLen(content) % nmap == 0
  {
    var size := ByteLen(content);
    var r := SplitTrace(content, nmap);
    SplitTraceFacts(content, nmap);
    if r.hangs {
      SplitStuck(content, nmap);
      var k :| 1 <= k <= nmap && |r.closes| == k - 1 && size <= size / nmap * k;
      DivFacts(size, nmap, k);
    } else {
      var L := Segments(content);
      var t := r.closes[nmap - 1];
      assert Offset(L, t) > size / nmap * nmap by {
        assert nmap - 1 < |r.closes|;
        assert nmap - 1 + 1 == nmap;
      }
      OffsetAtMost(content, t);
      DivFacts(size, nmap, nmap);
    }
  }

  // ---------------------------------------------------------------------
  // Coverage

  /** One more close appends the lines after the previous close. */
  lemma ChunksConcatSnoc(L: seq<string>, c: seq<nat>, t: nat)
    requires Start(c, |c|) <= t
    requires Concat(Chunks(L, c)) == Concat(L[..End(L, c)])
    ensures Concat(Chunks(L, c + [t])) == Concat(L[..End(L, c + [t])])
  {
    ChunksSnoc(L, c, t);
    var a := Min(Start(c, |c|), |L|);
    var b := Min(t + 1, |L|);
    assert End(L, c) == a;
    assert End(L, c + [t]) == b;
    var x := Concat(L[a..b]);
    ConcatAppend(Chunks(L, c), [x]);
    assert Concat([x]) == x by {
      assert [x][..0] == [];
    }
    ConcatSplit(L, 0, a, b);
    assert L[0..a] == L[..a] && L[0..b] == L[..b];
  }

  /** The chunks, in order, are the lines up to the last close. */
  lemma {:induction false} ChunksConcat(L: seq<string>, closes: seq<nat>)
    requires Increasing(closes)
    ensures Concat(Chunks(L, closes)) == Concat(L[..End(L, closes)])
    decreases |closes|
  {
    if closes == [] {
      assert Chunks(L, closes) == [];
    } else {
      var n := |closes| - 1;
      var c := closes[..n];
      assert closes == c + [closes[n]];
      assert Increasing(c);
      ChunksConcat(L, c);
      ChunksConcatSnoc(L, c, closes[n]);
    }
  }

  /**
   * The chunks of `split`, followed by the lines after the last close,
   * give back the file: nothing is duplicated or reordered, and only a tail
   * of whole lines can be left out.
   */
  lemma SplitCovers(content: string, nmap: nat)
    requires nmap > 0
    ensures var L := Segments(content); var r := SplitTrace(content, nmap);
      Concat(Chunks(L, r.closes)) == Concat(L[..End(L, r.closes)]) &&
      Concat(Chunks(L, r.closes)) + Concat(L[End(L, r.closes)..]) == content
  {
    var L := Segments(content);
    var r := SplitTrace(content, nmap);
    SplitTraceFacts(content, nmap);
    ChunksConcat(L, r.closes);
    var e := End(L, r.closes);
    ConcatSplit(L, 0, e, |L|);
    assert L[0..e] == L[..e] && L[0..|L|] == L && L[e..|L|] == L[e..];
    SegmentsConcat(content);
  }

  lemma {:induction false} IncreasingBelow(closes: seq<nat>, i: nat, j: nat)
    requires Increasing(closes) && i < j < |closes|
    ensures closes[i] < closes[j]
    decreases j - i
  {
    if i < j - 1 {
      IncreasingBelow(closes, i, j - 1);
    }
  }

  /**
   * A chunk that stops before the last line of the file ends in a newline;
   * one that reaches it is followed only by empty chunks.
   */
  lemma ChunkEnds(L: seq<string>, closes: seq<nat>, j: nat)
    requires Increasing(closes) && j < |closes|
    requires forall u :: 0 <= u < |L| - 1 ==> IsFullLine(L[u])
    ensures closes[j] + 1 < |L| ==> EndsBlank(Chunks(L, closes)[j])
    ensures closes[j] + 1 >= |L| ==> forall i :: j < i < |closes| ==> Chunks(L, closes)[i] == []
  {
    if closes[j] + 1 < |L| {
      var a := Min(Start(closes, j), |L|);
      var b := closes[j] + 1;
      var xs := L[a..b];
      assert Chunks(L, closes)[j] == Concat(xs);
      assert xs[|xs| - 1] == L[b - 1] && IsFullLine(L[b - 1]);
      var c := Concat(xs);
      assert c == Concat(xs[..|xs| - 1]) + L[b - 1];
      assert c[|c| - 1] == '\n';
    } else {
      forall i | j < i < |closes| ensures Chunks(L, closes)[i] == [] {
        IncreasingBelow(closes, j, i);
        if j < i - 1 {
          IncreasingBelow(closes, j, i - 1);
        }
        assert Min(Start(closes, i), |L|) == |L| && Min(closes[i] + 1, |L|) == |L|;
        assert ChunkLines(L, closes, i) == [];
      }
    }
  }

  /** The chunks of `split` cut the file between lines, so no token is cut in two. */
  lemma SplitAligned(content: string, nmap: nat)
    requires nmap > 0
    ensures Aligned(Chunks(Segments(content), SplitTrace(content, nmap).closes))
  {
    var L := Segments(content);
    var r := SplitTrace(content, nmap);
    SegmentsShape(content);
    ScanShape(L, ByteLen(content) / nmap, nmap, 0, 1, []);
    forall j | 0 <= j < |r.closes| - 1
      ensures EndsBlank(Chunks(L, r.closes)[j]) || forall i :: j < i < |r.closes| ==> Chunks(L, r.closes)[i] == []
    {
      ChunkEnds(L, r.closes, j);
    }
  }

  // ---------------------------------------------------------------------
  // The files written

  lemma MapNameLonger(f: string, j: nat)
    ensures |MapName(f, j)| > |f|
  {
  }

  /**
   * When `split` finishes, map input `j < nmap` holds chunk `j`, and every
   * other file, the input included, is as it was.
   */
  lemma SplitWrites(files: map<string, string>, f: string, nmap: nat)
    requires f in files && nmap > 0 && ByteLen(files[f]) % nmap != 0
    ensures var st := SplitPhase(files, f, nmap);
      var texts := Chunks(Segments(files[f]), SplitTrace(files[f], nmap).closes);
      st.outcome == Finished && |texts| == nmap &&
      (forall j :: 0 <= j < nmap ==> MapName(f, j) in st.files && st.files[MapName(f, j)] == texts[j]) &&
      (forall x :: x !in MapNames(f, nmap) ==>
        (x in st.files <==> x in files) && (x in files ==> st.files[x] == files[x])) &&
      f in st.files && st.files[f] == files[f]
  {
    var r := SplitTrace(files[f], nmap);
    SplitHangs(files[f], nmap);
    SplitTraceFacts(files[f], nmap);
    var texts := Chunks(Segments(files[f]), r.closes);
    MapNamesDistinct(f, nmap);
    WriteAllGet(files, MapNames(f, nmap), texts);
    forall j | 0 <= j < nmap ensures MapNames(f, nmap)[j] != f {
      MapNameLonger(f, j);
    }
  }

  /**
   * When `split` hangs, the chunks closed so far are written and the next
   * map input exists, empty; no more than `nmap` map inputs are created,
   * and every other file, the input included, is as it was.
   */
  lemma SplitHangWrites(files: map<string, string>, f: string, nmap: nat)
    requires f in files && nmap > 0 && ByteLen(files[f]) % nmap == 0
    ensures var st := SplitPhase(files, f, nmap);
      var texts := Chunks(Segments(files[f]), SplitTrace(files[f], nmap).closes);
      st.outcome == Hangs && |texts| < nmap &&
      (forall j :: 0 <= j < |texts| ==> MapName(f, j) in st.files && st.files[MapName(f, j)] == texts[j]) &&
      MapName(f, |texts|) in st.files && st.files[MapName(f, |texts|)] == "" &&
      (forall x :: x !in MapNames(f, |texts| + 1) ==>
        (x in st.files <==> x in files) && (x in files ==> st.files[x] == files[x])) &&
      f in st.files && st.files[f] == files[f]
  {
    var L := Segments(files[f]);
    var r := SplitTrace(files[f], nmap);
    SplitHangs(files[f], nmap);
    ScanShape(L, ByteLen(files[f]) / nmap, nmap, 0, 1, []);
    var texts := Chunks(L, r.closes);
    assert r.hangs && |texts| < nmap;
    assert SplitPhase(files, f, nmap) == Step(Hangs, WriteAll(files, MapNames(f, |texts| + 1), texts + [""]));
    HangStore(files, f, texts);
  }

  /** The store a hanging `split` leaves: the closed chunks, then one empty map input. */
  lemma HangStore(files: map<string, string>, f: string, texts: seq<string>)
    ensures var n := |texts| + 1;
      var w := WriteAll(files, MapNames(f, n), texts + [""]);
      (forall j :: 0 <= j < |texts| ==> MapName(f, j) in w && w[MapName(f, j)] == texts[j]) &&
      MapName(f, |texts|) in w && w[MapName(f, |texts|)] == "" &&
      (forall x :: x !in MapNames(f, n) ==> (x in w <==> x in files) && (x in files ==> w[x] == files[x])) &&
      (f in files ==> f in w && w[f] == files[f])
  {
    var n := |texts| + 1;
    MapNamesDistinct(f, n);
    WriteAllGet(files, MapNames(f, n), texts + [""]);
    forall j | 0 <= j < n ensures MapNames(f, n)[j] != f {
      MapNameLonger(f, j);
    }
    assert forall j :: 0 <= j < |texts| ==> (texts + [""])[j] == texts[j];
  }
}
