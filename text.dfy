/**
 * Strings as the pipeline sees them: concatenation, UTF-8 byte length,
 * Rust's `char::is_whitespace` and `str::split_whitespace`, and the two ways
 * the pipeline cuts a file into lines (`BufRead::read_line`, which keeps the
 * newline, and `BufRead::lines`, which drops it).
 */
module Text {

  function Min(a: nat, b: nat): nat
  {
    if a <= b then a else b
  }

  /** The strings of `ss`, one after the other. */
  function Concat(ss: seq<string>): string
  {
    if ss == [] then "" else Concat(ss[..|ss| - 1]) + ss[|ss| - 1]
  }

  lemma {:induction false} ConcatAppend(a: seq<string>, b: seq<string>)
    ensures Concat(a + b) == Concat(a) + Concat(b)
  {
    if b == [] {
      assert a + b == a;
    } else {
      assert (a + b)[..|a + b| - 1] == a + b[..|b| - 1];
      ConcatAppend(a, b[..|b| - 1]);
    }
  }

  lemma ConcatCons(x: string, rest: seq<string>)
    ensures Concat([x] + rest) == x + Concat(rest)
  {
    ConcatAppend([x], rest);
    assert Concat([x]) == Concat([]) + x;
  }

  /** Concat of a slice taken in two contiguous pieces. */
  lemma ConcatSplit(ss: seq<string>, a: nat, b: nat, c: nat)
    requires a <= b <= c <= |ss|
    ensures Concat(ss[a..c]) == Concat(ss[a..b]) + Concat(ss[b..c])
  {
    assert ss[a..c] == ss[a..b] + ss[b..c];
    ConcatAppend(ss[a..b], ss[b..c]);
  }

  // ---------------------------------------------------------------------
  // UTF-8 byte length (what `metadata().len()` and `read_line` count)

  /** Number of bytes UTF-8 needs for the scalar value `c`. */
  function Utf8Width(c: char): nat
  {
    if c as int < 0x80 then 1
    else if c as int < 0x800 then 2
    else if c as int < 0x1_0000 then 3
    else 4
  }

  function ByteLen(s: string): nat
  {
    if s == [] then 0 else ByteLen(s[..|s| - 1]) + Utf8Width(s[|s| - 1])
  }

  lemma {:induction false} ByteLenAppend(a: string, b: string)
    ensures ByteLen(a + b) == ByteLen(a) + ByteLen(b)
  {
    if b == [] {
      assert a + b == a;
    } else {
      assert (a + b)[..|a + b| - 1] == a + b[..|b| - 1];
      ByteLenAppend(a, b[..|b| - 1]);
    }
  }

  /** A non-empty string takes at least one byte. */
  lemma ByteLenPositive(s: string)
    requires s != []
    ensures ByteLen(s) > 0
  {
  }

  // ---------------------------------------------------------------------
  // Whitespace and tokens

  /**
   * Rust's `char::is_whitespace`: the Unicode White_Space property, which
   * holds for exactly these 25 code points.
   */
  predicate IsWhitespace(c: char)
  {
    var n := c as int;
    n == 0x20 || 0x09 <= n <= 0x0D || n == 0x85 || n == 0xA0 || n == 0x1680
    || 0x2000 <= n <= 0x200A || n == 0x2028 || n == 0x2029 || n == 0x202F
    || n == 0x205F || n == 0x3000
  }

  /** A non-empty string without whitespace: what `split_whitespace` yields. */
  predicate IsToken(w: string)
  {
    w != [] && forall i :: 0 <= i < |w| ==> !IsWhitespace(w[i])
  }

  /** Length of the maximal run of non-whitespace characters that starts `s`. */
  function WordLen(s: string): (n: nat)
    ensures n <= |s|
    ensures forall i :: 0 <= i < n ==> !IsWhitespace(s[i])
    ensures n < |s| ==> IsWhitespace(s[n])
  {
    if s == [] || IsWhitespace(s[0]) then 0 else 1 + WordLen(s[1..])
  }

  /** `str::split_whitespace`: the maximal runs of non-whitespace, in order. */
  function Tokens(s: string): seq<string>
    decreases |s|
  {
    if s == [] then []
    else if IsWhitespace(s[0]) then Tokens(s[1..])
    else
      var n := WordLen(s);
      [s[..n]] + Tokens(s[n..])
  }

  lemma {:induction false} TokensAreTokens(s: string)
    ensures forall i :: 0 <= i < |Tokens(s)| ==> IsToken(Tokens(s)[i])
    decreases |s|
  {
    if s == [] {
    } else if IsWhitespace(s[0]) {
      TokensAreTokens(s[1..]);
    } else {
      TokensAreTokens(s[WordLen(s)..]);
    }
  }

  lemma {:induction false} WordLenOfToken(w: string, rest: string)
    requires forall i :: 0 <= i < |w| ==> !IsWhitespace(w[i])
    requires rest == [] || IsWhitespace(rest[0])
    ensures WordLen(w + rest) == |w|
  {
    if w == [] {
      assert w + rest == rest;
    } else {
      assert (w + rest)[1..] == w[1..] + rest;
      WordLenOfToken(w[1..], rest);
    }
  }

  lemma {:induction false} TokensOfBlank(s: string)
    requires forall i :: 0 <= i < |s| ==> IsWhitespace(s[i])
    ensures Tokens(s) == []
    decreases |s|
  {
    if s != [] {
      TokensOfBlank(s[1..]);
    }
  }

  /** A string made of one token has exactly that token. */
  lemma TokensOfToken(w: string)
    requires IsToken(w)
    ensures Tokens(w) == [w]
  {
    WordLenOfToken(w, "");
    assert w + "" == w;
    assert w[|w|..] == "";
  }

  /** `k + " " + v` splits back into `[k, v]` when both are tokens. */
  lemma TokensOfPair(k: string, v: string)
    requires IsToken(k) && IsToken(v)
    ensures Tokens(k + " " + v) == [k, v]
  {
    var s := k + " " + v;
    WordLenOfToken(k, " " + v);
    assert s == k + (" " + v);
    assert s[..|k|] == k;
    assert s[|k|..] == " " + v;
    assert (" " + v)[1..] == v;
    TokensOfToken(v);
  }

  /** Nothing but whitespace (possibly nothing at all). */
  predicate Blank(s: string)
  {
    forall i :: 0 <= i < |s| ==> IsWhitespace(s[i])
  }

  /** Leading whitespace, then a token that ends at whitespace or at the end: that token comes first. */
  lemma {:induction false} TokensLead(a: string, t: string, rest: string)
    requires Blank(a) && IsToken(t) && (rest == [] || IsWhitespace(rest[0]))
    ensures Tokens(a + t + rest) == [t] + Tokens(rest)
    decreases |a|
  {
    var s := a + t + rest;
    if a == [] {
      assert s == t + rest;
      WordLenOfToken(t, rest);
      assert s[..|t|] == t && s[|t|..] == rest;
    } else {
      assert s[0] == a[0];
      assert s[1..] == a[1..] + t + rest;
      TokensLead(a[1..], t, rest);
    }
  }

  /** The first token of `s`, with the whitespace before it and what follows it. */
  lemma {:induction false} TokensHead(s: string) returns (a: string, rest: string)
    requires Tokens(s) != []
    ensures Blank(a) && s == a + Tokens(s)[0] + rest && (rest == [] || IsWhitespace(rest[0]))
    ensures Tokens(rest) == Tokens(s)[1..]
    decreases |s|
  {
    if IsWhitespace(s[0]) {
      var a', rest' := TokensHead(s[1..]);
      a, rest := [s[0]] + a', rest';
      assert s == [s[0]] + s[1..];
    } else {
      var n := WordLen(s);
      a, rest := [], s[n..];
      assert s == s[..n] + s[n..];
    }
  }

  /** `s` is empty or ends in whitespace, so no token runs on past its end. */
  predicate EndsBlank(s: string)
  {
    s == [] || IsWhitespace(s[|s| - 1])
  }

  /**
   * Pieces of text no token straddles: each piece but the last ends in
   * whitespace, unless only empty pieces follow it.
   */
  predicate Aligned(xs: seq<string>)
  {
    forall j :: 0 <= j < |xs| - 1 ==> EndsBlank(xs[j]) || forall i :: j < i < |xs| ==> xs[i] == []
  }

  lemma {:induction false} ConcatEndsBlank(xs: seq<string>)
    requires forall j :: 0 <= j < |xs| ==> EndsBlank(xs[j])
    ensures EndsBlank(Concat(xs))
  {
    if xs != [] {
      var init := xs[..|xs| - 1];
      ConcatEndsBlank(init);
      var last := xs[|xs| - 1];
      if last == [] {
        assert Concat(xs) == Concat(init) + [];
      } else {
        var c := Concat(xs);
        assert c == Concat(init) + last;
        assert c[|c| - 1] == last[|last| - 1];
      }
    }
  }

  /**
   * Tokenising distributes over a cut that falls after whitespace: no token
   * can straddle it.
   */
  lemma {:induction false} TokensAppend(a: string, b: string)
    requires a == [] || IsWhitespace(a[|a| - 1])
    ensures Tokens(a + b) == Tokens(a) + Tokens(b)
    decreases |a|
  {
    if a == [] {
      assert a + b == b;
    } else if IsWhitespace(a[0]) {
      assert (a + b)[1..] == a[1..] + b;
      TokensAppend(a[1..], b);
    } else {
      var n := WordLen(a);
      assert n < |a|;
      WordLenOfToken(a[..n], a[n..] + b);
      assert a + b == a[..n] + (a[n..] + b);
      assert (a + b)[..n] == a[..n];
      assert (a + b)[n..] == a[n..] + b;
      TokensAppend(a[n..], b);
    }
  }

  // ---------------------------------------------------------------------
  // Lines

  /** Length of the line that starts `s`: up to and including its first '\n'. */
  function LineLen(s: string): (n: nat)
    ensures s != [] ==> 1 <= n
    ensures n <= |s|
    ensures forall i :: 0 <= i < n - 1 ==> s[i] != '\n'
    ensures n < |s| ==> s[n - 1] == '\n'
  {
    if s == [] then 0 else if s[0] == '\n' then 1 else 1 + LineLen(s[1..])
  }

  /**
   * The successive results of `BufRead::read_line` on a reader over `s`:
   * each line keeps its newline, the last one may lack it.
   */
  function Segments(s: string): seq<string>
    decreases |s|
  {
    if s == [] then []
    else
      var n := LineLen(s);
      [s[..n]] + Segments(s[n..])
  }

  /** A segment ending in '\n' with no other '\n'; it is not the last of a file. */
  predicate IsFullLine(x: string)
  {
    |x| > 0 && x[|x| - 1] == '\n' && forall i :: 0 <= i < |x| - 1 ==> x[i] != '\n'
  }

  /** Reassembling the lines gives back the file. */
  lemma {:induction false} SegmentsConcat(s: string)
    ensures Concat(Segments(s)) == s
    decreases |s|
  {
    if s != [] {
      var n := LineLen(s);
      SegmentsConcat(s[n..]);
      ConcatCons(s[..n], Segments(s[n..]));
      assert s[..n] + s[n..] == s;
    }
  }

  /** Every line but the last ends in a newline; every line is non-empty. */
  lemma {:induction false} SegmentsShape(s: string)
    ensures forall j :: 0 <= j < |Segments(s)| ==> Segments(s)[j] != []
    ensures forall j :: 0 <= j < |Segments(s)| - 1 ==> IsFullLine(Segments(s)[j])
    decreases |s|
  {
    if s != [] {
      var n := LineLen(s);
      SegmentsShape(s[n..]);
      var rest := Segments(s[n..]);
      if rest != [] {
        assert s[n..] != [];
        assert s[n - 1] == '\n';
      }
    }
  }

  lemma {:induction false} SegmentsOfLines(xs: seq<string>)
    requires forall j :: 0 <= j < |xs| ==> IsFullLine(xs[j])
    ensures Segments(Concat(xs)) == xs
    decreases |xs|
  {
    if xs != [] {
      var x := xs[0];
      assert xs == [x] + xs[1..];
      ConcatCons(x, xs[1..]);
      var s := Concat(xs);
      assert s == x + Concat(xs[1..]);
      LineLenOfLine(x, Concat(xs[1..]));
      assert s[..|x|] == x;
      assert s[|x|..] == Concat(xs[1..]);
      SegmentsOfLines(xs[1..]);
    }
  }

  lemma {:induction false} LineLenOfLine(x: string, rest: string)
    requires IsFullLine(x)
    ensures LineLen(x + rest) == |x|
  {
    if |x| > 1 {
      assert (x + rest)[1..] == x[1..] + rest;
      LineLenOfLine(x[1..], rest);
    }
  }

  /** What `BufRead::lines` does to a line: drop a trailing "\n" or "\r\n". */
  function StripEol(x: string): string
  {
    if |x| > 0 && x[|x| - 1] == '\n' then
      var y := x[..|x| - 1];
      if |y| > 0 && y[|y| - 1] == '\r' then y[..|y| - 1] else y
    else x
  }

  /** The items of `BufRead::lines` on a reader over `s`. */
  function Lines(s: string): (ls: seq<string>)
    ensures |ls| == |Segments(s)|
  {
    var segs := Segments(s);
    seq(|segs|, j requires 0 <= j < |segs| => StripEol(segs[j]))
  }
}
