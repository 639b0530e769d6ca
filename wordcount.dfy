/**
 * The word-count job of src/main.rs: `map` emits `(word, "1")` for every
 * whitespace-separated token that keeps at least one alphanumeric character
 * once the others are dropped, and `reduce` adds up the counts.
 * `char::is_alphanumeric` is the parameter `alnum`.
 */
module WordCount {
  import opened Wrappers
  import opened Text
  import opened Decimal
  import opened Job

  /** `w.chars().filter(|c| c.is_alphanumeric()).collect()`. */
  function Keep(alnum: char -> bool, w: string): (r: string)
    ensures |r| <= |w|
    ensures forall i :: 0 <= i < |r| ==> alnum(r[i]) && r[i] in w
    ensures r == [] <==> forall i :: 0 <= i < |w| ==> !alnum(w[i])
  {
    if w == [] then []
    else
      var init := w[..|w| - 1];
      var c := w[|w| - 1];
      var r := Keep(alnum, init) + (if alnum(c) then [c] else []);
      assert forall i :: 0 <= i < |init| ==> init[i] == w[i];
      r
  }

  /** The pairs `map` emits for the tokens `ts`, in order. */
  function Emitted(alnum: char -> bool, ts: seq<string>): seq<KeyValue>
  {
    if ts == [] then []
    else
      var rest := Emitted(alnum, ts[..|ts| - 1]);
      var w := Keep(alnum, ts[|ts| - 1]);
      if w == [] then rest else rest + [KeyValue(w, "1")]
  }

  /** How many of the tokens `ts` come to `w` once their non-alphanumeric characters are dropped. */
  function Occurrences(alnum: char -> bool, ts: seq<string>, w: string): nat
  {
    if ts == [] then 0
    else Occurrences(alnum, ts[..|ts| - 1], w) + (if Keep(alnum, ts[|ts| - 1]) == w then 1 else 0)
  }

  /** The words of the tokens `ts`: what is left of each token that keeps a character. */
  function Words(alnum: char -> bool, ts: seq<string>): set<string>
  {
    set t | t in ts && Keep(alnum, t) != [] :: Keep(alnum, t)
  }

  /** The word-count map function, as the pipeline calls it. */
  function WordPairs(alnum: char -> bool, content: string): seq<KeyValue>
  {
    Emitted(alnum, Tokens(content))
  }

  /** `fn map(content: &str) -> Vec<KeyValue>`. */
  method Map(alnum: char -> bool, content: string) returns (v: seq<KeyValue>)
    ensures v == WordPairs(alnum, content)
  {
    v := [];
    var ts := Tokens(content);
    for i := 0 to |ts|
      invariant v == Emitted(alnum, ts[..i])
    {
      assert ts[..i + 1][..i] == ts[..i];
      var w := Keep(alnum, ts[i]);
      if w != [] {
        v := v + [KeyValue(w, "1")];
      }
    }
    assert ts[..|ts|] == ts;
  }

  // ---------------------------------------------------------------------
  // What map emits

  /** Emission distributes over the token list: tokens are handled one by one, in order. */
  lemma {:induction false} EmittedAppend(alnum: char -> bool, a: seq<string>, b: seq<string>)
    ensures Emitted(alnum, a + b) == Emitted(alnum, a) + Emitted(alnum, b)
    decreases |b|
  {
    if b == [] {
      assert a + b == a;
    } else {
      var init := b[..|b| - 1];
      var t := b[|b| - 1];
      EmittedAppend(alnum, a, init);
      assert (a + b)[..|a + b| - 1] == a + init;
      assert (a + b)[|a + b| - 1] == t;
      var w := Keep(alnum, t);
      if w != [] {
        var kv := KeyValue(w, "1");
        assert Emitted(alnum, a + b) == Emitted(alnum, a + init) + [kv];
        assert Emitted(alnum, b) == Emitted(alnum, init) + [kv];
      }
    }
  }

  /**
   * One token yields one pair, keyed by its alphanumeric characters, or
   * none at all when it has no alphanumeric character.
   */
  lemma EmittedOne(alnum: char -> bool, t: string)
    ensures Emitted(alnum, [t]) ==
      if forall i :: 0 <= i < |t| ==> !alnum(t[i]) then [] else [KeyValue(Keep(alnum, t), "1")]
  {
    assert [t][..0] == [];
  }

  /** At most one pair per token. */
  lemma {:induction false} EmittedAtMost(alnum: char -> bool, ts: seq<string>)
    ensures |Emitted(alnum, ts)| <= |ts|
  {
    if ts != [] {
      EmittedAtMost(alnum, ts[..|ts| - 1]);
    }
  }

  /**
   * Every key is a non-empty string of alphanumeric characters taken from
   * one of the tokens, and every value is "1".
   */
  lemma {:induction false} EmittedPairs(alnum: char -> bool, ts: seq<string>)
    ensures forall i :: 0 <= i < |Emitted(alnum, ts)| ==>
      var kv := Emitted(alnum, ts)[i];
      kv.key != [] && kv.value == "1" &&
      (forall j :: 0 <= j < |kv.key| ==> alnum(kv.key[j])) &&
      exists t :: t in ts && kv.key == Keep(alnum, t)
  {
    if ts != [] {
      var init := ts[..|ts| - 1];
      EmittedPairs(alnum, init);
      assert forall t :: t in init ==> t in ts;
      assert ts[|ts| - 1] in ts;
    }
  }

  /** Keys and values contain no whitespace and are non-empty when the tokens are tokens. */
  lemma {:induction false} EmittedClean(alnum: char -> bool, ts: seq<string>)
    requires forall i :: 0 <= i < |ts| ==> IsToken(ts[i])
    ensures forall i :: 0 <= i < |Emitted(alnum, ts)| ==> Clean(Emitted(alnum, ts)[i])
  {
    if ts != [] {
      var init := ts[..|ts| - 1];
      var t := ts[|ts| - 1];
      EmittedClean(alnum, init);
      var w := Keep(alnum, t);
      forall j | 0 <= j < |w| ensures !IsWhitespace(w[j]) {
        var k :| 0 <= k < |t| && t[k] == w[j];
      }
      assert IsToken("1");
    }
  }

  /** The keys emitted are exactly the words of the tokens. */
  lemma {:induction false} EmittedKeys(alnum: char -> bool, ts: seq<string>)
    ensures KeySet(Emitted(alnum, ts)) == Words(alnum, ts)
  {
    if ts != [] {
      var init := ts[..|ts| - 1];
      var t := ts[|ts| - 1];
      EmittedKeys(alnum, init);
      var w := Keep(alnum, t);
      assert ts == init + [t];
      forall x ensures x in Words(alnum, ts) <==> x in Words(alnum, init) || (w != [] && x == w) {
        if x in Words(alnum, ts) {
          var u :| u in ts && Keep(alnum, u) != [] && Keep(alnum, u) == x;
          if u != t {
            assert u in init;
          }
        }
        if x in Words(alnum, init) {
          var u :| u in init && Keep(alnum, u) != [] && Keep(alnum, u) == x;
          assert u in ts;
        }
      }
      if w != [] {
        KeySetSnoc(Emitted(alnum, init), KeyValue(w, "1"));
      }
    }
  }

  /**
   * What `do_map` writes for the word-count map reads back in `do_reduce`
   * as exactly the pairs emitted.
   */
  lemma WordPairsReadBack(alnum: char -> bool, content: string, name: string)
    ensures forall i :: 0 <= i < |WordPairs(alnum, content)| ==> Clean(WordPairs(alnum, content)[i])
    ensures ParseLines(name, Lines(Serialize(WordPairs(alnum, content)))) == Ok(WordPairs(alnum, content))
  {
    TokensAreTokens(content);
    EmittedClean(alnum, Tokens(content));
    ParseSerialize(name, WordPairs(alnum, content));
  }

  // ---------------------------------------------------------------------
  // reduce

  /**
   * `values.iter().fold(0, |acc, v| v.parse::<usize>().unwrap() + acc)`:
   * the sum, or `None` where `unwrap` panics on a value that is not a
   * number.
   */
  function Sum(values: seq<string>): Option<nat>
  {
    if values == [] then Some(0)
    else
      match Sum(values[..|values| - 1])
      case None => None
      case Some(acc) =>
        match Parse(values[|values| - 1])
        case None => None
        case Some(n) => Some(n + acc)
  }

  /** `fn reduce(key, values)`: the decimal rendering of the count; `None` is a panic. */
  function Reduce(key: string, values: seq<string>): Option<string>
  {
    match Sum(values)
    case None => None
    case Some(n) => Some(Render(n))
  }

  /** The numbers the values stand for, when all of them parse. */
  function Total(ns: seq<nat>): nat
  {
    if ns == [] then 0 else Total(ns[..|ns| - 1]) + ns[|ns| - 1]
  }

  /** `reduce` panics exactly when some value does not parse as a number. */
  lemma {:induction false} SumFails(values: seq<string>)
    ensures Sum(values).None? <==> exists i :: 0 <= i < |values| && Parse(values[i]).None?
  {
    if values != [] {
      var init := values[..|values| - 1];
      SumFails(init);
      assert forall i :: 0 <= i < |init| ==> init[i] == values[i];
      if Parse(values[|values| - 1]).None? {
        assert Parse(values[|values| - 1]).None?;
      }
    }
  }

  /** On rendered numbers, `reduce` renders their total. */
  lemma {:induction false} SumRendered(ns: seq<nat>)
    ensures Sum(seq(|ns|, i requires 0 <= i < |ns| => Render(ns[i]))) == Some(Total(ns))
  {
    var vs := seq(|ns|, i requires 0 <= i < |ns| => Render(ns[i]));
    if ns != [] {
      var init := ns[..|ns| - 1];
      SumRendered(init);
      assert vs[..|vs| - 1] == seq(|init|, i requires 0 <= i < |init| => Render(init[i]));
      ParseRender(ns[|ns| - 1]);
    }
  }

  /** A list of `n` copies of "1". */
  function Ones(n: nat): (vs: seq<string>)
    ensures |vs| == n && forall i :: 0 <= i < n ==> vs[i] == "1"
  {
    seq(n, i => "1")
  }

  /** On `n` copies of "1" `reduce` returns the rendering of `n`; on none, "0". */
  lemma {:induction false} ReduceOnes(key: string, n: nat)
    ensures Reduce(key, Ones(n)) == Some(Render(n))
    ensures n == 0 ==> Reduce(key, Ones(n)) == Some("0")
  {
    SumOnes(n);
  }

  lemma {:induction false} SumOnes(n: nat)
    ensures Sum(Ones(n)) == Some(n)
  {
    if n > 0 {
      SumOnes(n - 1);
      assert Ones(n)[..n - 1] == Ones(n - 1);
      assert DigitsValue("1") == DigitsValue("1"[..0]) * 10 + 1;
    }
  }
}
