/**
 * The word-count job of src/main.rs run through `run_single`: a finished
 * run writes every word of the input once, in increasing order, with the
 * number of times it occurs, in decimal. The words counted are those of the
 * lines `split` hands to the map jobs: the whole file but for a tail of whole
 * lines that `split` can leave out.
 */
module WordCountRun {
  import opened Wrappers
  import opened Text
  import opened Decimal
  import opened Job
  import opened Splitter
  import opened SplitFacts
  import opened ReduceDriver
  import opened Coordinator
  import opened WordCount
  import opened RunFacts

  /** The word-count `map`, as the function `run_single` is given. */
  function WordMapper(alnum: char -> bool): string -> seq<KeyValue>
  {
    content => WordPairs(alnum, content)
  }

  /** The word-count pair meets what a run needs of its map and reduce functions. */
  lemma WordCountFits(alnum: char -> bool)
    ensures CleanMapper(WordMapper(alnum)) && TokenReducer(Reduce)
  {
    forall content: string
      ensures forall i :: 0 <= i < |WordMapper(alnum)(content)| ==> Clean(WordMapper(alnum)(content)[i])
    {
      WordPairsReadBack(alnum, content, "");
    }
    forall k: string, vs: seq<string> | Reduce(k, vs).Some? ensures IsToken(Reduce(k, vs).value) {
      RenderIsToken(Sum(vs).value);
    }
  }

  /** Every value the word-count map jobs emit is "1". */
  lemma {:induction false} AllOnes(alnum: char -> bool, texts: seq<string>)
    ensures forall i :: 0 <= i < |AllPairs(WordMapper(alnum), texts)| ==> AllPairs(WordMapper(alnum), texts)[i].value == "1"
  {
    if texts != [] {
      var init: seq<KeyValue> := AllPairs(WordMapper(alnum), texts[..|texts| - 1]);
      var more: seq<KeyValue> := WordPairs(alnum, texts[|texts| - 1]);
      AllOnes(alnum, texts[..|texts| - 1]);
      EmittedPairs(alnum, Tokens(texts[|texts| - 1]));
      assert AllPairs(WordMapper(alnum), texts) == init + more;
      forall i: int | 0 <= i < |init + more| ensures (init + more)[i].value == "1" {
        if i >= |init| {
          assert (init + more)[i] == more[i - |init|];
        }
      }
    }
  }

  /** When every value is "1", the values of a key are as many "1"s as it has pairs. */
  lemma {:induction false} ValuesForOnes(kvs: seq<KeyValue>, k: string)
    requires forall i :: 0 <= i < |kvs| ==> kvs[i].value == "1"
    ensures ValuesFor(kvs, k) == Ones(|ValuesFor(kvs, k)|)
  {
    if kvs != [] {
      var init := kvs[..|kvs| - 1];
      ValuesForOnes(init, k);
      var vs := ValuesFor(kvs, k);
      assert forall i :: 0 <= i < |vs| ==> vs[i] == "1";
    }
  }

  /** A word's values are one per token that comes to it. */
  lemma {:induction false} EmittedCounts(alnum: char -> bool, ts: seq<string>, w: string)
    requires w != []
    ensures |ValuesFor(WordCount.Emitted(alnum, ts), w)| == Occurrences(alnum, ts, w)
  {
    if ts != [] {
      var init := ts[..|ts| - 1];
      var k := Keep(alnum, ts[|ts| - 1]);
      var e := WordCount.Emitted(alnum, init);
      EmittedCounts(alnum, init, w);
      if k != [] {
        assert WordCount.Emitted(alnum, ts) == e + [KeyValue(k, "1")];
        assert (e + [KeyValue(k, "1")])[..|e|] == e;
      }
    }
  }

  /**
   * Word pairs of texts no token straddles are the word pairs of the texts
   * put together: map job after map job, the pairs come out as if one map
   * job had read the whole of them.
   */
  lemma {:induction false} AllPairsWords(alnum: char -> bool, texts: seq<string>)
    requires Aligned(texts)
    ensures AllPairs(WordMapper(alnum), texts) == WordPairs(alnum, Concat(texts))
  {
    if texts != [] {
      var init := texts[..|texts| - 1];
      var last := texts[|texts| - 1];
      forall j | 0 <= j < |init| - 1
        ensures EndsBlank(init[j]) || forall i :: j < i < |init| ==> init[i] == []
      {
        assert init[j] == texts[j];
        if !EndsBlank(init[j]) {
          assert forall i :: j < i < |init| ==> init[i] == texts[i];
        }
      }
      AllPairsWords(alnum, init);
      assert AllPairs(WordMapper(alnum), texts) == WordPairs(alnum, Concat(init)) + WordPairs(alnum, last);
      if last == [] {
        assert Concat(texts) == Concat(init) + last == Concat(init);
        assert WordPairs(alnum, last) == [];
        assert AllPairs(WordMapper(alnum), texts) == WordPairs(alnum, Concat(init)) + [];
      } else {
        forall j | 0 <= j < |init| ensures EndsBlank(init[j]) {
          assert init[j] == texts[j] && texts[|texts| - 1] != [];
        }
        ConcatEndsBlank(init);
        TokensAppend(Concat(init), last);
        EmittedAppend(alnum, Tokens(Concat(init)), Tokens(last));
      }
    }
  }

  /**
   * A finished word-count run writes, as the final file, every word the
   * map jobs emitted, once each and in strictly increasing order, with the
   * decimal number of times it was emitted.
   */
  lemma WordCountOverChunks(files: map<string, string>, f: string, nmap: nat, nreduce: nat,
                        hash: string -> nat, alnum: char -> bool)
    requires nreduce > 0
    requires Pipeline(files, f, nmap, nreduce, hash, WordMapper(alnum), Reduce).outcome == Finished
    ensures f in files && nmap > 0
    ensures var st := Pipeline(files, f, nmap, nreduce, hash, WordMapper(alnum), Reduce);
      var all := AllPairs(WordMapper(alnum), SplitTexts(files, f, nmap));
      FinalName(f) in st.files &&
      exists out: seq<KeyValue> ::
        st.files[FinalName(f)] == Serialize(out) && KeysIncreasing(out) && KeySet(out) == KeySet(all) &&
        forall i :: 0 <= i < |out| ==> out[i].value == Render(|ValuesFor(all, out[i].key)|)
  {
    WordCountFits(alnum);
    RunSingleResult(files, f, nmap, nreduce, hash, WordMapper(alnum), Reduce);
    var st := Pipeline(files, f, nmap, nreduce, hash, WordMapper(alnum), Reduce);
    var all := AllPairs(WordMapper(alnum), SplitTexts(files, f, nmap));
    var out: seq<KeyValue> :|
      st.files[FinalName(f)] == Serialize(out) && KeysIncreasing(out) && KeySet(out) == KeySet(all) &&
      forall i :: 0 <= i < |out| ==> Reduce(out[i].key, ValuesFor(all, out[i].key)) == Some(out[i].value);
    AllOnes(alnum, SplitTexts(files, f, nmap));
    forall i | 0 <= i < |out| ensures out[i].value == Render(|ValuesFor(all, out[i].key)|) {
      ValuesForOnes(all, out[i].key);
      ReduceOnes(out[i].key, |ValuesFor(all, out[i].key)|);
    }
  }

  /**
   * What a finished word-count run computes from its input. `split` hands
   * the map jobs the first lines of the file, leaving out at most a tail of
   * whole lines; the final file lists every word of those lines once, in
   * strictly increasing order, each with the decimal number of its
   * occurrences there.
   */
  lemma WordCountResult(files: map<string, string>, f: string, nmap: nat, nreduce: nat,
                        hash: string -> nat, alnum: char -> bool)
    requires nreduce > 0
    requires Pipeline(files, f, nmap, nreduce, hash, WordMapper(alnum), Reduce).outcome == Finished
    ensures f in files && nmap > 0
    ensures var L := Segments(files[f]);
      var e := End(L, SplitTrace(files[f], nmap).closes);
      var kept := Concat(SplitTexts(files, f, nmap));
      kept == Concat(L[..e]) && kept + Concat(L[e..]) == files[f]
    ensures var st := Pipeline(files, f, nmap, nreduce, hash, WordMapper(alnum), Reduce);
      var words := Tokens(Concat(SplitTexts(files, f, nmap)));
      FinalName(f) in st.files &&
      exists out: seq<KeyValue> ::
        st.files[FinalName(f)] == Serialize(out) && KeysIncreasing(out) && KeySet(out) == Words(alnum, words) &&
        forall i :: 0 <= i < |out| ==> out[i].value == Render(Occurrences(alnum, words, out[i].key))
  {
    WordCountOverChunks(files, f, nmap, nreduce, hash, alnum);
    SplitCovers(files[f], nmap);
    var texts := SplitTexts(files, f, nmap);
    SplitAligned(files[f], nmap);
    AllPairsWords(alnum, texts);
    var st := Pipeline(files, f, nmap, nreduce, hash, WordMapper(alnum), Reduce);
    var all := AllPairs(WordMapper(alnum), texts);
    var words := Tokens(Concat(texts));
    assert all == WordCount.Emitted(alnum, words);
    var out: seq<KeyValue> :|
      st.files[FinalName(f)] == Serialize(out) && KeysIncreasing(out) && KeySet(out) == KeySet(all) &&
      forall i :: 0 <= i < |out| ==> out[i].value == Render(|ValuesFor(all, out[i].key)|);
    EmittedKeys(alnum, words);
    EmittedPairs(alnum, words);
    forall i | 0 <= i < |out| ensures out[i].value == Render(Occurrences(alnum, words, out[i].key)) {
      assert out[i].key in KeySet(out);
      var j :| 0 <= j < |all| && all[j].key == out[i].key;
      EmittedCounts(alnum, words, out[i].key);
    }
  }
}
