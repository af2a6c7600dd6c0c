/**
 * The word counter of wordcount.c: every maximal run of letters in a
 * character buffer is one occurrence of a word, counted in a hash map with
 * the polynomial hash and an incrementing collision resolver, and the counts
 * are reported by iterating over the map.
 */
module WordCount {
  import opened Wrappers
  import HashMaps
  import Hash
  import Parser

  // ---------------------------------------------------------------------------
  // The words of a buffer

  /** The letters at the start of t form a prefix of t. */
  lemma {:induction false} LeadingPrefix(t: seq<char>)
    ensures |Parser.Leading(t)| <= |t| && Parser.Leading(t) == t[..|Parser.Leading(t)|]
  {
    if t != [] && Parser.IsAlpha(t[0]) {
      LeadingPrefix(t[1..]);
    }
  }

  /** The maximal runs of letters of t, in order: the words of the buffer. */
  function Runs(t: seq<char>): seq<string>
    decreases |t|
  {
    if t == [] then []
    else if !Parser.IsAlpha(t[0]) then Runs(t[1..])
    else
      LeadingPrefix(t);
      var r := Parser.Leading(t);
      [r] + Runs(t[|r|..])
  }

  /** A run of letters followed by the end or by a character that is not a letter is read whole. */
  lemma {:induction false} LeadingRun(r: seq<char>, u: seq<char>)
    requires forall j :: 0 <= j < |r| ==> Parser.IsAlpha(r[j])
    requires u == [] || !Parser.IsAlpha(u[0])
    ensures Parser.Leading(r + u) == r
  {
    if r != [] {
      assert (r + u)[1..] == r[1..] + u;
      LeadingRun(r[1..], u);
    } else {
      assert r + u == u;
    }
  }

  /** A run cannot reach past a character that is not a letter. */
  lemma {:induction false} LeadingConcat(t: seq<char>, u: seq<char>)
    requires t != [] && !Parser.IsAlpha(t[|t| - 1])
    ensures Parser.Leading(t + u) == Parser.Leading(t)
  {
    if Parser.IsAlpha(t[0]) {
      assert (t + u)[1..] == t[1..] + u;
      LeadingConcat(t[1..], u);
    }
  }

  /** Where t ends at a word boundary, the words of t + u are those of t and then those of u. */
  lemma {:induction false} RunsConcat(t: seq<char>, u: seq<char>)
    requires t == [] || !Parser.IsAlpha(t[|t| - 1])
    ensures Runs(t + u) == Runs(t) + Runs(u)
    decreases |t|
  {
    if t == [] {
      assert t + u == u;
    } else if !Parser.IsAlpha(t[0]) {
      assert (t + u)[1..] == t[1..] + u;
      RunsConcat(t[1..], u);
    } else {
      LeadingConcat(t, u);
      LeadingPrefix(t);
      var r := Parser.Leading(t);
      assert |r| < |t|;
      assert (t + u)[|r|..] == t[|r|..] + u;
      RunsConcat(t[|r|..], u);
      assert [r] + (Runs(t[|r|..]) + Runs(u)) == ([r] + Runs(t[|r|..])) + Runs(u);
    }
  }

  /** A run of letters followed by the end or by one other character is one word. */
  lemma RunsOfRun(r: seq<char>, u: seq<char>)
    requires r != [] && forall j :: 0 <= j < |r| ==> Parser.IsAlpha(r[j])
    requires u == [] || (|u| == 1 && !Parser.IsAlpha(u[0]))
    ensures Runs(r + u) == [r]
  {
    var t := r + u;
    LeadingRun(r, u);
    assert t[0] == r[0] && t[|r|..] == u;
    assert Runs(u) == [] by {
      if u != [] {
        assert u[1..] == [];
      }
    }
    assert Runs(t) == [r] + Runs(t[|r|..]);
  }

  // ---------------------------------------------------------------------------
  // Counting

  /** resolve_collision_increment: the old count plus one as an `unsigned int`; the new value is ignored. */
  function ResolveIncrement(old_count: nat, new_count: nat): (r: nat)
    ensures r < Hash.U32
  {
    (old_count + 1) % Hash.U32
  }

  /** The counts after one more occurrence of word: one for a new word, the resolver's increment otherwise. */
  function Bump(counts: map<string, nat>, word: string): map<string, nat>
  {
    counts[word := if word in counts then ResolveIncrement(counts[word], counts[word]) else 1]
  }

  /** The counts after the occurrences ws, in order. */
  function Tally(ws: seq<string>): map<string, nat>
  {
    if ws == [] then map[] else Bump(Tally(ws[..|ws| - 1]), ws[|ws| - 1])
  }

  /** Each counted word occurs in ws, and its count is its number of occurrences, modulo 2^32. */
  lemma {:induction false} TallyCounts(ws: seq<string>, k: string)
    ensures k in Tally(ws) <==> k in ws
    ensures k in Tally(ws) ==> Tally(ws)[k] == multiset(ws)[k] % Hash.U32
  {
    if ws != [] {
      var init, x := ws[..|ws| - 1], ws[|ws| - 1];
      TallyCounts(init, k);
      assert ws == init + [x];
      assert multiset(ws) == multiset(init) + multiset{x};
      var m := multiset(init)[k];
      if x == k {
        assert multiset(ws)[k] == m + 1;
        if k in Tally(init) {
          Hash.ModMulAdd(1, 1, m, Hash.U32);
        } else {
          assert m == 0;
        }
      } else {
        assert multiset(ws)[k] == m;
        assert k in ws <==> k in init;
      }
    }
  }

  /**
   * One occurrence of word in count_words: look the count up, store 1 for a
   * word not seen before, and otherwise let insert_data's resolver increment
   * the stored count.
   */
  method CountWord(hm: HashMaps.HashMap<nat>, word: string)
    requires hm.Valid() && hm.hashFunction.requires(word)
    modifies hm, hm.buckets
    ensures hm.Valid() && hm.buckets == old(hm.buckets) && hm.hashFunction == old(hm.hashFunction)
    ensures hm.contents == Bump(old(hm.contents), word)
  {
    var data := hm.GetData(word);
    var count := if data.None? then 1 else data.value;
    hm.InsertData(word, count, Some(ResolveIncrement));
  }

  /** The text up to position j ends at a word boundary. */
  predicate Boundary(text: seq<char>, j: nat)
    requires j <= |text|
  {
    j == 0 || !Parser.IsAlpha(text[j - 1])
  }

  /** The letters from start up to i form a run that begins at a word boundary. */
  ghost predicate InRun(text: seq<char>, start: nat, i: nat)
  {
    start < i <= |text| && Boundary(text, start) && forall j :: start <= j < i ==> Parser.IsAlpha(text[j])
  }

  /**
   * What count_words has counted before position i: the words of the text up
   * to the start of the word being read, or up to i outside a word.
   */
  ghost predicate Counted(text: seq<char>, counts: map<string, nat>, reading: bool, start: nat, i: nat)
  {
    && (reading ==> InRun(text, start, i) && i < |text| && counts == Tally(Runs(text[..start])))
    && (!reading ==> i <= |text| && (Boundary(text, i) || i == |text|) && counts == Tally(Runs(text[..i])))
  }

  /**
   * The body of count_words' loop for character i: a letter after a
   * non-letter starts a word (and moves on to the next character unless it is
   * the last); the first non-letter after a word, or the last character of
   * the buffer, ends it, and the word (with the last character when that is a
   * letter) is counted.
   */
  method CountStep(text: seq<char>, hm: HashMaps.HashMap<nat>, i: nat, reading: bool, start: nat)
    returns (reading': bool, start': nat)
    requires hm.Valid() && forall k: string :: |k| > 0 ==> hm.hashFunction.requires(k)
    requires i < |text| && Counted(text, hm.contents, reading, start, i)
    modifies hm, hm.buckets
    ensures hm.Valid() && hm.buckets == old(hm.buckets) && hm.hashFunction == old(hm.hashFunction)
    ensures Counted(text, hm.contents, reading', start', i + 1)
  {
    reading', start' := reading, start;
    var character := text[i];
    if !reading && Parser.IsAlpha(character) {
      reading' := true;
      start' := i;
      if i != |text| - 1 {
        return;
      }
    }
    if reading' && (!Parser.IsAlpha(character) || i == |text| - 1) {
      reading' := false;
      EndWord(text, hm, start', i);
    } else if !reading' {
      NonLetter(text, i);
    }
  }

  /** The end of a word at character i: copy the word's letters from the buffer and count it. */
  method EndWord(text: seq<char>, hm: HashMaps.HashMap<nat>, start: nat, i: nat)
    requires hm.Valid() && forall k: string :: |k| > 0 ==> hm.hashFunction.requires(k)
    requires start <= i < |text| && Boundary(text, start)
    requires forall j :: start <= j < i ==> Parser.IsAlpha(text[j])
    requires !Parser.IsAlpha(text[i]) ==> start < i
    requires !Parser.IsAlpha(text[i]) || i == |text| - 1
    requires hm.contents == Tally(Runs(text[..start]))
    modifies hm, hm.buckets
    ensures hm.Valid() && hm.buckets == old(hm.buckets) && hm.hashFunction == old(hm.hashFunction)
    ensures hm.contents == Tally(Runs(text[..i + 1]))
  {
    var wordsize := i - start + 1;
    if Parser.IsAlpha(text[i]) {
      wordsize := wordsize + 1;
    }
    var word := text[start..start + wordsize - 1];
    CountWord(hm, word);
    WordCounted(text, start, i, word);
  }

  /** The loop of count_words over the whole buffer. */
  method CountInto(text: seq<char>, hm: HashMaps.HashMap<nat>)
    requires hm.Valid() && hm.contents == map[]
    requires forall k: string :: |k| > 0 ==> hm.hashFunction.requires(k)
    modifies hm, hm.buckets
    ensures hm.Valid() && hm.buckets == old(hm.buckets) && hm.hashFunction == old(hm.hashFunction)
    ensures hm.contents == Tally(Runs(text))
  {
    var reading := false;
    var start := 0;
    assert text[..0] == [];
    for i := 0 to |text|
      invariant hm.Valid() && hm.buckets == old(hm.buckets) && hm.hashFunction == old(hm.hashFunction)
      invariant Counted(text, hm.contents, reading, start, i)
    {
      reading, start := CountStep(text, hm, i, reading, start);
    }
    assert text[..|text|] == text;
  }

  /** A word ending at position i is the next of the buffer's words. */
  lemma WordCounted(text: seq<char>, start: nat, i: nat, word: string)
    requires start <= i < |text| && Boundary(text, start)
    requires forall j :: start <= j < i ==> Parser.IsAlpha(text[j])
    requires !Parser.IsAlpha(text[i]) || i == |text| - 1
    requires word == if Parser.IsAlpha(text[i]) then text[start..i + 1] else text[start..i]
    requires word != []
    ensures Runs(text[..i + 1]) == Runs(text[..start]) + [word]
    ensures Tally(Runs(text[..i + 1])) == Bump(Tally(Runs(text[..start])), word)
  {
    var rest := text[start..i + 1];
    var u := if Parser.IsAlpha(text[i]) then [] else [text[i]];
    assert rest == word + u;
    assert forall j :: 0 <= j < |word| ==> Parser.IsAlpha(word[j]) by {
      forall j | 0 <= j < |word|
        ensures Parser.IsAlpha(word[j])
      {
        assert word[j] == text[start + j];
      }
    }
    RunsOfRun(word, u);
    assert text[..i + 1] == text[..start] + rest;
    RunsConcat(text[..start], rest);
    TallySnoc(Runs(text[..start]), word);
  }

  /** Counting one more occurrence at the end. */
  lemma TallySnoc(ws: seq<string>, word: string)
    ensures Tally(ws + [word]) == Bump(Tally(ws), word)
  {
    assert (ws + [word])[..|ws|] == ws;
  }

  /** Outside a word, a character that is not a letter adds no word. */
  lemma NonLetter(text: seq<char>, i: nat)
    requires i < |text| && Boundary(text, i) && !Parser.IsAlpha(text[i])
    ensures Runs(text[..i + 1]) == Runs(text[..i])
  {
    assert text[..i + 1] == text[..i] + [text[i]];
    RunsConcat(text[..i], [text[i]]);
    assert Runs([text[i]]) == Runs([]);
  }

  /**
   * count_words on a buffer: the entries iterate reports, each a word and its
   * count. Exactly the buffer's words are reported, each once, with its number
   * of occurrences modulo 2^32.
   */
  method CountWords(text: seq<char>) returns (reported: seq<HashMaps.Entry<nat>>)
    ensures HashMaps.DistinctKeys(reported)
    ensures forall k :: (exists n :: 0 <= n < |reported| && reported[n].key == k) <==> k in Runs(text)
    ensures forall n :: 0 <= n < |reported| ==>
      reported[n].data == multiset(Runs(text))[reported[n].key] % Hash.U32
  {
    var hm := new HashMaps.HashMap<nat>(1024);
    hm.SetHashFunction(Hash.HashPolynomial);
    CountInto(text, hm);
    reported := hm.Iterate();
    forall k {
      TallyCounts(Runs(text), k);
    }
  }

  /** A buffer ending in a one-letter word counts it: "ab a" holds "ab" once and "a" once. */
  lemma LastLetterCounted(text: seq<char>)
    requires text == "ab a"
    ensures Tally(Runs(text)) == map["ab" := 1, "a" := 1]
  {
    RunsOfRun("ab", " ");
    assert text == "ab " + "a";
    RunsConcat("ab ", "a");
    RunsOfRun("a", []);
    assert "ab " == "ab" + " ";
    assert "a" == "a" + [];
    assert Runs(text) == ["ab", "a"];
    assert ["ab", "a"][..1] == ["ab"];
    assert ["ab"][..0] == [];
  }
}
