/**
 * The solver of wordament.c: the prefix-pruned dictionary test
 * `validate_word`, the breadth-first path search started from one cell
 * (`find_words_from`, one worker's part of the search), and the loop of
 * `main` that prints each word found once.
 */
module Wordament {
  import opened Wrappers
  import HashMaps
  import LinkedLists
  import Puzzles
  import Parser
  import MergeSort
  import Hash

  /** min_word_length. */
  const MinWordLength: nat := 3

  // ---------------------------------------------------------------------------
  // C strings

  /** Index i of a C string buffer holding the characters s and then the terminating NUL. */
  function At(s: seq<char>, i: nat): char
  {
    if i < |s| then s[i] else '\0'
  }

  /** The string a buffer denotes: its characters up to the first NUL. */
  function CString(s: seq<char>): (r: seq<char>)
    ensures |r| <= |s| && r == s[..|r|]
    ensures '\0' !in r
    ensures |r| < |s| ==> s[|r|] == '\0'
  {
    if s == [] || s[0] == '\0' then [] else [s[0]] + CString(s[1..])
  }

  /** A buffer whose first p characters hold no NUL and which ends or has a NUL at p denotes those p characters. */
  lemma CStringAt(s: seq<char>, p: nat)
    requires p <= |s| && '\0' !in s[..p] && At(s, p) == '\0'
    ensures CString(s) == s[..p]
  {
  }

  // ---------------------------------------------------------------------------
  // validate_word

  /** How the scan of one candidate ended: an immediate rejection, or the position it stopped at and the new `matches`. */
  datatype Walked = Reject | Done(pos: nat, matches: int)

  /**
   * The inner loop of validate_word over one candidate `other`, from position
   * pos: step while both strings go on and agree, raising `matches` to pos - 2;
   * at a mismatch reject the word when it agrees with this candidate for fewer
   * letters than with an earlier one, or when its letter sorts first.
   */
  function Walk(word: seq<char>, other: seq<char>, pos: nat, matches: int): (w: Walked)
    decreases |word| - pos
  {
    if At(word, pos) == '\0' || At(other, pos) == '\0' then Done(pos, matches)
    else if word[pos] != other[pos] then
      if pos - 3 < matches || HashMaps.SignedChar(word[pos]) < HashMaps.SignedChar(other[pos]) then Reject
      else Done(pos, matches)
    else Walk(word, other, pos + 1, if pos - 2 > matches then pos - 2 else matches)
  }

  /**
   * The candidate loop of validate_word from candidate k on: a word that ends
   * where the scan stopped is complete (2) when the candidate ends there too
   * and a prefix (1) otherwise; a rejection or exhausting the bucket gives 0.
   */
  function ClassifyFrom(word: seq<char>, candidates: seq<string>, k: nat, matches: int): int
    decreases |candidates| - k
  {
    if k >= |candidates| then 0
    else match Walk(word, candidates[k], 3, matches)
      case Reject => 0
      case Done(pos, m) =>
        if At(word, pos) == '\0' then (if At(candidates[k], pos) == '\0' && pos >= MinWordLength then 2 else 1)
        else ClassifyFrom(word, candidates, k + 1, m)
  }

  /** validate_word's answer for a word, given the bucket of its three-letter prefix (None: no bucket). */
  function Classify(word: seq<char>, candidates: Option<seq<string>>): int
  {
    if candidates.None? then 0 else ClassifyFrom(word, candidates.value, 0, 0)
  }

  /** The position at which the two C strings stop agreeing, looking from pos on. */
  function Agree(word: seq<char>, other: seq<char>, pos: nat): (p: nat)
    ensures pos <= p
    ensures forall i :: pos <= i < p ==> At(word, i) != '\0' && At(word, i) == At(other, i)
    ensures At(word, p) == '\0' || At(other, p) == '\0' || At(word, p) != At(other, p)
    decreases |word| - pos
  {
    if At(word, pos) == '\0' || At(other, pos) == '\0' || At(word, pos) != At(other, pos) then pos
    else Agree(word, other, pos + 1)
  }

  function Max(a: int, b: int): int
  {
    if a >= b then a else b
  }

  /**
   * What one candidate scan does, stated with the agreement position p: it
   * rejects exactly when the strings differ at p (neither ended) and either p
   * leaves fewer agreeing letters than `matches` records or the word's letter
   * is the smaller; otherwise it stops at p with matches raised to p - 3.
   */
  lemma {:induction false} WalkIsAgree(word: seq<char>, other: seq<char>, pos: nat, m: int)
    requires pos >= 3 && m >= pos - 3
    ensures var p := Agree(word, other, pos);
      Walk(word, other, pos, m) ==
        if At(word, p) != '\0' && At(other, p) != '\0' &&
           (p - 3 < m || HashMaps.SignedChar(At(word, p)) < HashMaps.SignedChar(At(other, p)))
        then Reject
        else Done(p, Max(m, p - 3))
    decreases |word| - pos
  {
    if !(At(word, pos) == '\0' || At(other, pos) == '\0' || At(word, pos) != At(other, pos)) {
      WalkIsAgree(word, other, pos + 1, if pos - 2 > m then pos - 2 else m);
    }
  }

  /** The scan of a candidate stops where the two strings stop agreeing, and `matches` never shrinks. */
  lemma WalkStops(word: seq<char>, other: seq<char>, m: int)
    requires m >= 0
    ensures Walk(word, other, 3, m).Done? ==>
      Walk(word, other, 3, m).pos == Agree(word, other, 3) && Walk(word, other, 3, m).matches >= m
  {
    WalkIsAgree(word, other, 3, m);
  }

  /** The word and the candidate agree from position 3 on and end at the same place. */
  ghost predicate EndsWith(word: seq<char>, other: seq<char>)
  {
    var p := Agree(word, other, 3); At(word, p) == '\0' && At(other, p) == '\0'
  }

  /** From position 3 on the word runs out while the candidate goes on. */
  ghost predicate EndsBefore(word: seq<char>, other: seq<char>)
  {
    var p := Agree(word, other, 3); At(word, p) == '\0' && At(other, p) != '\0'
  }

  /**
   * The three answers of the candidate loop: 2 only for a candidate that the
   * word matches to its end, 1 only for a candidate that the word is a proper
   * prefix of (from position 3 on), and nothing else but 0.
   */
  lemma {:induction false} ClassifyFromMeaning(word: seq<char>, candidates: seq<string>, k: nat, m: int)
    requires m >= 0
    ensures var r := ClassifyFrom(word, candidates, k, m);
      && (r == 0 || r == 1 || r == 2)
      && (r == 2 ==> exists j :: k <= j < |candidates| && EndsWith(word, candidates[j]))
      && (r == 1 ==> exists j :: k <= j < |candidates| && EndsBefore(word, candidates[j]))
    decreases |candidates| - k
  {
    if k < |candidates| {
      var w := Walk(word, candidates[k], 3, m);
      WalkStops(word, candidates[k], m);
      if w.Done? && At(word, w.pos) != '\0' {
        ClassifyFromMeaning(word, candidates, k + 1, w.matches);
      }
    }
  }

  /**
   * For a bucket of letter words that all start with the word's three letters,
   * the answers mean what they say: 2 only when the word is in the bucket, 1
   * only when it is a proper prefix of a word in the bucket.
   */
  lemma ClassifyBucket(word: seq<char>, candidates: seq<string>)
    requires |word| >= 3 && '\0' !in word[..3]
    requires forall i :: 0 <= i < |candidates| ==>
      |candidates[i]| >= 3 && candidates[i][..3] == word[..3] && '\0' !in candidates[i]
    ensures var r := ClassifyFrom(word, candidates, 0, 0);
      && (r == 0 || r == 1 || r == 2)
      && (r == 2 ==> CString(word) in candidates)
      && (r == 1 ==> exists i :: 0 <= i < |candidates| && IsProperPrefix(CString(word), candidates[i]))
  {
    var r := ClassifyFrom(word, candidates, 0, 0);
    ClassifyFromMeaning(word, candidates, 0, 0);
    if r == 2 {
      var j :| 0 <= j < |candidates| && EndsWith(word, candidates[j]);
      EndsWithIsWord(word, candidates[j]);
    } else if r == 1 {
      var j :| 0 <= j < |candidates| && EndsBefore(word, candidates[j]);
      EndsBeforeIsPrefix(word, candidates[j]);
    }
  }

  /** Past the shared three letters, the agreement position bounds a common, NUL-free prefix of both strings. */
  predicate IsProperPrefix(s: seq<char>, t: seq<char>)
  {
    |s| < |t| && t[..|s|] == s
  }

  lemma AgreeStart(word: seq<char>, other: seq<char>)
    requires |word| >= 3 && |other| >= 3 && '\0' !in word[..3] && other[..3] == word[..3] && '\0' !in other
    ensures var p := Agree(word, other, 3);
      p <= |word| && p <= |other| && '\0' !in word[..p] && word[..p] == other[..p]
  {
    var p := Agree(word, other, 3);
    if p > 3 {
      assert At(word, p - 1) != '\0' && At(word, p - 1) == At(other, p - 1);
    }
    forall i | 0 <= i < p
      ensures word[i] != '\0' && word[i] == other[i]
    {
      if i < 3 {
        assert word[i] == word[..3][i] && other[i] == other[..3][i];
      } else {
        assert At(word, i) != '\0' && At(word, i) == At(other, i);
      }
    }
  }

  lemma EndsWithIsWord(word: seq<char>, other: seq<char>)
    requires |word| >= 3 && |other| >= 3 && '\0' !in word[..3] && other[..3] == word[..3] && '\0' !in other
    requires EndsWith(word, other)
    ensures CString(word) == other
  {
    var p := Agree(word, other, 3);
    AgreeStart(word, other);
    CStringAt(word, p);
  }

  lemma EndsBeforeIsPrefix(word: seq<char>, other: seq<char>)
    requires |word| >= 3 && |other| >= 3 && '\0' !in word[..3] && other[..3] == word[..3] && '\0' !in other
    requires EndsBefore(word, other)
    ensures IsProperPrefix(CString(word), other)
  {
    var p := Agree(word, other, 3);
    AgreeStart(word, other);
    CStringAt(word, p);
  }

  /** get_data on the dictionary, seen through its word lists. */
  function Lookup(w: map<string, seq<string>>, key: string): (r: Option<seq<string>>)
    ensures r.Some? <==> key in w
    ensures r.Some? ==> r.value == w[key]
  {
    if key in w then Some(w[key]) else None
  }

  /**
   * What validate_word's answer means for a dictionary built by the parser: no
   * bucket for the word's first three letters gives 0, 2 means the word is in
   * its bucket (so it is a dictionary word), 1 means it is a proper prefix of
   * a word in its bucket, and no other answer occurs.
   */
  lemma ClassifyMeaning(w: map<string, seq<string>>, word: seq<char>)
    requires Parser.Grouped(w) && |word| >= 3 && '\0' !in word[..3]
    ensures var r := Classify(word, Lookup(w, CString(word[..3])));
      && (r == 0 || r == 1 || r == 2)
      && (word[..3] !in w ==> r == 0)
      && (r == 2 ==> word[..3] in w && CString(word) in w[word[..3]])
      && (r == 1 ==> word[..3] in w && exists i :: 0 <= i < |w[word[..3]]| && IsProperPrefix(CString(word), w[word[..3]][i]))
  {
    var key := word[..3];
    CStringAt(key, 3);
    assert key[..3] == key;
    if key in w {
      var cs := w[key];
      forall i | 0 <= i < |cs|
        ensures |cs[i]| >= 3 && cs[i][..3] == key && '\0' !in cs[i]
      {
        assert forall j :: 0 <= j < |cs[i]| ==> Parser.IsAlpha(cs[i][j]);
      }
      ClassifyBucket(word, cs);
    }
  }

  // ---------------------------------------------------------------------------
  // validate_word on a bucket in dictionary order

  function Min(a: int, b: int): int
  {
    if a <= b then a else b
  }

  /**
   * The order validate_word relies on, compared from position pos on: where
   * the two C strings stop agreeing, a has ended, or both go on and a's
   * character is the smaller as a signed char. A prefix sorts first.
   */
  predicate NoLater(a: seq<char>, b: seq<char>, pos: nat)
  {
    var p := Agree(a, b, pos);
    At(a, p) == '\0' || (At(b, p) != '\0' && HashMaps.SignedChar(At(a, p)) < HashMaps.SignedChar(At(b, p)))
  }

  /** A word list in that order: each word sorts no later than every word after it. */
  predicate Ascending(ws: seq<string>, pos: nat)
  {
    forall i, j :: 0 <= i < j < |ws| ==> NoLater(ws[i], ws[j], pos)
  }

  /** A dictionary whose every bucket lists its words in ascending order. */
  ghost predicate SortedBuckets(w: map<string, seq<string>>)
  {
    forall k :: k in w ==> Ascending(w[k], 0)
  }

  /** Strings that agree on [pos, m) stop agreeing at m or later. */
  lemma {:induction false} AgreeAtLeast(x: seq<char>, y: seq<char>, pos: nat, m: nat)
    requires pos <= m && forall i :: pos <= i < m ==> At(x, i) != '\0' && At(x, i) == At(y, i)
    ensures Agree(x, y, pos) >= m
    decreases m - pos
  {
    if pos < m {
      AgreeAtLeast(x, y, pos + 1, m);
    }
  }

  /** Strings that stop agreeing at b do so at b or earlier. */
  lemma AgreeAtMost(x: seq<char>, y: seq<char>, pos: nat, b: nat)
    requires pos <= b && (At(x, b) == '\0' || At(y, b) == '\0' || At(x, b) != At(y, b))
    ensures Agree(x, y, pos) <= b
  {
  }

  lemma AgreeSymmetric(x: seq<char>, y: seq<char>, pos: nat)
    ensures Agree(x, y, pos) == Agree(y, x, pos)
  {
    var p := Agree(x, y, pos);
    AgreeAtLeast(y, x, pos, p);
    AgreeAtMost(y, x, pos, p);
  }

  /** Two strings agree at least as far as each of them agrees with a third. */
  lemma AgreeThrough(x: seq<char>, y: seq<char>, z: seq<char>, pos: nat)
    ensures Agree(x, z, pos) >= Min(Agree(x, y, pos), Agree(y, z, pos))
  {
    var m := Min(Agree(x, y, pos), Agree(y, z, pos));
    forall i | pos <= i < m
      ensures At(x, i) != '\0' && At(x, i) == At(z, i)
    {
      assert At(x, i) == At(y, i) && At(y, i) == At(z, i);
    }
    AgreeAtLeast(x, z, pos, m);
  }

  /** For x no later than y no later than z, x agrees with z no further than y does. */
  lemma OrderedAgree(x: seq<char>, y: seq<char>, z: seq<char>, pos: nat)
    requires NoLater(x, y, pos) && NoLater(y, z, pos)
    ensures Agree(x, z, pos) <= Agree(y, z, pos)
  {
    AgreeSymmetric(x, y, pos);
    AgreeSymmetric(y, z, pos);
    AgreeThrough(y, x, z, pos);
    AgreeThrough(x, z, y, pos);
    var q := Agree(x, y, pos);
    assert Agree(x, z, pos) > q ==> At(x, q) == At(z, q);
  }

  /** A word that runs out within e agrees with any x as far as x agrees with e, up to the word's end. */
  lemma AgreeWithin(word: seq<char>, x: seq<char>, e: seq<char>, pos: nat)
    requires At(word, Agree(word, e, pos)) == '\0'
    ensures Agree(word, x, pos) == Min(Agree(x, e, pos), Agree(word, e, pos))
  {
    AgreeSymmetric(x, word, pos);
    AgreeSymmetric(e, x, pos);
    AgreeThrough(word, e, x, pos);
    AgreeThrough(x, word, e, pos);
    AgreeAtMost(word, x, pos, Agree(word, e, pos));
  }

  /**
   * A candidate before the bucket word j that the word runs out within, where
   * the word goes on: the scan passes it without rejecting, and the next
   * candidate agrees with the word at least as far.
   */
  lemma PassOver(word: seq<char>, candidates: seq<string>, k: nat, m: int, j: nat)
    requires Ascending(candidates, 3) && k < j < |candidates|
    requires At(word, Agree(word, candidates[j], 3)) == '\0'
    requires 0 <= m <= Agree(word, candidates[k], 3) - 3 && At(word, Agree(word, candidates[k], 3)) != '\0'
    ensures Walk(word, candidates[k], 3, m) == Done(Agree(word, candidates[k], 3), Agree(word, candidates[k], 3) - 3)
    ensures Agree(word, candidates[k], 3) <= Agree(word, candidates[k + 1], 3)
  {
    var e := candidates[j];
    WalkIsAgree(word, candidates[k], 3, m);
    AgreeWithin(word, candidates[k], e, 3);
    assert NoLater(candidates[k], e, 3);
    if k + 1 < j {
      AgreeWithin(word, candidates[k + 1], e, 3);
      OrderedAgree(candidates[k], candidates[k + 1], e, 3);
    }
  }

  /** A candidate no later than a bucket word equal to the word, that the word runs out within, equals the word too. */
  lemma EndsWithEarlier(word: seq<char>, x: seq<char>, e: seq<char>)
    requires At(word, Agree(word, x, 3)) == '\0' && EndsWith(word, e) && NoLater(x, e, 3)
    ensures EndsWith(word, x)
  {
    AgreeWithin(word, x, e, 3);
    AgreeAtMost(x, e, 3, Agree(word, e, 3));
  }

  /** Scanning an ascending bucket from candidate k up to a candidate equal to the word answers 2. */
  lemma {:induction false} CompleteFrom(word: seq<char>, candidates: seq<string>, k: nat, m: int, j: nat)
    requires Ascending(candidates, 3) && k <= j < |candidates| && EndsWith(word, candidates[j])
    requires 0 <= m <= Agree(word, candidates[k], 3) - 3
    ensures ClassifyFrom(word, candidates, k, m) == 2
    decreases j - k
  {
    var p := Agree(word, candidates[k], 3);
    WalkIsAgree(word, candidates[k], 3, m);
    if At(word, p) == '\0' {
      if k < j {
        EndsWithEarlier(word, candidates[k], candidates[j]);
      }
    } else {
      PassOver(word, candidates, k, m, j);
      CompleteFrom(word, candidates, k + 1, p - 3, j);
    }
  }

  /** Scanning an ascending bucket that does not hold the word, up to a candidate the word is a proper prefix of, answers 1. */
  lemma {:induction false} PrefixFrom(word: seq<char>, candidates: seq<string>, k: nat, m: int, j: nat)
    requires Ascending(candidates, 3) && k <= j < |candidates| && EndsBefore(word, candidates[j])
    requires forall i :: k <= i <= j ==> !EndsWith(word, candidates[i])
    requires 0 <= m <= Agree(word, candidates[k], 3) - 3
    ensures ClassifyFrom(word, candidates, k, m) == 1
    decreases j - k
  {
    var p := Agree(word, candidates[k], 3);
    WalkIsAgree(word, candidates[k], 3, m);
    if At(word, p) == '\0' {
      assert !EndsWith(word, candidates[k]);
    } else {
      PassOver(word, candidates, k, m, j);
      PrefixFrom(word, candidates, k + 1, p - 3, j);
    }
  }

  /** Strings that share their first three characters, none of them NUL, agree from 0 exactly as far as from 3. */
  lemma AgreeAfterKey(a: seq<char>, b: seq<char>)
    requires |a| >= 3 && |b| >= 3 && a[..3] == b[..3] && '\0' !in a[..3]
    ensures Agree(a, b, 0) == Agree(a, b, 3)
  {
    assert a[0] == a[..3][0] && a[1] == a[..3][1] && a[2] == a[..3][2];
    assert b[0] == a[..3][0] && b[1] == a[..3][1] && b[2] == a[..3][2];
    assert Agree(a, b, 0) == Agree(a, b, 1);
    assert Agree(a, b, 1) == Agree(a, b, 2);
    assert Agree(a, b, 2) == Agree(a, b, 3);
  }

  /** A bucket in ascending order is in ascending order from position 3 on, where its words first differ. */
  lemma AscendingAfterKey(candidates: seq<string>, key: string)
    requires |key| == 3 && '\0' !in key && Ascending(candidates, 0)
    requires forall i :: 0 <= i < |candidates| ==> |candidates[i]| >= 3 && candidates[i][..3] == key
    ensures Ascending(candidates, 3)
  {
    forall i, j | 0 <= i < j < |candidates|
      ensures NoLater(candidates[i], candidates[j], 3)
    {
      AgreeAfterKey(candidates[i], candidates[j]);
    }
  }

  /** A buffer that starts with three characters, none NUL, denotes a string of three characters or more. */
  lemma CStringKey(word: seq<char>)
    requires |word| >= 3 && '\0' !in word[..3]
    ensures |CString(word)| >= 3 && CString(word)[..3] == word[..3]
  {
    assert forall i :: 0 <= i < 3 ==> word[i] == word[..3][i];
  }

  /** The word is a bucket word exactly when it and the word agree from position 3 on and end together. */
  lemma EndsWithIff(word: seq<char>, other: seq<char>)
    requires |word| >= 3 && |other| >= 3 && '\0' !in word[..3] && other[..3] == word[..3] && '\0' !in other
    ensures CString(word) == other <==> EndsWith(word, other)
  {
    if EndsWith(word, other) {
      EndsWithIsWord(word, other);
    }
    if CString(word) == other {
      WordEndsWith(word, other);
    }
  }

  /** A bucket word equal to the word's C string ends together with it. */
  lemma WordEndsWith(word: seq<char>, other: seq<char>)
    requires |word| >= 3 && |other| >= 3 && '\0' !in word[..3] && other[..3] == word[..3] && '\0' !in other
    requires CString(word) == other
    ensures EndsWith(word, other)
  {
    var n := |other|;
    assert other == word[..n];
    assert At(word, n) == '\0';
    assert At(other, n) == '\0';
    forall i | 3 <= i < n
      ensures At(word, i) != '\0' && At(word, i) == At(other, i)
    {
      assert word[i] == word[..n][i] == other[i];
      assert other[i] in other;
    }
    AgreeAtLeast(word, other, 3, n);
    AgreeAtMost(word, other, 3, n);
    assert Agree(word, other, 3) == n;
  }

  /** A proper prefix of a bucket word runs out within it. */
  lemma ProperPrefixEndsBefore(word: seq<char>, other: seq<char>)
    requires |word| >= 3 && |other| >= 3 && '\0' !in word[..3] && other[..3] == word[..3] && '\0' !in other
    requires IsProperPrefix(CString(word), other)
    ensures EndsBefore(word, other)
  {
    var s := CString(word);
    var n := |s|;
    CStringKey(word);
    assert s == word[..n] && s == other[..n];
    assert At(word, n) == '\0';
    assert At(other, n) != '\0' by {
      assert other[n] in other;
    }
    forall i | 3 <= i < n
      ensures At(word, i) != '\0' && At(word, i) == At(other, i)
    {
      assert word[i] == word[..n][i] == s[i] && other[i] == other[..n][i];
      assert s[i] in s;
    }
    AgreeAtLeast(word, other, 3, n);
    AgreeAtMost(word, other, 3, n);
    assert Agree(word, other, 3) == n;
  }

  /**
   * On a bucket in ascending order the candidate loop answers exactly: 2 when
   * the word is in the bucket, 1 when it is not but is a proper prefix of a
   * word of the bucket, 0 otherwise.
   */
  lemma BucketExact(word: seq<char>, candidates: seq<string>)
    requires |word| >= 3 && '\0' !in word[..3]
    requires forall i :: 0 <= i < |candidates| ==>
      |candidates[i]| >= 3 && candidates[i][..3] == word[..3] && '\0' !in candidates[i]
    requires Ascending(candidates, 0)
    ensures ClassifyFrom(word, candidates, 0, 0) ==
      if CString(word) in candidates then 2
      else if exists i :: 0 <= i < |candidates| && IsProperPrefix(CString(word), candidates[i]) then 1
      else 0
  {
    ClassifyBucket(word, candidates);
    AscendingAfterKey(candidates, word[..3]);
    if CString(word) in candidates {
      var j :| 0 <= j < |candidates| && candidates[j] == CString(word);
      EndsWithIff(word, candidates[j]);
      CompleteFrom(word, candidates, 0, 0, j);
    } else if j :| 0 <= j < |candidates| && IsProperPrefix(CString(word), candidates[j]) {
      ProperPrefixEndsBefore(word, candidates[j]);
      forall i | 0 <= i < |candidates|
        ensures !EndsWith(word, candidates[i])
      {
        EndsWithIff(word, candidates[i]);
      }
      PrefixFrom(word, candidates, 0, 0, j);
    }
  }

  /**
   * For a dictionary built by the parser whose buckets are in ascending
   * order, validate_word's answer is exact: 2 for a dictionary word, 1 for a
   * proper prefix of one that is not itself a word, 0 for anything else.
   */
  lemma ClassifyExact(w: map<string, seq<string>>, word: seq<char>)
    requires Parser.Grouped(w) && SortedBuckets(w) && |word| >= 3 && '\0' !in word[..3]
    ensures var key := word[..3];
      Classify(word, Lookup(w, CString(key))) ==
        if key in w && CString(word) in w[key] then 2
        else if key in w && exists i :: 0 <= i < |w[key]| && IsProperPrefix(CString(word), w[key][i]) then 1
        else 0
  {
    var key := word[..3];
    CStringAt(key, 3);
    assert key[..3] == key;
    if key in w {
      var cs := w[key];
      forall i | 0 <= i < |cs|
        ensures |cs[i]| >= 3 && cs[i][..3] == key && '\0' !in cs[i]
      {
        assert forall j :: 0 <= j < |cs[i]| ==> Parser.IsAlpha(cs[i][j]);
      }
      BucketExact(word, cs);
    }
  }

  /** Filing the words of an ascending list under their keys keeps each bucket ascending. */
  lemma {:induction false} FilterAscending(ws: seq<string>, key: string)
    requires Ascending(ws, 0)
    ensures Ascending(Parser.Filter(ws, key), 0)
  {
    if ws != [] {
      var rest := ws[1..];
      assert Ascending(rest, 0) by {
        forall i, j | 0 <= i < j < |rest|
          ensures NoLater(rest[i], rest[j], 0)
        {
          assert rest[i] == ws[i + 1] && rest[j] == ws[j + 1];
        }
      }
      FilterAscending(rest, key);
      var f := Parser.Filter(rest, key);
      var head := if |ws[0]| >= 3 && ws[0][..3] == key then [ws[0]] else [];
      assert Parser.Filter(ws, key) == head + f;
      forall t | 0 <= t < |f|
        ensures NoLater(ws[0], f[t], 0)
      {
        Parser.FilterMembers(rest, key, f[t]);
        var u :| 0 <= u < |rest| && rest[u] == f[t];
        assert ws[u + 1] == f[t];
      }
      forall i, j | 0 <= i < j < |head + f|
        ensures NoLater((head + f)[i], (head + f)[j], 0)
      {
        assert (head + f)[j] == f[j - |head|];
        if i >= |head| {
          assert (head + f)[i] == f[i - |head|];
        }
      }
    }
  }

  /** A dictionary text that lists its words in ascending order gives a dictionary with ascending buckets. */
  lemma SortedDictionary(text: seq<char>)
    requires Ascending(Parser.Entries(text, 0), 0)
    ensures SortedBuckets(Parser.ScanDictionary(map[], [], true, text, 0))
  {
    Parser.ParsedDictionary(text);
    forall k | k in Parser.ScanDictionary(map[], [], true, text, 0)
      ensures Ascending(Parser.ScanDictionary(map[], [], true, text, 0)[k], 0)
    {
      FilterAscending(Parser.Entries(text, 0), k);
    }
  }

  /** The words the parser files under their keys are exactly the entries of the dictionary text. */
  lemma EntriesListed(text: seq<char>)
    ensures forall x :: Listed(Parser.ScanDictionary(map[], [], true, text, 0), x) <==> x in Parser.Entries(text, 0)
  {
    var d := Parser.ScanDictionary(map[], [], true, text, 0);
    var ws := Parser.Entries(text, 0);
    Parser.ParsedDictionary(text);
    Parser.EntriesWords(text, 0);
    forall x
      ensures Listed(d, x) <==> x in ws
    {
      if x in ws {
        var i :| 0 <= i < |ws| && ws[i] == x;
        assert Parser.Word(ws[i]);
        Parser.FilterMembers(ws, x[..3], x);
      }
    }
  }

  /**
   * validate_word: look up the bucket of the word's first three characters
   * and scan its candidates in list order, as Classify describes.
   */
  method ValidateWord(dictionary: HashMaps.HashMap<seq<string>>, word: seq<char>) returns (r: int)
    requires dictionary.Valid() && |word| >= MinWordLength
    requires dictionary.hashFunction.requires(CString(word[..3]))
    ensures r == Classify(word, Lookup(dictionary.contents, CString(word[..3])))
  {
    var prefix := CString(word[..3]);
    var found := dictionary.GetData(prefix);
    if found.None? {
      return 0;
    }
    var candidates := found.value;
    var matches := 0;
    var k := 0;
    while k < |candidates|
      invariant 0 <= k <= |candidates| && matches >= 0
      invariant ClassifyFrom(word, candidates, k, matches) == ClassifyFrom(word, candidates, 0, 0)
    {
      var other := candidates[k];
      ghost var m0 := matches;
      var pos := 3;
      while At(word, pos) != '\0' && At(other, pos) != '\0'
        invariant 3 <= pos <= |word| && matches >= m0
        invariant Walk(word, other, pos, matches) == Walk(word, other, 3, m0)
        decreases |word| - pos
      {
        if word[pos] != other[pos] {
          if pos - 3 < matches || HashMaps.SignedChar(word[pos]) < HashMaps.SignedChar(other[pos]) {
            return 0;
          }
          break;
        }
        if pos - 2 > matches {
          matches := pos - 2;
        }
        pos := pos + 1;
      }
      if At(word, pos) == '\0' {
        r := 1;
        if At(other, pos) == '\0' && pos >= MinWordLength {
          r := 2;
        }
        return;
      }
      k := k + 1;
    }
    return 0;
  }

  /** validate_path_word: validate the word the path spells. */
  method ValidatePathWord(dictionary: HashMaps.HashMap<seq<string>>, path: Puzzles.Path) returns (r: int)
    requires dictionary.Valid() && |path.word| >= MinWordLength
    requires dictionary.hashFunction.requires(CString(path.word[..3]))
    ensures r == Classify(path.word, Lookup(dictionary.contents, CString(path.word[..3])))
  {
    r := ValidateWord(dictionary, path.word);
  }

  /** add_path_to_results_list: record (a copy of) the path at the tail of the results. */
  method AddPathToResultsList(results: LinkedLists.LinkedList<Puzzles.Path>, path: Puzzles.Path)
    modifies results
    ensures results.elements == old(results.elements) + [path]
  {
    results.Enqueue(path);
  }

  // ---------------------------------------------------------------------------
  // find_words_from

  /** What find_words_from does with a new path: 1 below three letters (no test), else validate_path_word's answer. */
  function PathValidity(w: map<string, seq<string>>, p: Puzzles.Path): int
  {
    if |p.word| >= MinWordLength then Classify(p.word, Lookup(w, CString(p.word[..3]))) else 1
  }

  /** The new paths that enter the frontier: those whose validity is not 0, in order. */
  function Kept(w: map<string, seq<string>>, ps: seq<Puzzles.Path>): (r: seq<Puzzles.Path>)
  {
    if ps == [] then []
    else Kept(w, ps[..|ps| - 1]) + (if PathValidity(w, ps[|ps| - 1]) != 0 then [ps[|ps| - 1]] else [])
  }

  /** The new paths recorded as results: those whose validity is 2, in order. */
  function Recorded(w: map<string, seq<string>>, ps: seq<Puzzles.Path>): (r: seq<Puzzles.Path>)
  {
    if ps == [] then []
    else Recorded(w, ps[..|ps| - 1]) + (if PathValidity(w, ps[|ps| - 1]) == 2 then [ps[|ps| - 1]] else [])
  }

  /** The paths a dequeued path adds to the frontier, over its neighbours in order. */
  function Kids(w: map<string, seq<string>>, path: Puzzles.Path, nbs: seq<Puzzles.Cell>): (r: seq<Puzzles.Path>)
  {
    if nbs == [] then []
    else
      Kids(w, path, nbs[..|nbs| - 1]) + Kept(w, Puzzles.AddCellToPath(path, nbs[|nbs| - 1]))
  }

  /** The paths a dequeued path adds to the results, over its neighbours in order. */
  function Finds(w: map<string, seq<string>>, path: Puzzles.Path, nbs: seq<Puzzles.Cell>): (r: seq<Puzzles.Path>)
  {
    if nbs == [] then []
    else
      Finds(w, path, nbs[..|nbs| - 1]) + Recorded(w, Puzzles.AddCellToPath(path, nbs[|nbs| - 1]))
  }

  /** The kept paths are some of the given ones, each with validity other than 0. */
  lemma {:induction false} KeptFacts(w: map<string, seq<string>>, ps: seq<Puzzles.Path>)
    ensures |Kept(w, ps)| <= |ps|
    ensures forall r :: r in Kept(w, ps) ==> r in ps && PathValidity(w, r) != 0
  {
    if ps != [] {
      KeptFacts(w, ps[..|ps| - 1]);
    }
  }

  /** The recorded paths are some of the given ones, each with validity 2. */
  lemma {:induction false} RecordedFacts(w: map<string, seq<string>>, ps: seq<Puzzles.Path>)
    ensures forall r :: r in Recorded(w, ps) ==> r in ps && PathValidity(w, r) == 2
  {
    if ps != [] {
      RecordedFacts(w, ps[..|ps| - 1]);
    }
  }

  /** At most two kept extensions per neighbour, each an extension by one of them. */
  lemma {:induction false} KidsOrigin(w: map<string, seq<string>>, path: Puzzles.Path, nbs: seq<Puzzles.Cell>)
    ensures |Kids(w, path, nbs)| <= 2 * |nbs|
    ensures forall r :: r in Kids(w, path, nbs) ==>
      PathValidity(w, r) != 0 && exists n :: n in nbs && r in Puzzles.AddCellToPath(path, n)
  {
    if nbs != [] {
      var init, last := nbs[..|nbs| - 1], nbs[|nbs| - 1];
      KidsOrigin(w, path, init);
      KeptFacts(w, Puzzles.AddCellToPath(path, last));
      forall r | r in Kids(w, path, nbs)
        ensures PathValidity(w, r) != 0 && exists n :: n in nbs && r in Puzzles.AddCellToPath(path, n)
      {
        if r in Kids(w, path, init) {
          var n :| n in init && r in Puzzles.AddCellToPath(path, n);
          assert n in nbs;
        } else {
          assert last in nbs;
        }
      }
    }
  }

  /** The recorded extensions have validity 2, each an extension by one of the neighbours. */
  lemma {:induction false} FindsOrigin(w: map<string, seq<string>>, path: Puzzles.Path, nbs: seq<Puzzles.Cell>)
    ensures forall r :: r in Finds(w, path, nbs) ==>
      PathValidity(w, r) == 2 && exists n :: n in nbs && r in Puzzles.AddCellToPath(path, n)
  {
    if nbs != [] {
      var init, last := nbs[..|nbs| - 1], nbs[|nbs| - 1];
      FindsOrigin(w, path, init);
      RecordedFacts(w, Puzzles.AddCellToPath(path, last));
      forall r | r in Finds(w, path, nbs)
        ensures PathValidity(w, r) == 2 && exists n :: n in nbs && r in Puzzles.AddCellToPath(path, n)
      {
        if r in Finds(w, path, init) {
          var n :| n in init && r in Puzzles.AddCellToPath(path, n);
          assert n in nbs;
        } else {
          assert last in nbs;
        }
      }
    }
  }

  /** A path of the search on a board of n cells: at least one cell, ids on the board and pairwise distinct. */
  ghost predicate Traced(n: nat, p: Puzzles.Path)
  {
    |p.cells| >= 1 && Puzzles.DistinctIds(p.cells) && forall i :: 0 <= i < |p.cells| ==> 0 <= p.cells[i].id < n
  }

  /** A path never holds more cells than the board has: its ids are distinct and on the board. */
  lemma TracedBound(n: nat, p: Puzzles.Path)
    requires Traced(n, p)
    ensures |p.cells| <= n
  {
    DistinctWithin(p.cells, Range(n));
  }

  /** The board's ids 0 .. n-1. */
  function Range(n: nat): (r: set<int>)
    ensures |r| == n && forall x :: x in r <==> 0 <= x < n
  {
    if n == 0 then {} else Range(n - 1) + {n - 1}
  }

  lemma {:induction false} DistinctWithin(cells: seq<Puzzles.Cell>, ids: set<int>)
    requires Puzzles.DistinctIds(cells) && forall i :: 0 <= i < |cells| ==> cells[i].id in ids
    ensures |cells| <= |ids|
  {
    if cells != [] {
      var last := cells[|cells| - 1];
      var init := cells[..|cells| - 1];
      forall i, j | 0 <= i < j < |init|
        ensures Puzzles.IdsDiffer(init, i, j)
      {
        assert Puzzles.IdsDiffer(cells, i, j);
      }
      forall i | 0 <= i < |init|
        ensures init[i].id in ids - {last.id}
      {
        assert Puzzles.IdsDiffer(cells, i, |cells| - 1);
      }
      DistinctWithin(init, ids - {last.id});
    }
  }

  /**
   * The termination measure of the search: a path with c cells on a board of n
   * cells weighs 17^(n - c), the frontier the sum. A path has at most 16
   * extensions (8 neighbours, 2 paths each), so replacing it by them weighs less.
   */
  function PathWeight(n: nat, p: Puzzles.Path): nat
  {
    if |p.cells| <= n then Hash.Pow(17, n - |p.cells|) else 0
  }

  function Weight(n: nat, q: seq<Puzzles.Path>): nat
  {
    if q == [] then 0 else PathWeight(n, q[0]) + Weight(n, q[1..])
  }

  lemma {:induction false} WeightAppend(n: nat, a: seq<Puzzles.Path>, b: seq<Puzzles.Path>)
    ensures Weight(n, a + b) == Weight(n, a) + Weight(n, b)
  {
    if a != [] {
      assert (a + b)[0] == a[0] && (a + b)[1..] == a[1..] + b;
      WeightAppend(n, a[1..], b);
    } else {
      assert a + b == b;
    }
  }

  /** Paths that all have c cells weigh 17^(n - c) each. */
  lemma {:induction false} WeightUniform(n: nat, q: seq<Puzzles.Path>, c: nat)
    requires c <= n && forall i :: 0 <= i < |q| ==> |q[i].cells| == c
    ensures Weight(n, q) == |q| * Hash.Pow(17, n - c)
  {
    if q != [] {
      WeightUniform(n, q[1..], c);
    }
  }

  /** Every extension of a traced path by a board cell is traced, one cell longer, and keeps the path's word as a prefix. */
  lemma ExtensionFacts(n: nat, path: Puzzles.Path, nb: Puzzles.Cell)
    requires Traced(n, path) && 0 <= nb.id < n
    ensures forall r :: r in Puzzles.AddCellToPath(path, nb) ==>
      && Traced(n, r) && |r.cells| == |path.cells| + 1 && r.cells[..|path.cells|] == path.cells
      && |r.word| > |path.word| && r.word[..|path.word|] == path.word
  {
    Puzzles.AddCellToPathKeepsDistinct(path, nb);
    forall r | r in Puzzles.AddCellToPath(path, nb)
      ensures Traced(n, r) && r.cells[..|path.cells|] == path.cells
    {
      assert r.cells == path.cells + [nb];
      forall i | 0 <= i < |r.cells|
        ensures 0 <= r.cells[i].id < n
      {
        if i < |path.cells| {
          assert r.cells[i] == path.cells[i];
        }
      }
    }
  }

  /** What a dequeued path adds to the frontier are traced extensions of it by one cell. */
  lemma KidsFacts(n: nat, w: map<string, seq<string>>, path: Puzzles.Path, nbs: seq<Puzzles.Cell>)
    requires Traced(n, path) && forall i :: 0 <= i < |nbs| ==> 0 <= nbs[i].id < n
    ensures forall r :: r in Kids(w, path, nbs) ==>
      && Traced(n, r) && |r.cells| == |path.cells| + 1 && r.cells[..|path.cells|] == path.cells
      && |r.word| > |path.word| && r.word[..|path.word|] == path.word
  {
    KidsOrigin(w, path, nbs);
    forall r | r in Kids(w, path, nbs)
      ensures Traced(n, r) && |r.cells| == |path.cells| + 1 && r.cells[..|path.cells|] == path.cells
      ensures |r.word| > |path.word| && r.word[..|path.word|] == path.word
    {
      var x :| x in nbs && r in Puzzles.AddCellToPath(path, x);
      ExtensionFacts(n, path, x);
    }
  }

  lemma {:induction false} PowPositive(z: nat, k: nat)
    requires z > 0
    ensures Hash.Pow(z, k) >= 1
  {
    if k > 0 {
      PowPositive(z, k - 1);
      MulAtLeastOne(z, Hash.Pow(z, k - 1));
    }
  }

  lemma MulAtLeastOne(a: nat, b: nat)
    requires a >= 1 && b >= 1
    ensures a * b >= 1
  {
  }

  lemma MulLe(a: nat, b: nat, c: nat)
    requires a <= b
    ensures a * c <= b * c
  {
  }

  /** The frontier after its first path is dequeued and replaced by that path's kept extensions over nbs. */
  function Frontier(w: map<string, seq<string>>, q: seq<Puzzles.Path>, nbs: seq<Puzzles.Cell>): (r: seq<Puzzles.Path>)
    requires q != []
    ensures |r| >= |q| - 1 && r[..|q| - 1] == q[1..]
  {
    q[1..] + Kids(w, q[0], nbs)
  }

  /** Replacing the first path of a traced frontier by its extensions keeps it traced. */
  lemma FrontierTraced(n: nat, w: map<string, seq<string>>, q: seq<Puzzles.Path>, nbs: seq<Puzzles.Cell>)
    requires q != [] && forall i :: 0 <= i < |q| ==> Traced(n, q[i])
    requires forall i :: 0 <= i < |nbs| ==> 0 <= nbs[i].id < n
    ensures forall i :: 0 <= i < |Frontier(w, q, nbs)| ==> Traced(n, Frontier(w, q, nbs)[i])
  {
    assert Traced(n, q[0]);
    KidsFacts(n, w, q[0], nbs);
    var kids := Kids(w, q[0], nbs);
    var next := Frontier(w, q, nbs);
    forall i | 0 <= i < |next|
      ensures Traced(n, next[i])
    {
      if i < |q| - 1 {
        assert next[i] == q[i + 1];
      } else {
        assert next[i] == kids[i - (|q| - 1)];
      }
    }
  }

  /** ... and makes it lighter: at most 16 paths of c + 1 cells replace one of c cells. */
  lemma FrontierLighter(n: nat, w: map<string, seq<string>>, q: seq<Puzzles.Path>, nbs: seq<Puzzles.Cell>)
    requires q != [] && Traced(n, q[0]) && |nbs| <= 8
    requires forall i :: 0 <= i < |nbs| ==> 0 <= nbs[i].id < n
    ensures Weight(n, Frontier(w, q, nbs)) < Weight(n, q)
  {
    var kids := Kids(w, q[0], nbs);
    KidsShape(n, w, q[0], nbs, kids);
    WeightStep(n, q, kids);
  }

  /** Replacing the first path of a frontier by up to 16 paths one cell longer makes it lighter. */
  lemma WeightStep(n: nat, q: seq<Puzzles.Path>, kids: seq<Puzzles.Path>)
    requires q != [] && |q[0].cells| <= n && |kids| <= 16 && (kids != [] ==> |q[0].cells| + 1 <= n)
    requires forall i :: 0 <= i < |kids| ==> |kids[i].cells| == |q[0].cells| + 1
    ensures Weight(n, q[1..] + kids) < Weight(n, q)
  {
    WeightAppend(n, q[1..], kids);
    KidsWeight(n, kids, |q[0].cells|);
  }

  /** The extensions of a traced path number at most 16, have one cell more, and fit on the board. */
  lemma KidsShape(n: nat, w: map<string, seq<string>>, path: Puzzles.Path, nbs: seq<Puzzles.Cell>, kids: seq<Puzzles.Path>)
    requires Traced(n, path) && |nbs| <= 8 && kids == Kids(w, path, nbs)
    requires forall i :: 0 <= i < |nbs| ==> 0 <= nbs[i].id < n
    ensures |kids| <= 16 && |path.cells| <= n && (kids != [] ==> |path.cells| + 1 <= n)
    ensures forall i :: 0 <= i < |kids| ==> |kids[i].cells| == |path.cells| + 1
  {
    KidsFacts(n, w, path, nbs);
    KidsOrigin(w, path, nbs);
    TracedBound(n, path);
    if kids != [] {
      assert kids[0] in kids;
      TracedBound(n, kids[0]);
    }
    assert forall i :: 0 <= i < |kids| ==> kids[i] in kids;
  }

  /** Up to 16 paths of c + 1 cells weigh less than one path of c cells. */
  lemma KidsWeight(n: nat, kids: seq<Puzzles.Path>, c: nat)
    requires |kids| <= 16 && c <= n && (kids != [] ==> c + 1 <= n)
    requires forall i :: 0 <= i < |kids| ==> |kids[i].cells| == c + 1
    ensures Weight(n, kids) < Hash.Pow(17, n - c)
  {
    PowPositive(17, n - c);
    if kids != [] {
      WeightUniform(n, kids, c + 1);
      PowPositive(17, n - (c + 1));
      MulLe(|kids|, 16, Hash.Pow(17, n - (c + 1)));
      assert Hash.Pow(17, n - c) == 17 * Hash.Pow(17, n - (c + 1));
    }
  }

  /** The neighbours the search extends a path by, those of its last cell. */
  function LastNeighbors(pz: Puzzles.Puzzle, path: Puzzles.Path): (ns: seq<Puzzles.Cell>)
    reads pz.cells
    requires pz.Valid() && pz.size > 0 && |path.cells| > 0
    ensures |ns| <= 8
  {
    pz.NeighborsUpTo(path.cells[|path.cells| - 1], 8)
  }

  /** One step of the search is well founded: the next frontier is traced and lighter. */
  lemma SearchStep(pz: Puzzles.Puzzle, w: map<string, seq<string>>, q: seq<Puzzles.Path>)
    requires pz.Valid() && pz.size > 0 && q != []
    requires forall i :: 0 <= i < |q| ==> Traced(pz.size * pz.size, q[i])
    ensures Traced(pz.size * pz.size, q[0])
    ensures var next := Frontier(w, q, LastNeighbors(pz, q[0]));
      && (forall i :: 0 <= i < |next| ==> Traced(pz.size * pz.size, next[i]))
      && Weight(pz.size * pz.size, next) < Weight(pz.size * pz.size, q)
  {
    var n := pz.size * pz.size;
    assert Traced(n, q[0]);
    var nbs := LastNeighbors(pz, q[0]);
    pz.NeighborsSound(q[0].cells[|q[0].cells| - 1]);
    assert forall i :: 0 <= i < |nbs| ==> nbs[i] in nbs;
    FrontierTraced(n, w, q, nbs);
    FrontierLighter(n, w, q, nbs);
  }

  /**
   * The breadth-first search of find_words_from, as a function of the frontier:
   * dequeue the first path, extend it by each neighbour of its last cell in
   * turn, record the extensions whose validity is 2, enqueue those whose
   * validity is not 0, and go on until the frontier is empty. The result is
   * the sequence of recorded paths, in the order they are recorded.
   */
  ghost function Search(pz: Puzzles.Puzzle, w: map<string, seq<string>>, q: seq<Puzzles.Path>): seq<Puzzles.Path>
    reads pz.cells
    requires pz.Valid() && pz.size > 0
    requires forall i :: 0 <= i < |q| ==> Traced(pz.size * pz.size, q[i])
    decreases Weight(pz.size * pz.size, q), 1
  {
    if q == [] then [] else SearchFirst(pz, w, q)
  }

  /** The search from a non-empty frontier: what its first path records, then the search from the next frontier. */
  ghost function SearchFirst(pz: Puzzles.Puzzle, w: map<string, seq<string>>, q: seq<Puzzles.Path>): seq<Puzzles.Path>
    reads pz.cells
    requires pz.Valid() && pz.size > 0 && q != []
    requires forall i :: 0 <= i < |q| ==> Traced(pz.size * pz.size, q[i])
    decreases Weight(pz.size * pz.size, q), 0
  {
    SearchStep(pz, w, q);
    var nbs := LastNeighbors(pz, q[0]);
    Finds(w, q[0], nbs) + Search(pz, w, Frontier(w, q, nbs))
  }

  /** The paths the search starts from: the start cell alone, once per reading of it. */
  function StartPaths(cell: Puzzles.Cell): (r: seq<Puzzles.Path>)
    ensures 1 <= |r| <= 2
    ensures forall i :: 0 <= i < |r| ==> r[i].cells == [cell] && 1 <= |r[i].word| <= 2 && r[i].word[0] in {cell.c1, cell.c2}
  {
    Puzzles.AddCellToPath(Puzzles.EmptyPath, cell)
  }

  /** A path whose word starts with a real character, so that its three-letter key is not empty. */
  predicate Rooted(p: Puzzles.Path)
  {
    |p.word| > 0 && p.word[0] != '\0'
  }

  /** The start cell's letters are not NUL: the first letter of every path is then a real character. */
  predicate Startable(cell: Puzzles.Cell)
  {
    cell.c1 != '\0' && (cell.kind == 2 ==> cell.c2 != '\0')
  }

  /** The start paths from a board cell are traced, and rooted when the cell is startable. */
  lemma StartFacts(n: nat, cell: Puzzles.Cell)
    requires 0 <= cell.id < n
    ensures forall i :: 0 <= i < |StartPaths(cell)| ==> Traced(n, StartPaths(cell)[i])
    ensures Startable(cell) ==> forall i :: 0 <= i < |StartPaths(cell)| ==> Rooted(StartPaths(cell)[i])
  {
  }

  /** The key of a rooted word is not empty. */
  lemma RootedKey(p: Puzzles.Path)
    requires Rooted(p) && |p.word| >= MinWordLength
    ensures |CString(p.word[..3])| > 0
  {
    assert p.word[..3][0] == p.word[0];
  }

  /** Extensions of a rooted path are rooted. */
  lemma ExtensionRooted(path: Puzzles.Path, nb: Puzzles.Cell)
    requires Rooted(path)
    ensures forall r :: r in Puzzles.AddCellToPath(path, nb) ==> Rooted(r)
  {
    forall r | r in Puzzles.AddCellToPath(path, nb)
      ensures Rooted(r)
    {
      assert r.word[..|path.word|] == path.word;
      assert r.word[0] == r.word[..|path.word|][0];
    }
  }

  /** The kept extensions of a rooted path are rooted. */
  lemma KidsRooted(w: map<string, seq<string>>, path: Puzzles.Path, nbs: seq<Puzzles.Cell>)
    requires Rooted(path)
    ensures forall i :: 0 <= i < |Kids(w, path, nbs)| ==> Rooted(Kids(w, path, nbs)[i])
  {
    var kids := Kids(w, path, nbs);
    KidsOrigin(w, path, nbs);
    forall i | 0 <= i < |kids|
      ensures Rooted(kids[i])
    {
      assert kids[i] in kids;
      var x :| x in nbs && kids[i] in Puzzles.AddCellToPath(path, x);
      ExtensionRooted(path, x);
    }
  }

  lemma KidsSnoc(w: map<string, seq<string>>, path: Puzzles.Path, nbs: seq<Puzzles.Cell>, i: nat)
    requires i < |nbs|
    ensures Kids(w, path, nbs[..i + 1]) == Kids(w, path, nbs[..i]) + Kept(w, Puzzles.AddCellToPath(path, nbs[i]))
    ensures Finds(w, path, nbs[..i + 1]) == Finds(w, path, nbs[..i]) + Recorded(w, Puzzles.AddCellToPath(path, nbs[i]))
  {
    assert nbs[..i + 1][..i] == nbs[..i];
  }

  lemma KeptSnoc(w: map<string, seq<string>>, ps: seq<Puzzles.Path>, j: nat)
    requires j < |ps|
    ensures Kept(w, ps[..j + 1]) == Kept(w, ps[..j]) + (if PathValidity(w, ps[j]) != 0 then [ps[j]] else [])
    ensures Recorded(w, ps[..j + 1]) == Recorded(w, ps[..j]) + (if PathValidity(w, ps[j]) == 2 then [ps[j]] else [])
  {
    assert ps[..j + 1][..j] == ps[..j];
  }

  /** One dequeued path: the frontier and the results after all its extensions are handled. */
  lemma SearchUnfold(pz: Puzzles.Puzzle, w: map<string, seq<string>>, q: seq<Puzzles.Path>)
    requires pz.Valid() && pz.size > 0 && q != []
    requires forall i :: 0 <= i < |q| ==> Traced(pz.size * pz.size, q[i])
    ensures Traced(pz.size * pz.size, q[0])
    ensures forall i :: 0 <= i < |Frontier(w, q, LastNeighbors(pz, q[0]))| ==>
      Traced(pz.size * pz.size, Frontier(w, q, LastNeighbors(pz, q[0]))[i])
    ensures var nbs := LastNeighbors(pz, q[0]);
      Search(pz, w, q) == Finds(w, q[0], nbs) + Search(pz, w, Frontier(w, q, nbs))
  {
    SearchStep(pz, w, q);
  }

  lemma ConcatAssoc<T>(a: seq<T>, b: seq<T>, c: seq<T>)
    ensures (a + b) + c == a + (b + c)
  {
  }

  /** A dictionary the search can look words up in: every non-empty key is in the hash function's domain. */
  ghost predicate Searchable(dictionary: HashMaps.HashMap<seq<string>>)
    reads dictionary, dictionary.buckets
  {
    dictionary.Valid() && forall k: string :: |k| > 0 ==> dictionary.hashFunction.requires(k)
  }

  /**
   * The body of the innermost loop of find_words_from: validate a new path
   * when it has three letters or more, enqueue it when its validity is not 0
   * and record it when its validity is 2.
   */
  method HandlePath(dictionary: HashMaps.HashMap<seq<string>>, newPath: Puzzles.Path,
                    bfs: LinkedLists.LinkedList<Puzzles.Path>, results: LinkedLists.LinkedList<Puzzles.Path>)
    requires Searchable(dictionary)
    requires Rooted(newPath) && bfs != results
    modifies bfs, results
    ensures bfs.elements == old(bfs.elements) + (if PathValidity(dictionary.contents, newPath) != 0 then [newPath] else [])
    ensures results.elements == old(results.elements) + (if PathValidity(dictionary.contents, newPath) == 2 then [newPath] else [])
  {
    var valid := 1;
    if |newPath.word| >= MinWordLength {
      RootedKey(newPath);
      valid := ValidatePathWord(dictionary, newPath);
    }
    if valid != 0 {
      bfs.Enqueue(newPath);
      if valid == 2 {
        AddPathToResultsList(results, newPath);
      }
    }
  }

  /** The innermost loop of find_words_from, over the extensions of the dequeued path by one neighbour. */
  method HandleExtensions(dictionary: HashMaps.HashMap<seq<string>>, newPaths: seq<Puzzles.Path>,
                          bfs: LinkedLists.LinkedList<Puzzles.Path>, results: LinkedLists.LinkedList<Puzzles.Path>)
    requires Searchable(dictionary)
    requires (forall j :: 0 <= j < |newPaths| ==> Rooted(newPaths[j])) && bfs != results
    modifies bfs, results
    ensures bfs.elements == old(bfs.elements) + Kept(dictionary.contents, newPaths)
    ensures results.elements == old(results.elements) + Recorded(dictionary.contents, newPaths)
  {
    ghost var w := dictionary.contents;
    for j := 0 to |newPaths|
      invariant bfs.elements == old(bfs.elements) + Kept(w, newPaths[..j])
      invariant results.elements == old(results.elements) + Recorded(w, newPaths[..j])
    {
      KeptSnoc(w, newPaths, j);
      ConcatAssoc(old(bfs.elements), Kept(w, newPaths[..j]), if PathValidity(w, newPaths[j]) != 0 then [newPaths[j]] else []);
      ConcatAssoc(old(results.elements), Recorded(w, newPaths[..j]), if PathValidity(w, newPaths[j]) == 2 then [newPaths[j]] else []);
      HandlePath(dictionary, newPaths[j], bfs, results);
    }
    assert newPaths[..|newPaths|] == newPaths;
  }

  /** The loop of find_words_from over the neighbours of the dequeued path's last cell. */
  method HandleNeighbors(dictionary: HashMaps.HashMap<seq<string>>, path: Puzzles.Path, neighbors: seq<Puzzles.Cell>,
                         bfs: LinkedLists.LinkedList<Puzzles.Path>, results: LinkedLists.LinkedList<Puzzles.Path>)
    requires Searchable(dictionary)
    requires Rooted(path) && bfs != results
    modifies bfs, results
    ensures bfs.elements == old(bfs.elements) + Kids(dictionary.contents, path, neighbors)
    ensures results.elements == old(results.elements) + Finds(dictionary.contents, path, neighbors)
  {
    ghost var w := dictionary.contents;
    for i := 0 to |neighbors|
      invariant bfs.elements == old(bfs.elements) + Kids(w, path, neighbors[..i])
      invariant results.elements == old(results.elements) + Finds(w, path, neighbors[..i])
    {
      var newPaths := Puzzles.AddCellToPath(path, neighbors[i]);
      ExtensionRooted(path, neighbors[i]);
      assert forall j :: 0 <= j < |newPaths| ==> newPaths[j] in newPaths;
      KidsSnoc(w, path, neighbors, i);
      ConcatAssoc(old(bfs.elements), Kids(w, path, neighbors[..i]), Kept(w, newPaths));
      ConcatAssoc(old(results.elements), Finds(w, path, neighbors[..i]), Recorded(w, newPaths));
      HandleExtensions(dictionary, newPaths, bfs, results);
    }
    assert neighbors[..|neighbors|] == neighbors;
  }

  /**
   * The body of the search loop of find_words_from: dequeue the first path
   * and hand its extensions by the neighbours of its last cell to the
   * frontier and the results.
   */
  method ExpandFirst(pz: Puzzles.Puzzle, dictionary: HashMaps.HashMap<seq<string>>,
                     bfs: LinkedLists.LinkedList<Puzzles.Path>, results: LinkedLists.LinkedList<Puzzles.Path>)
    requires pz.Valid() && pz.size > 0 && bfs.elements != [] && bfs != results
    requires |bfs.elements[0].cells| > 0 && Rooted(bfs.elements[0])
    requires Searchable(dictionary)
    modifies bfs, results
    ensures var nbs := LastNeighbors(pz, old(bfs.elements)[0]);
      && bfs.elements == Frontier(dictionary.contents, old(bfs.elements), nbs)
      && results.elements == old(results.elements) + Finds(dictionary.contents, old(bfs.elements)[0], nbs)
  {
    var dequeued := bfs.Dequeue(false);
    var path := dequeued.value;
    var cell := path.cells[|path.cells| - 1];
    var neighbors := pz.GetCellNeighbors(cell);
    HandleNeighbors(dictionary, path, neighbors, bfs, results);
  }

  /** A frontier of the search: traced paths whose words start with a real character. */
  ghost predicate Live(n: nat, q: seq<Puzzles.Path>)
  {
    forall i :: 0 <= i < |q| ==> Traced(n, q[i]) && Rooted(q[i])
  }

  /** A live frontier stays live, and gets lighter, when its first path is expanded. */
  lemma FrontierRooted(pz: Puzzles.Puzzle, w: map<string, seq<string>>, q: seq<Puzzles.Path>)
    requires pz.Valid() && pz.size > 0 && q != [] && Live(pz.size * pz.size, q)
    ensures Traced(pz.size * pz.size, q[0])
    ensures var next := Frontier(w, q, LastNeighbors(pz, q[0]));
      Live(pz.size * pz.size, next) && Weight(pz.size * pz.size, next) < Weight(pz.size * pz.size, q)
  {
    assert Traced(pz.size * pz.size, q[0]) && Rooted(q[0]);
    var nbs := LastNeighbors(pz, q[0]);
    var next := Frontier(w, q, nbs);
    SearchStep(pz, w, q);
    KidsRooted(w, q[0], nbs);
    forall i | 0 <= i < |next|
      ensures Rooted(next[i])
    {
      if i < |q| - 1 {
        assert next[i] == q[i + 1];
      } else {
        assert next[i] == Kids(w, q[0], nbs)[i - (|q| - 1)];
      }
    }
  }

  /**
   * One turn of the search loop keeps what is recorded so far followed by the
   * search from the frontier equal to the same total.
   */
  lemma SearchAdvance(pz: Puzzles.Puzzle, w: map<string, seq<string>>, q: seq<Puzzles.Path>, r0: seq<Puzzles.Path>, total: seq<Puzzles.Path>)
    requires pz.Valid() && pz.size > 0 && q != [] && Live(pz.size * pz.size, q)
    requires r0 + Search(pz, w, q) == total
    ensures var next := Frontier(w, q, LastNeighbors(pz, q[0]));
      && Live(pz.size * pz.size, next) && Weight(pz.size * pz.size, next) < Weight(pz.size * pz.size, q)
      && (r0 + Finds(w, q[0], LastNeighbors(pz, q[0]))) + Search(pz, w, next) == total
  {
    FrontierRooted(pz, w, q);
    SearchUnfold(pz, w, q);
    var next := Frontier(w, q, LastNeighbors(pz, q[0]));
    ConcatAssoc(r0, Finds(w, q[0], LastNeighbors(pz, q[0])), Search(pz, w, next));
  }

  /** The start of find_words_from: a new frontier holding the start paths of the start cell. */
  method StartFrontier(pz: Puzzles.Puzzle, startId: int) returns (bfs: LinkedLists.LinkedList<Puzzles.Path>)
    requires pz.Valid() && pz.ValidCellId(startId)
    ensures fresh(bfs) && bfs.elements == StartPaths(pz.cells[startId])
  {
    var startCell := pz.GetCell(startId).value;
    var startPaths := Puzzles.AddCellToPath(Puzzles.EmptyPath, startCell);
    bfs := new LinkedLists.LinkedList<Puzzles.Path>();
    for i := 0 to |startPaths|
      invariant bfs.elements == startPaths[..i]
    {
      bfs.Enqueue(startPaths[i]);
    }
    assert startPaths[..|startPaths|] == startPaths;
  }

  /** The search loop of find_words_from: expand the first path of the frontier until the frontier is empty. */
  method Drain(pz: Puzzles.Puzzle, dictionary: HashMaps.HashMap<seq<string>>,
               bfs: LinkedLists.LinkedList<Puzzles.Path>, results: LinkedLists.LinkedList<Puzzles.Path>)
    requires pz.Valid() && pz.size > 0 && Live(pz.size * pz.size, bfs.elements) && bfs != results
    requires Searchable(dictionary)
    modifies bfs, results
    ensures bfs.elements == []
    ensures results.elements == old(results.elements) + Search(pz, dictionary.contents, old(bfs.elements))
  {
    ghost var w := dictionary.contents;
    ghost var n := pz.size * pz.size;
    ghost var total := old(results.elements) + Search(pz, w, bfs.elements);
    var empty := bfs.IsEmpty();
    while !empty
      invariant empty <==> bfs.elements == []
      invariant Live(n, bfs.elements)
      invariant results.elements + Search(pz, w, bfs.elements) == total
      decreases Weight(n, bfs.elements)
    {
      ghost var q := bfs.elements;
      ghost var r0 := results.elements;
      assert Traced(n, q[0]) && Rooted(q[0]);
      ExpandFirst(pz, dictionary, bfs, results);
      SearchAdvance(pz, w, q, r0, total);
      empty := bfs.IsEmpty();
    }
    assert results.elements + [] == results.elements;
  }

  /**
   * find_words_from: breadth-first search from one start cell. The results
   * list is extended by exactly the paths Search records from the start
   * paths, in the same order.
   */
  method FindWordsFrom(pz: Puzzles.Puzzle, dictionary: HashMaps.HashMap<seq<string>>,
                       startId: int, results: LinkedLists.LinkedList<Puzzles.Path>)
    requires pz.Valid() && pz.size > 0 && pz.ValidCellId(startId) && Startable(pz.cells[startId])
    requires Searchable(dictionary)
    modifies results
    ensures forall i :: 0 <= i < |StartPaths(pz.cells[startId])| ==> Traced(pz.size * pz.size, StartPaths(pz.cells[startId])[i])
    ensures results.elements == old(results.elements) + Search(pz, dictionary.contents, StartPaths(pz.cells[startId]))
  {
    StartFacts(pz.size * pz.size, pz.cells[startId]);
    var bfs := StartFrontier(pz, startId);
    Drain(pz, dictionary, bfs, results);
  }

  // ---------------------------------------------------------------------------
  // What the search finds

  /** A path rated 2 against a dictionary built by the parser spells a word listed under its first three letters. */
  lemma ValidityTwoMeaning(w: map<string, seq<string>>, p: Puzzles.Path)
    requires Parser.Grouped(w) && PathValidity(w, p) == 2
    ensures |p.word| >= MinWordLength && p.word[..3] in w && CString(p.word) in w[p.word[..3]]
  {
    var key := CString(p.word[..3]);
    if key in w && w[key] != [] {
      assert w[key][0][..3] == key;
    }
    assert |key| == 3;
    ClassifyMeaning(w, p.word);
  }

  /** Everything the search records from a live frontier is a traced, rooted path rated 2. */
  lemma {:induction false} SearchSound(pz: Puzzles.Puzzle, w: map<string, seq<string>>, q: seq<Puzzles.Path>)
    requires pz.Valid() && pz.size > 0 && Live(pz.size * pz.size, q)
    ensures forall r :: r in Search(pz, w, q) ==>
      PathValidity(w, r) == 2 && Traced(pz.size * pz.size, r) && Rooted(r)
    decreases Weight(pz.size * pz.size, q)
  {
    if q != [] {
      var n := pz.size * pz.size;
      assert Traced(n, q[0]) && Rooted(q[0]);
      var nbs := LastNeighbors(pz, q[0]);
      FrontierRooted(pz, w, q);
      SearchUnfold(pz, w, q);
      SearchSound(pz, w, Frontier(w, q, nbs));
      FindsOrigin(w, q[0], nbs);
      pz.NeighborsSound(q[0].cells[|q[0].cells| - 1]);
      forall r | r in Finds(w, q[0], nbs)
        ensures Traced(n, r) && Rooted(r)
      {
        var x :| x in nbs && r in Puzzles.AddCellToPath(q[0], x);
        ExtensionFacts(n, q[0], x);
        ExtensionRooted(q[0], x);
      }
    }
  }

  // ---------------------------------------------------------------------------
  // find_words

  /** The number of threads find_words starts, one per start cell 0 .. tc-1. */
  const Threads: nat := 16

  /** What the search from start cell id records. */
  ghost function Searched(pz: Puzzles.Puzzle, w: map<string, seq<string>>, id: nat): seq<Puzzles.Path>
    reads pz.cells
    requires pz.Valid() && pz.size > 0 && id < pz.size * pz.size
  {
    StartFacts(pz.size * pz.size, pz.cells[id]);
    Search(pz, w, StartPaths(pz.cells[id]))
  }

  /** The searches from start cells 0 .. k-1, one per cell. */
  ghost function Runs(pz: Puzzles.Puzzle, w: map<string, seq<string>>, k: nat): (rs: seq<seq<Puzzles.Path>>)
    reads pz.cells
    requires pz.Valid() && pz.size > 0 && k <= pz.size * pz.size
    ensures |rs| == k
  {
    if k == 0 then [] else Runs(pz, w, k - 1) + [Searched(pz, w, k - 1)]
  }

  /** What find_words records: the searches from start cells 0 .. k-1, one after another. */
  ghost function Found(pz: Puzzles.Puzzle, w: map<string, seq<string>>, k: nat): seq<Puzzles.Path>
    reads pz.cells
    requires pz.Valid() && pz.size > 0 && k <= pz.size * pz.size
  {
    Flatten(Runs(pz, w, k))
  }

  /** The sequences of a sequence of sequences, one after another. */
  function Flatten<T>(ss: seq<seq<T>>): seq<T>
  {
    if ss == [] then [] else Flatten(ss[..|ss| - 1]) + ss[|ss| - 1]
  }

  /** Flattening one more sequence appends it. */
  lemma FlattenSnoc<T>(ss: seq<seq<T>>, s: seq<T>)
    ensures Flatten(ss + [s]) == Flatten(ss) + s
  {
    assert (ss + [s])[..|ss|] == ss;
  }

  /** An element of a flattened sequence is an element of one of its sequences, and back. */
  lemma {:induction false} FlattenHas<T>(ss: seq<seq<T>>, x: T)
    ensures x in Flatten(ss) <==> exists i :: 0 <= i < |ss| && x in ss[i]
    decreases |ss|
  {
    if ss != [] {
      var init := ss[..|ss| - 1];
      FlattenHas(init, x);
      InConcat(x, Flatten(init), ss[|ss| - 1]);
      if x in Flatten(init) {
        var i :| 0 <= i < |init| && x in init[i];
        assert x in ss[i];
      }
      if x in ss[|ss| - 1] {
        assert exists i :: 0 <= i < |ss| && x in ss[i];
      }
      if exists i :: 0 <= i < |ss| && x in ss[i] {
        var i :| 0 <= i < |ss| && x in ss[i];
        if i < |ss| - 1 {
          assert x in init[i];
        }
      }
    }
  }

  /** What the first k searches record is what the first k-1 record, then what the search from cell k-1 records. */
  lemma FoundLast(pz: Puzzles.Puzzle, w: map<string, seq<string>>, k: nat)
    requires pz.Valid() && pz.size > 0 && 0 < k <= pz.size * pz.size
    ensures Found(pz, w, k) == Found(pz, w, k - 1) + Search(pz, w, StartPaths(pz.cells[k - 1]))
  {
    StartFacts(pz.size * pz.size, pz.cells[k - 1]);
    FlattenSnoc(Runs(pz, w, k - 1), Searched(pz, w, k - 1));
  }

  /** The search from start cell i is the i-th of the searches from cells 0 .. k-1. */
  lemma {:induction false} RunsAt(pz: Puzzles.Puzzle, w: map<string, seq<string>>, k: nat, i: nat)
    requires pz.Valid() && pz.size > 0 && i < k <= pz.size * pz.size
    ensures Runs(pz, w, k)[i] == Searched(pz, w, i)
    decreases k
  {
    if i < k - 1 {
      RunsAt(pz, w, k - 1, i);
    }
  }

  /**
   * find_words, with its threads run one after another in the order they are
   * started: the results list grows by the search from each start cell in turn.
   */
  method FindWords(pz: Puzzles.Puzzle, dictionary: HashMaps.HashMap<seq<string>>, results: LinkedLists.LinkedList<Puzzles.Path>)
    requires pz.Valid() && Threads <= pz.size * pz.size
    requires forall id :: 0 <= id < Threads ==> Startable(pz.cells[id])
    requires Searchable(dictionary)
    modifies results
    ensures results.elements == old(results.elements) + Found(pz, dictionary.contents, Threads)
  {
    ghost var w := dictionary.contents;
    for tid := 0 to Threads
      invariant results.elements == old(results.elements) + Found(pz, w, tid)
    {
      ghost var r0 := results.elements;
      FindWordsFrom(pz, dictionary, tid, results);
      FoundSnoc(pz, w, tid, old(results.elements), r0, results.elements);
    }
  }

  /** Running the search from start cell k after those before it extends what is found by that search. */
  lemma FoundSnoc(pz: Puzzles.Puzzle, w: map<string, seq<string>>, k: nat, r: seq<Puzzles.Path>, r0: seq<Puzzles.Path>, r1: seq<Puzzles.Path>)
    requires pz.Valid() && pz.size > 0 && k < pz.size * pz.size
    requires r0 == r + Found(pz, w, k)
    requires forall i :: 0 <= i < |StartPaths(pz.cells[k])| ==> Traced(pz.size * pz.size, StartPaths(pz.cells[k])[i])
    requires r1 == r0 + Search(pz, w, StartPaths(pz.cells[k]))
    ensures r1 == r + Found(pz, w, k + 1)
  {
    FoundLast(pz, w, k + 1);
    ConcatAssoc(r, Found(pz, w, k), Search(pz, w, StartPaths(pz.cells[k])));
  }

  /** Everything find_words records from startable cells is a traced, rooted path rated 2. */
  lemma {:induction false} FoundSound(pz: Puzzles.Puzzle, w: map<string, seq<string>>, k: nat)
    requires pz.Valid() && pz.size > 0 && k <= pz.size * pz.size
    requires forall id :: 0 <= id < k ==> Startable(pz.cells[id])
    ensures forall r :: r in Found(pz, w, k) ==>
      PathValidity(w, r) == 2 && Traced(pz.size * pz.size, r) && Rooted(r)
  {
    if k > 0 {
      var n := pz.size * pz.size;
      FoundSound(pz, w, k - 1);
      FoundLast(pz, w, k);
      StartFacts(n, pz.cells[k - 1]);
      SearchSound(pz, w, StartPaths(pz.cells[k - 1]));
    }
  }

  // ---------------------------------------------------------------------------
  // Which paths the search grows, and that it misses no word

  /**
   * A chain of paths grown the way find_words_from grows them: every path
   * but the last has a last cell, and the path after it is one of its
   * extensions (pz_add_cell_to_path) by a neighbour of that cell
   * (get_cell_neighbors).
   */
  ghost predicate Grown(pz: Puzzles.Puzzle, chain: seq<Puzzles.Path>)
    reads pz.cells
    requires pz.Valid() && pz.size > 0
  {
    forall i :: 0 <= i < |chain| - 1 ==>
      |chain[i].cells| > 0 &&
      exists nb :: nb in LastNeighbors(pz, chain[i]) && chain[i + 1] in Puzzles.AddCellToPath(chain[i], nb)
  }

  /** A grown chain that starts with a start path of cell id. */
  ghost predicate GrownFrom(pz: Puzzles.Puzzle, id: nat, chain: seq<Puzzles.Path>)
    reads pz.cells
    requires pz.Valid() && pz.size > 0 && id < pz.cells.Length
  {
    chain != [] && chain[0] in StartPaths(pz.cells[id]) && Grown(pz, chain)
  }

  /** A path the search from cell id can reach: the last path of a chain grown from that cell. */
  ghost predicate Sprouts(pz: Puzzles.Puzzle, id: nat, p: Puzzles.Path)
    reads pz.cells
    requires pz.Valid() && pz.size > 0 && id < pz.cells.Length
  {
    exists chain: seq<Puzzles.Path> :: GrownFrom(pz, id, chain) && chain[|chain| - 1] == p
  }

  /** A word the board spells: the word of the last path of a chain grown from one of the first Threads cells. */
  ghost predicate Traceable(pz: Puzzles.Puzzle, x: string)
    reads pz.cells
    requires pz.Valid() && Threads <= pz.size * pz.size
  {
    exists id: nat, chain: seq<Puzzles.Path> :: id < Threads && GrownFrom(pz, id, chain) && CString(chain[|chain| - 1].word) == x
  }

  /** A dictionary word: three letters or more, listed under its first three. */
  predicate Listed(w: map<string, seq<string>>, x: string)
  {
    |x| >= MinWordLength && x[..3] in w && x in w[x[..3]]
  }

  /** Every extension of a path reads the path's word and at least one letter more. */
  lemma ExtensionWord(path: Puzzles.Path, nb: Puzzles.Cell)
    ensures forall r :: r in Puzzles.AddCellToPath(path, nb) ==> |r.word| > |path.word| && r.word[..|path.word|] == path.word
  {
    forall r | r in Puzzles.AddCellToPath(path, nb)
      ensures |r.word| > |path.word| && r.word[..|path.word|] == path.word
    {
      assert r.word[..|path.word|] == path.word;
    }
  }

  /** Every word along a grown chain begins its last word. */
  lemma {:induction false} ChainWords(pz: Puzzles.Puzzle, chain: seq<Puzzles.Path>, c: nat)
    requires pz.Valid() && pz.size > 0 && Grown(pz, chain) && c < |chain|
    ensures var t := chain[|chain| - 1].word;
      |chain[c].word| <= |t| && t[..|chain[c].word|] == chain[c].word
    decreases |chain| - c
  {
    if c < |chain| - 1 {
      ChainWords(pz, chain, c + 1);
      assert |chain[c].cells| > 0;
      var nb :| nb in LastNeighbors(pz, chain[c]) && chain[c + 1] in Puzzles.AddCellToPath(chain[c], nb);
      ExtensionWord(chain[c], nb);
      var t, u, v := chain[|chain| - 1].word, chain[c].word, chain[c + 1].word;
      assert t[..|u|] == t[..|v|][..|u|];
    }
  }

  /** A grown chain extended by an extension of its last path by a neighbour is grown. */
  lemma GrownSnoc(pz: Puzzles.Puzzle, chain: seq<Puzzles.Path>, r: Puzzles.Path, nb: Puzzles.Cell)
    requires pz.Valid() && pz.size > 0 && Grown(pz, chain) && chain != [] && |chain[|chain| - 1].cells| > 0
    requires nb in LastNeighbors(pz, chain[|chain| - 1]) && r in Puzzles.AddCellToPath(chain[|chain| - 1], nb)
    ensures Grown(pz, chain + [r])
  {
    var longer := chain + [r];
    forall i | 0 <= i < |longer| - 1
      ensures |longer[i].cells| > 0 &&
        exists x :: x in LastNeighbors(pz, longer[i]) && longer[i + 1] in Puzzles.AddCellToPath(longer[i], x)
    {
      assert longer[i] == chain[i];
      if i + 1 < |chain| {
        assert longer[i + 1] == chain[i + 1];
      } else {
        assert longer[i + 1] == r;
      }
    }
  }

  /** An extension of a reachable path by a neighbour of its last cell is reachable. */
  lemma SproutsExtend(pz: Puzzles.Puzzle, id: nat, p: Puzzles.Path, nb: Puzzles.Cell, r: Puzzles.Path)
    requires pz.Valid() && pz.size > 0 && id < pz.cells.Length && Sprouts(pz, id, p) && |p.cells| > 0
    requires nb in LastNeighbors(pz, p) && r in Puzzles.AddCellToPath(p, nb)
    ensures Sprouts(pz, id, r)
  {
    var chain :| GrownFrom(pz, id, chain) && chain[|chain| - 1] == p;
    var longer := chain + [r];
    GrownSnoc(pz, chain, r, nb);
    assert longer[0] == chain[0];
    assert longer[|longer| - 1] == r;
    GrownSprouts(pz, id, longer);
  }

  /** The last path of a chain grown from cell id is reachable from it. */
  lemma GrownSprouts(pz: Puzzles.Puzzle, id: nat, chain: seq<Puzzles.Path>)
    requires pz.Valid() && pz.size > 0 && id < pz.cells.Length && GrownFrom(pz, id, chain)
    ensures Sprouts(pz, id, chain[|chain| - 1])
  {
  }

  /** What a reachable dequeued path records or enqueues is reachable. */
  lemma ChildrenSprout(pz: Puzzles.Puzzle, w: map<string, seq<string>>, id: nat, p: Puzzles.Path)
    requires pz.Valid() && pz.size > 0 && id < pz.cells.Length && Sprouts(pz, id, p) && |p.cells| > 0
    ensures var nbs := LastNeighbors(pz, p);
      forall r :: r in Finds(w, p, nbs) || r in Kids(w, p, nbs) ==> Sprouts(pz, id, r)
  {
    var nbs := LastNeighbors(pz, p);
    KidsOrigin(w, p, nbs);
    FindsOrigin(w, p, nbs);
    forall r | r in Finds(w, p, nbs) || r in Kids(w, p, nbs)
      ensures Sprouts(pz, id, r)
    {
      var x :| x in nbs && r in Puzzles.AddCellToPath(p, x);
      SproutsExtend(pz, id, p, x, r);
    }
  }

  /** Every path the search records from a frontier of reachable paths is reachable from the same cell. */
  lemma {:induction false} SearchGrown(pz: Puzzles.Puzzle, w: map<string, seq<string>>, q: seq<Puzzles.Path>, id: nat)
    requires pz.Valid() && pz.size > 0 && id < pz.cells.Length
    requires forall k :: 0 <= k < |q| ==> Traced(pz.size * pz.size, q[k]) && Sprouts(pz, id, q[k])
    ensures forall r :: r in Search(pz, w, q) ==> Sprouts(pz, id, r)
    decreases Weight(pz.size * pz.size, q)
  {
    if q != [] {
      var next := Frontier(w, q, LastNeighbors(pz, q[0]));
      SearchUnfold(pz, w, q);
      SearchStep(pz, w, q);
      ChildrenSprout(pz, w, id, q[0]);
      FrontierSprouts(pz, w, q, id);
      SearchGrown(pz, w, next, id);
    }
  }

  /** Expanding the first path of a frontier of reachable paths leaves one of reachable paths. */
  lemma FrontierSprouts(pz: Puzzles.Puzzle, w: map<string, seq<string>>, q: seq<Puzzles.Path>, id: nat)
    requires pz.Valid() && pz.size > 0 && id < pz.cells.Length && q != [] && |q[0].cells| > 0
    requires forall k :: 0 <= k < |q| ==> Sprouts(pz, id, q[k])
    ensures var next := Frontier(w, q, LastNeighbors(pz, q[0]));
      forall k :: 0 <= k < |next| ==> Sprouts(pz, id, next[k])
  {
    var nbs := LastNeighbors(pz, q[0]);
    var kids := Kids(w, q[0], nbs);
    var next := Frontier(w, q, nbs);
    ChildrenSprout(pz, w, id, q[0]);
    forall k | 0 <= k < |next|
      ensures Sprouts(pz, id, next[k])
    {
      if k < |q| - 1 {
        assert next[k] == q[k + 1];
      } else {
        assert next[k] == kids[k - (|q| - 1)];
      }
    }
  }

  /** The start paths of a cell are traced and reachable from it: each is a chain of its own. */
  lemma StartSprouts(pz: Puzzles.Puzzle, id: nat)
    requires pz.Valid() && pz.size > 0 && id < pz.cells.Length
    ensures forall i :: 0 <= i < |StartPaths(pz.cells[id])| ==>
      Traced(pz.size * pz.size, StartPaths(pz.cells[id])[i]) && Sprouts(pz, id, StartPaths(pz.cells[id])[i])
  {
    var q := StartPaths(pz.cells[id]);
    StartFacts(pz.size * pz.size, pz.cells[id]);
    forall i | 0 <= i < |q|
      ensures Sprouts(pz, id, q[i])
    {
      assert GrownFrom(pz, id, [q[i]]);
    }
  }

  /** Everything the search from a cell records is reachable from that cell. */
  lemma StartGrown(pz: Puzzles.Puzzle, w: map<string, seq<string>>, id: nat)
    requires pz.Valid() && pz.size > 0 && id < pz.cells.Length
    ensures forall i :: 0 <= i < |StartPaths(pz.cells[id])| ==> Traced(pz.size * pz.size, StartPaths(pz.cells[id])[i])
    ensures forall r :: r in Search(pz, w, StartPaths(pz.cells[id])) ==> Sprouts(pz, id, r)
  {
    StartSprouts(pz, id);
    SearchGrown(pz, w, StartPaths(pz.cells[id]), id);
  }

  /** An extension with validity other than 0 by one of the neighbours enters the frontier. */
  lemma {:induction false} KeptHas(w: map<string, seq<string>>, ps: seq<Puzzles.Path>, r: Puzzles.Path)
    requires r in ps && PathValidity(w, r) != 0
    ensures r in Kept(w, ps)
  {
    var init := ps[..|ps| - 1];
    assert ps == init + [ps[|ps| - 1]];
    if r != ps[|ps| - 1] {
      KeptHas(w, init, r);
    }
  }

  /** An extension with validity 2 is recorded. */
  lemma {:induction false} RecordedHas(w: map<string, seq<string>>, ps: seq<Puzzles.Path>, r: Puzzles.Path)
    requires r in ps && PathValidity(w, r) == 2
    ensures r in Recorded(w, ps)
  {
    var init := ps[..|ps| - 1];
    assert ps == init + [ps[|ps| - 1]];
    if r != ps[|ps| - 1] {
      RecordedHas(w, init, r);
    }
  }

  lemma {:induction false} KidsHas(w: map<string, seq<string>>, path: Puzzles.Path, nbs: seq<Puzzles.Cell>, nb: Puzzles.Cell, r: Puzzles.Path)
    requires nb in nbs && r in Puzzles.AddCellToPath(path, nb) && PathValidity(w, r) != 0
    ensures r in Kids(w, path, nbs)
  {
    var init, last := nbs[..|nbs| - 1], nbs[|nbs| - 1];
    if nb == last {
      KeptHas(w, Puzzles.AddCellToPath(path, last), r);
    } else {
      assert nbs == init + [last];
      KidsHas(w, path, init, nb, r);
    }
  }

  lemma {:induction false} FindsHas(w: map<string, seq<string>>, path: Puzzles.Path, nbs: seq<Puzzles.Cell>, nb: Puzzles.Cell, r: Puzzles.Path)
    requires nb in nbs && r in Puzzles.AddCellToPath(path, nb) && PathValidity(w, r) == 2
    ensures r in Finds(w, path, nbs)
  {
    var init, last := nbs[..|nbs| - 1], nbs[|nbs| - 1];
    if nb == last {
      RecordedHas(w, Puzzles.AddCellToPath(path, last), r);
    } else {
      assert nbs == init + [last];
      FindsHas(w, path, init, nb, r);
    }
  }

  /**
   * The search misses nothing it can reach: for a chain grown from a path of
   * the frontier, whose later paths all have validity other than 0 and whose
   * last path has validity 2, the search records that last path.
   */
  lemma {:induction false} SearchComplete(pz: Puzzles.Puzzle, w: map<string, seq<string>>, q: seq<Puzzles.Path>,
                                          chain: seq<Puzzles.Path>, i: nat)
    requires pz.Valid() && pz.size > 0
    requires forall k :: 0 <= k < |q| ==> Traced(pz.size * pz.size, q[k])
    requires Grown(pz, chain) && i < |chain| - 1 && chain[i] in q
    requires forall k :: i < k < |chain| ==> PathValidity(w, chain[k]) != 0
    requires PathValidity(w, chain[|chain| - 1]) == 2
    ensures chain[|chain| - 1] in Search(pz, w, q)
    decreases Weight(pz.size * pz.size, q)
  {
    var nbs := LastNeighbors(pz, q[0]);
    var next := Frontier(w, q, nbs);
    SearchUnfold(pz, w, q);
    SearchStep(pz, w, q);
    var j := StepComplete(pz, w, q, chain, i);
    if j < |chain| - 1 {
      SearchComplete(pz, w, next, chain, j);
    }
    InConcat(chain[|chain| - 1], Finds(w, q[0], nbs), Search(pz, w, next));
  }

  /**
   * One step of the search along such a chain: either the first path of the
   * frontier records the chain's last path, or a path of the chain at or
   * after position i is in the next frontier.
   */
  lemma StepComplete(pz: Puzzles.Puzzle, w: map<string, seq<string>>, q: seq<Puzzles.Path>,
                     chain: seq<Puzzles.Path>, i: nat) returns (j: nat)
    requires pz.Valid() && pz.size > 0 && q != [] && |q[0].cells| > 0
    requires Grown(pz, chain) && i < |chain| - 1 && chain[i] in q
    requires forall k :: i < k < |chain| ==> PathValidity(w, chain[k]) != 0
    requires PathValidity(w, chain[|chain| - 1]) == 2
    ensures i <= j < |chain|
    ensures j == |chain| - 1 ==> chain[|chain| - 1] in Finds(w, q[0], LastNeighbors(pz, q[0]))
    ensures j < |chain| - 1 ==> chain[j] in Frontier(w, q, LastNeighbors(pz, q[0]))
  {
    var nbs := LastNeighbors(pz, q[0]);
    if chain[i] == q[0] {
      assert |chain[i].cells| > 0;
      var nb :| nb in nbs && chain[i + 1] in Puzzles.AddCellToPath(q[0], nb);
      j := i + 1;
      if j == |chain| - 1 {
        FindsHas(w, q[0], nbs, nb, chain[|chain| - 1]);
      } else {
        KidsHas(w, q[0], nbs, nb, chain[j]);
        InConcat(chain[j], q[1..], Kids(w, q[0], nbs));
      }
    } else {
      j := i;
      assert q == [q[0]] + q[1..];
      InConcat(chain[i], [q[0]], q[1..]);
      InConcat(chain[i], q[1..], Kids(w, q[0], nbs));
    }
  }

  /** Membership in a concatenation. */
  lemma InConcat<T>(x: T, a: seq<T>, b: seq<T>)
    ensures x in a + b <==> x in a || x in b
  {
  }

  /** A path the search from cell id records is among the records of the searches from cells 0 .. k-1, for id < k. */
  lemma FoundHas(pz: Puzzles.Puzzle, w: map<string, seq<string>>, k: nat, id: nat, r: Puzzles.Path)
    requires pz.Valid() && pz.size > 0 && id < k <= pz.size * pz.size
    requires r in Searched(pz, w, id)
    ensures r in Found(pz, w, k)
  {
    RunsAt(pz, w, k, id);
    FlattenHas(Runs(pz, w, k), r);
  }

  /** A path the searches from cells 0 .. k-1 record is recorded by the search from one of those cells. */
  lemma FoundFrom(pz: Puzzles.Puzzle, w: map<string, seq<string>>, k: nat, r: Puzzles.Path) returns (id: nat)
    requires pz.Valid() && pz.size > 0 && k <= pz.size * pz.size
    requires r in Found(pz, w, k)
    ensures id < k && r in Searched(pz, w, id)
  {
    FlattenHas(Runs(pz, w, k), r);
    id :| 0 <= id < k && r in Runs(pz, w, k)[id];
    RunsAt(pz, w, k, id);
  }

  /** The C strings of a buffer and of a buffer it begins are equal, or the first is a proper prefix of the second. */
  lemma {:induction false} CStringPrefix(u: seq<char>, v: seq<char>)
    requires |u| <= |v| && v[..|u|] == u
    ensures CString(u) == CString(v) || IsProperPrefix(CString(u), CString(v))
    decreases |u|
  {
    if u != [] {
      assert v[0] == u[0];
      if u[0] != '\0' {
        assert v[1..][..|u| - 1] == u[1..];
        CStringPrefix(u[1..], v[1..]);
      }
    }
  }

  /** A path whose C string is a dictionary word has validity 2 (the buckets sorted). */
  lemma ListedValidity(w: map<string, seq<string>>, t: Puzzles.Path)
    requires Parser.Grouped(w) && SortedBuckets(w) && Listed(w, CString(t.word))
    ensures PathValidity(w, t) == 2
  {
    var x := CString(t.word);
    assert t.word[..3] == x[..3];
    assert forall i :: 0 <= i < 3 ==> t.word[..3][i] == x[i];
    ClassifyExact(w, t.word);
  }

  /** A path that begins a path spelling a dictionary word has validity other than 0 (the buckets sorted). */
  lemma PrefixValidity(w: map<string, seq<string>>, p: Puzzles.Path, t: Puzzles.Path)
    requires Parser.Grouped(w) && SortedBuckets(w) && Listed(w, CString(t.word))
    requires |p.word| <= |t.word| && t.word[..|p.word|] == p.word
    ensures PathValidity(w, p) != 0
  {
    if |p.word| >= MinWordLength {
      var x := CString(t.word);
      var key := p.word[..3];
      assert key == t.word[..|p.word|][..3] == t.word[..3] == x[..3];
      assert forall i :: 0 <= i < 3 ==> key[i] == x[i];
      ClassifyExact(w, p.word);
      CStringPrefix(p.word, t.word);
      var i :| 0 <= i < |w[key]| && w[key][i] == x;
    }
  }

  /** Along a chain grown from a start path to a dictionary word, no path has validity 0 and the last has validity 2. */
  lemma ChainValidity(pz: Puzzles.Puzzle, w: map<string, seq<string>>, id: nat, chain: seq<Puzzles.Path>)
    requires pz.Valid() && pz.size > 0 && id < pz.cells.Length && GrownFrom(pz, id, chain)
    requires Parser.Grouped(w) && SortedBuckets(w) && Listed(w, CString(chain[|chain| - 1].word))
    ensures |chain| >= 2
    ensures forall c :: 0 <= c < |chain| ==> PathValidity(w, chain[c]) != 0
    ensures PathValidity(w, chain[|chain| - 1]) == 2
  {
    var t := chain[|chain| - 1];
    forall c | 0 <= c < |chain|
      ensures PathValidity(w, chain[c]) != 0
    {
      ChainWords(pz, chain, c);
      PrefixValidity(w, chain[c], t);
    }
    ListedValidity(w, t);
  }

  /**
   * With the buckets sorted, find_words misses no word: every dictionary word
   * the board spells along a chain grown from one of the first k cells is
   * the word of a recorded path.
   */
  lemma FoundAll(pz: Puzzles.Puzzle, w: map<string, seq<string>>, k: nat, id: nat, chain: seq<Puzzles.Path>)
    requires pz.Valid() && pz.size > 0 && id < k <= pz.size * pz.size && GrownFrom(pz, id, chain)
    requires Parser.Grouped(w) && SortedBuckets(w) && Listed(w, CString(chain[|chain| - 1].word))
    ensures exists r :: r in Found(pz, w, k) && CString(r.word) == CString(chain[|chain| - 1].word)
  {
    ChainValidity(pz, w, id, chain);
    StartFacts(pz.size * pz.size, pz.cells[id]);
    SearchComplete(pz, w, StartPaths(pz.cells[id]), chain, 0);
    FoundHas(pz, w, k, id, chain[|chain| - 1]);
  }

  /** Every word find_words records on the first Threads cells is spelled along a chain grown from one of them. */
  lemma FoundTraceable(pz: Puzzles.Puzzle, w: map<string, seq<string>>)
    requires pz.Valid() && Threads <= pz.size * pz.size
    ensures forall x :: (exists r :: r in Found(pz, w, Threads) && CString(r.word) == x) ==> Traceable(pz, x)
  {
    forall x | exists r :: r in Found(pz, w, Threads) && CString(r.word) == x
      ensures Traceable(pz, x)
    {
      var r :| r in Found(pz, w, Threads) && CString(r.word) == x;
      var id := FoundFrom(pz, w, Threads, r);
      StartGrown(pz, w, id);
      var chain: seq<Puzzles.Path> :| GrownFrom(pz, id, chain) && chain[|chain| - 1] == r;
      assert id < Threads && GrownFrom(pz, id, chain) && CString(chain[|chain| - 1].word) == x;
    }
  }

  /** With the buckets sorted, every dictionary word spelled along such a chain is the word of a recorded path. */
  lemma FoundListed(pz: Puzzles.Puzzle, w: map<string, seq<string>>)
    requires pz.Valid() && Threads <= pz.size * pz.size
    requires Parser.Grouped(w) && SortedBuckets(w)
    ensures forall x :: Traceable(pz, x) && Listed(w, x) ==> exists r :: r in Found(pz, w, Threads) && CString(r.word) == x
  {
    forall x | Traceable(pz, x) && Listed(w, x)
      ensures exists r :: r in Found(pz, w, Threads) && CString(r.word) == x
    {
      var id: nat, chain: seq<Puzzles.Path> :| id < Threads && GrownFrom(pz, id, chain) && CString(chain[|chain| - 1].word) == x;
      FoundAll(pz, w, Threads, id, chain);
    }
  }

  // ---------------------------------------------------------------------------
  // main: sort the results by length and print each word once

  /** The words the paths spell, as the C strings pz_path_to_word returns. */
  function Words(ps: seq<Puzzles.Path>): (r: seq<string>)
    ensures |r| == |ps| && forall i :: 0 <= i < |ps| ==> r[i] == CString(ps[i].word)
  {
    if ps == [] then [] else Words(ps[..|ps| - 1]) + [CString(ps[|ps| - 1].word)]
  }

  /** The words main prints when the results map already holds `seen`: each other word, the first time it occurs. */
  function Unseen(seen: set<string>, words: seq<string>): seq<string>
  {
    if words == [] then []
    else
      var init, last := words[..|words| - 1], words[|words| - 1];
      Unseen(seen, init) + (if last in seen || last in init then [] else [last])
  }

  /** What is printed: every word not seen before, and each of them once. */
  lemma {:induction false} UnseenFacts(seen: set<string>, words: seq<string>)
    ensures forall x :: x in Unseen(seen, words) <==> x in words && x !in seen
    ensures forall i, j :: 0 <= i < j < |Unseen(seen, words)| ==> Unseen(seen, words)[i] != Unseen(seen, words)[j]
  {
    if words != [] {
      var init, last := words[..|words| - 1], words[|words| - 1];
      UnseenFacts(seen, init);
      assert words == init + [last];
    }
  }

  lemma UnseenSnoc(seen: set<string>, words: seq<string>, i: nat)
    requires i < |words|
    ensures Unseen(seen, words[..i + 1]) ==
      Unseen(seen, words[..i]) + (if words[i] in seen || words[i] in words[..i] then [] else [words[i]])
  {
    assert words[..i + 1][..i] == words[..i];
  }

  /**
   * The print loop of main: look each path's word up in the results map;
   * a word not there yet is printed and inserted (with no data), so each word
   * is printed once, at its first occurrence.
   */
  method PrintNewWords(paths: array<Puzzles.Path>, size: int, seen: HashMaps.HashMap<()>) returns (printed: seq<string>)
    requires 0 <= size <= paths.Length
    requires forall i :: 0 <= i < size ==> Rooted(paths[i])
    requires seen.Valid() && forall k: string :: |k| > 0 ==> seen.hashFunction.requires(k)
    modifies seen, seen.buckets
    ensures seen.Valid()
    ensures printed == Unseen(old(seen.contents).Keys, Words(paths[..size]))
    ensures forall k :: k in seen.contents <==> k in old(seen.contents) || k in Words(paths[..size])
  {
    ghost var s0 := seen.contents.Keys;
    printed := [];
    for i := 0 to size
      invariant seen.Valid() && seen.buckets == old(seen.buckets) && seen.hashFunction == old(seen.hashFunction)
      invariant printed == Unseen(s0, Words(paths[..i]))
      invariant forall k :: k in seen.contents <==> k in s0 || k in Words(paths[..i])
    {
      var word := CString(paths[i].word);
      assert paths[i].word[0] == paths[i].word[..|word|][0];
      ghost var ws := Words(paths[..i + 1]);
      assert ws == Words(paths[..i]) + [word] by {
        assert paths[..i + 1][..i] == paths[..i];
      }
      UnseenSnoc(s0, ws, i);
      assert ws[..i] == Words(paths[..i]);
      var pos := seen.GetBucket(word);
      if pos.None? {
        printed := printed + [word];
        seen.InsertData(word, (), None);
      }
    }
  }

  /** pz_compare_paths_length_desc is asymmetric, so merge_sort sorts paths with it. */
  lemma LengthDescAsymmetric()
    ensures MergeSort.Asymmetric(Puzzles.CompareLengthDesc)
  {
    forall p1, p2
      ensures Puzzles.CompareLengthDesc(p1, p2) > 0 ==> Puzzles.CompareLengthDesc(p2, p1) <= 0
    {
      Puzzles.CompareLengthDescAsymmetric(p1, p2);
    }
  }

  /** Sorted under pz_compare_paths_length_desc means non-increasing word length everywhere, not only between neighbours. */
  lemma {:induction false} SortedByLength(s: seq<Puzzles.Path>)
    ensures MergeSort.Sorted(s, Puzzles.CompareLengthDesc) <==> forall i, j :: 0 <= i < j < |s| ==> |s[i].word| >= |s[j].word|
    decreases |s|
  {
    if |s| > 1 {
      var t := s[1..];
      SortedByLength(t);
      if MergeSort.Sorted(s, Puzzles.CompareLengthDesc) {
        assert MergeSort.Sorted(t, Puzzles.CompareLengthDesc) by {
          forall i | 0 <= i < |t| - 1
            ensures Puzzles.CompareLengthDesc(t[i], t[i + 1]) <= 0
          {
            assert t[i] == s[i + 1] && t[i + 1] == s[i + 2];
          }
        }
        forall i, j | 0 <= i < j < |s|
          ensures |s[i].word| >= |s[j].word|
        {
          if i > 0 {
            assert |t[i - 1].word| >= |t[j - 1].word|;
          } else {
            assert Puzzles.CompareLengthDesc(s[0], s[1]) <= 0;
            if j > 1 {
              assert |t[0].word| >= |t[j - 1].word|;
            }
          }
        }
      }
    }
  }

  /** pz_build_results_from_list, then mergesort with pz_compare_paths_length_desc: the results as a sorted array. */
  method SortResults(list: LinkedLists.LinkedList<Puzzles.Path>) returns (results: Puzzles.Results)
    ensures fresh(results.paths) && results.size == results.paths.Length
    ensures results.paths[..] == MergeSort.MergeSortSpec(list.elements, Puzzles.CompareLengthDesc)
  {
    results := Puzzles.BuildResultsFromList(list);
    MergeSort.Sort(results.paths, results.size, Puzzles.CompareLengthDesc);
    if results.size > 0 {
      assert results.paths[..] == results.paths[..results.size];
      assert list.elements == list.elements[..results.size];
    }
  }

  /** The results map of main (create_hashmap(1024) with hash_polynomial) and the print loop over it. */
  method PrintOnce(paths: array<Puzzles.Path>, size: int) returns (printed: seq<string>)
    requires 0 <= size <= paths.Length
    requires forall i :: 0 <= i < size ==> Rooted(paths[i])
    ensures printed == Unseen({}, Words(paths[..size]))
  {
    var seen := new HashMaps.HashMap<()>(1024);
    seen.SetHashFunction(Hash.HashPolynomial);
    assert seen.contents.Keys == {};
    printed := PrintNewWords(paths, size, seen);
  }

  /**
   * The part of main after parsing: find the words, build the results array,
   * sort it by descending word length and print each word once. The returned
   * sequence is the printed lines, in order.
   */
  method Run(pz: Puzzles.Puzzle, dictionary: HashMaps.HashMap<seq<string>>) returns (printed: seq<string>)
    requires pz.Valid() && Threads <= pz.size * pz.size
    requires forall id :: 0 <= id < Threads ==> Startable(pz.cells[id])
    requires Searchable(dictionary)
    ensures printed == Unseen({}, Words(MergeSort.MergeSortSpec(Found(pz, dictionary.contents, Threads), Puzzles.CompareLengthDesc)))
  {
    ghost var found := Found(pz, dictionary.contents, Threads);
    var resultsList := new LinkedLists.LinkedList<Puzzles.Path>();
    FindWords(pz, dictionary, resultsList);
    assert resultsList.elements == found;
    var results := SortResults(resultsList);
    ghost var sorted := results.paths[..];
    assert sorted == MergeSort.MergeSortSpec(found, Puzzles.CompareLengthDesc);
    SortedRooted(pz, dictionary.contents, sorted);
    printed := PrintOnce(results.paths, results.size);
    assert results.paths[..results.size] == sorted;
  }

  /** The found paths, sorted by length, are rooted: their words have non-empty keys. */
  lemma SortedRooted(pz: Puzzles.Puzzle, w: map<string, seq<string>>, sorted: seq<Puzzles.Path>)
    requires pz.Valid() && Threads <= pz.size * pz.size
    requires forall id :: 0 <= id < Threads ==> Startable(pz.cells[id])
    requires sorted == MergeSort.MergeSortSpec(Found(pz, w, Threads), Puzzles.CompareLengthDesc)
    ensures forall i :: 0 <= i < |sorted| ==> Rooted(sorted[i])
  {
    var found := Found(pz, w, Threads);
    FoundSound(pz, w, Threads);
    MergeSort.MergeSortPermutation(found, Puzzles.CompareLengthDesc);
    SameMembers(sorted, found);
    assert forall i :: 0 <= i < |sorted| ==> sorted[i] in sorted;
  }

  /** A rearrangement has the same members. */
  lemma SameMembers<T>(a: seq<T>, b: seq<T>)
    requires multiset(a) == multiset(b)
    ensures forall x :: x in a <==> x in b
  {
    forall x
      ensures x in a <==> x in b
    {
      assert x in a <==> x in multiset(a);
    }
  }

  /** The distinct words of a rearrangement of the found paths are exactly the found paths' words. */
  lemma PrintedWords(found: seq<Puzzles.Path>, sorted: seq<Puzzles.Path>)
    requires multiset(sorted) == multiset(found)
    ensures forall x :: x in Unseen({}, Words(sorted)) <==> exists r :: r in found && CString(r.word) == x
  {
    var words := Words(sorted);
    UnseenFacts({}, words);
    forall x
      ensures x in Unseen({}, words) <==> exists r :: r in found && CString(r.word) == x
    {
      if x in words {
        var i :| 0 <= i < |words| && words[i] == x;
        assert sorted[i] in multiset(found);
      }
      if r :| r in found && CString(r.word) == x {
        assert r in multiset(sorted);
        var i :| 0 <= i < |sorted| && sorted[i] == r;
        assert words[i] == x;
      }
    }
  }

  /** The words of paths rated 2 against a dictionary built by the parser are dictionary words. */
  lemma FoundWordsListed(w: map<string, seq<string>>, found: seq<Puzzles.Path>)
    requires Parser.Grouped(w) && forall r :: r in found ==> PathValidity(w, r) == 2
    ensures forall x :: (exists r :: r in found && CString(r.word) == x) ==> |x| >= MinWordLength && x[..3] in w && x in w[x[..3]]
  {
    forall x | exists r :: r in found && CString(r.word) == x
      ensures |x| >= MinWordLength && x[..3] in w && x in w[x[..3]]
    {
      var r :| r in found && CString(r.word) == x;
      ValidityTwoMeaning(w, r);
      assert |x| >= 3 && x[..3] == r.word[..3];
    }
  }

  /**
   * What main prints, for a dictionary built by the parser: every word the
   * search finds and nothing else, each once, each a dictionary word listed
   * under its first three letters; the paths it prints from are the found
   * ones, rearranged into non-increasing word length.
   */
  lemma Reported(pz: Puzzles.Puzzle, w: map<string, seq<string>>)
    requires pz.Valid() && pz.size > 0 && Threads <= pz.size * pz.size
    requires forall id :: 0 <= id < Threads ==> Startable(pz.cells[id])
    requires Parser.Grouped(w)
    ensures var found := Found(pz, w, Threads);
      var sorted := MergeSort.MergeSortSpec(found, Puzzles.CompareLengthDesc);
      var printed := Unseen({}, Words(sorted));
      && multiset(sorted) == multiset(found)
      && (forall i, j :: 0 <= i < j < |sorted| ==> |sorted[i].word| >= |sorted[j].word|)
      && (forall x :: x in printed <==> exists r :: r in found && CString(r.word) == x)
      && (forall i, j :: 0 <= i < j < |printed| ==> printed[i] != printed[j])
      && (forall x :: x in printed ==> |x| >= MinWordLength && x[..3] in w && x in w[x[..3]])
  {
    var found := Found(pz, w, Threads);
    var sorted := MergeSort.MergeSortSpec(found, Puzzles.CompareLengthDesc);
    MergeSort.MergeSortPermutation(found, Puzzles.CompareLengthDesc);
    LengthDescAsymmetric();
    MergeSort.MergeSortSorted(found, Puzzles.CompareLengthDesc);
    SortedByLength(sorted);
    UnseenFacts({}, Words(sorted));
    FoundSound(pz, w, Threads);
    PrintedWords(found, sorted);
    FoundWordsListed(w, found);
  }

  /**
   * What main prints, against the board: every printed word is spelled along
   * a chain grown from one of the first Threads cells, and, when every bucket
   * is in ascending order, every dictionary word so spelled is printed.
   */
  lemma ReportedTraced(pz: Puzzles.Puzzle, w: map<string, seq<string>>)
    requires pz.Valid() && pz.size > 0 && Threads <= pz.size * pz.size
    requires Parser.Grouped(w)
    ensures var printed := Unseen({}, Words(MergeSort.MergeSortSpec(Found(pz, w, Threads), Puzzles.CompareLengthDesc)));
      && (forall x :: x in printed ==> Traceable(pz, x))
      && (SortedBuckets(w) ==> forall x :: Traceable(pz, x) && Listed(w, x) ==> x in printed)
  {
    var found := Found(pz, w, Threads);
    var sorted := MergeSort.MergeSortSpec(found, Puzzles.CompareLengthDesc);
    MergeSort.MergeSortPermutation(found, Puzzles.CompareLengthDesc);
    PrintedWords(found, sorted);
    FoundTraceable(pz, w);
    if SortedBuckets(w) {
      FoundListed(pz, w);
    }
  }

  // ---------------------------------------------------------------------------
  // main

  /** The cells of the 4 x 4 board main fills from the puzzle file's characters. */
  ghost function BoardCells(puzzleText: seq<char>): (cells: seq<Puzzles.Cell>)
    ensures |cells| == 16
  {
    Parser.ParsedBoard(16, puzzleText);
    Parser.ScanPuzzle(Parser.Blank(16), Parser.PuzzleStart, puzzleText).0
  }

  /**
   * main, on the two files' characters: a 4 x 4 board parsed from the puzzle
   * text, a 1024-chain dictionary with the polynomial hash filled from the
   * dictionary text, then the search (its 16 threads run one after another),
   * the sort and the printing. The ghost
   * result is the parsed board. Every printed word is an entry of the
   * dictionary text, printed once, spelled on the board, and the printed
   * words are exactly the words of the paths found. When the dictionary
   * text lists its words in ascending order, every entry spelled on the
   * board from one of the start cells is printed.
   */
  method Solve(puzzleText: seq<char>, dictionaryText: seq<char>) returns (printed: seq<string>, ghost pz: Puzzles.Puzzle)
    requires forall id :: 0 <= id < Threads ==> Startable(BoardCells(puzzleText)[id])
    ensures pz.Valid() && pz.size == 4 && pz.cells[..] == BoardCells(puzzleText)
    ensures var d := Parser.ScanDictionary(map[], [], true, dictionaryText, 0);
      var found := Found(pz, d, Threads);
      && printed == Unseen({}, Words(MergeSort.MergeSortSpec(found, Puzzles.CompareLengthDesc)))
      && (forall x :: x in printed <==> exists r :: r in found && CString(r.word) == x)
    ensures forall i, j :: 0 <= i < j < |printed| ==> printed[i] != printed[j]
    ensures forall x :: x in printed ==> x in Parser.Entries(dictionaryText, 0)
    ensures forall x :: x in printed ==> Traceable(pz, x)
    ensures Ascending(Parser.Entries(dictionaryText, 0), 0) ==>
      forall x :: Traceable(pz, x) && x in Parser.Entries(dictionaryText, 0) ==> x in printed
  {
    var puzzle := new Puzzles.Puzzle(4);
    assert puzzle.cells[..] == Parser.Blank(16);
    Parser.ParsePuzzle(puzzleText, puzzle);
    assert puzzle.cells[..] == BoardCells(puzzleText);
    var dictionary := new HashMaps.HashMap<seq<string>>(1024);
    dictionary.SetHashFunction(Hash.HashPolynomial);
    Parser.ParseDictionary(dictionaryText, dictionary);
    ghost var d := dictionary.contents;
    assert puzzle.cells[..] == BoardCells(puzzleText);
    assert forall id :: 0 <= id < Threads ==> puzzle.cells[id] == puzzle.cells[..][id];
    printed := Run(puzzle, dictionary);
    pz := puzzle;
    Parser.ParsedDictionary(dictionaryText);
    Reported(pz, d);
    ReportedTraced(pz, d);
    EntriesListed(dictionaryText);
    if Ascending(Parser.Entries(dictionaryText, 0), 0) {
      SortedDictionary(dictionaryText);
    }
  }
}
