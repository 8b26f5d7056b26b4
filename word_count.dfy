/** The word counter: validation of a word, a case-folded frequency table built by a
    linear scan, and a bubble sort of the table's entries by word. */
module WordCount {
  import opened Text

  /** Python's `validate_word` on a string: non-empty and not all whitespace. */
  function ValidateWord(word: string): (r: bool)
    ensures r <==> exists i :: 0 <= i < |word| && !IsSpace(word[i])
  {
    StripEmptyIff(word);
    if word == [] then false else |Strip(word)| > 0
  }

  /** The error recorded for an invalid word, with its position in the input. */
  datatype WordError = InvalidWord(position: nat, word: string)

  /** A frequency table: (word, count) entries in insertion order, as the Python
      dictionary iterates them. */
  type Frequencies = seq<(string, nat)>

  predicate DistinctKeys(f: Frequencies) {
    forall i, j :: 0 <= i < j < |f| ==> f[i].0 != f[j].0
  }

  predicate HasWord(f: Frequencies, key: string) {
    exists i :: 0 <= i < |f| && f[i].0 == key
  }

  /** The count stored for `key`, 0 when it has no entry. */
  function Lookup(f: Frequencies, key: string): (r: nat)
  {
    if f == [] then 0 else if f[0].0 == key then f[0].1 else Lookup(f[1..], key)
  }

  function Sum(f: Frequencies): (r: nat)
  {
    if f == [] then 0 else f[0].1 + Sum(f[1..])
  }

  /** One counted occurrence of `key`: its entry goes up by one, or a new entry with
      count 1 goes at the end. */
  function Bump(f: Frequencies, key: string): (r: Frequencies)
    ensures |r| == |f| || r == f + [(key, 1)]
  {
    if f == [] then [(key, 1)]
    else if f[0].0 == key then [(key, f[0].1 + 1)] + f[1..]
    else [f[0]] + Bump(f[1..], key)
  }

  /** The table after counting the valid words of `words`, each lower-cased. */
  function Tally(words: seq<string>): (r: Frequencies)
  {
    if words == [] then []
    else
      var f := Tally(words[..|words| - 1]);
      var w := words[|words| - 1];
      if ValidateWord(w) then Bump(f, Lower(w)) else f
  }

  /** The errors recorded for `words`, one per invalid word, in input order. */
  function InvalidWords(words: seq<string>): (r: seq<WordError>)
    ensures |r| <= |words|
  {
    if words == [] then []
    else
      var errors := InvalidWords(words[..|words| - 1]);
      var w := words[|words| - 1];
      if ValidateWord(w) then errors else errors + [InvalidWord(|words| - 1, w)]
  }

  /** The number of valid words of `words` whose lower-case form is `key`. */
  function CountOf(words: seq<string>, key: string): (r: nat)
  {
    if words == [] then 0
    else
      var w := words[|words| - 1];
      CountOf(words[..|words| - 1], key) + (if ValidateWord(w) && Lower(w) == key then 1 else 0)
  }

  /** Counting one more word: the step the loop takes. */
  lemma TallySnoc(words: seq<string>, w: string)
    ensures Tally(words + [w]) == if ValidateWord(w) then Bump(Tally(words), Lower(w)) else Tally(words)
    ensures InvalidWords(words + [w])
            == InvalidWords(words) + (if ValidateWord(w) then [] else [InvalidWord(|words|, w)])
    ensures forall key :: CountOf(words + [w], key)
                          == CountOf(words, key) + (if ValidateWord(w) && Lower(w) == key then 1 else 0)
  {
    assert (words + [w])[..|words|] == words;
  }

  // ---------------------------------------------------------------------------
  // Bump
  // ---------------------------------------------------------------------------

  /** When `key` first appears at `j`, bumping increments that entry in place. */
  lemma {:induction false} BumpAt(f: Frequencies, key: string, j: nat)
    requires j < |f| && f[j].0 == key
    requires forall t :: 0 <= t < j ==> f[t].0 != key
    ensures Bump(f, key) == f[j := (key, f[j].1 + 1)]
  {
    if j > 0 {
      BumpAt(f[1..], key, j - 1);
      assert [f[0]] + f[1..][j - 1 := (key, f[j].1 + 1)] == f[j := (key, f[j].1 + 1)];
    }
  }

  /** When `key` has no entry, bumping appends one with count 1. */
  lemma {:induction false} BumpAbsent(f: Frequencies, key: string)
    requires forall t :: 0 <= t < |f| ==> f[t].0 != key
    ensures Bump(f, key) == f + [(key, 1)]
  {
    if f != [] {
      BumpAbsent(f[1..], key);
      assert [f[0]] + (f[1..] + [(key, 1)]) == f + [(key, 1)];
    }
  }

  lemma {:induction false} BumpLookup(f: Frequencies, key: string, other: string)
    ensures Lookup(Bump(f, key), other) == Lookup(f, other) + (if other == key then 1 else 0)
  {
    if f != [] && f[0].0 != key {
      BumpLookup(f[1..], key, other);
      assert Bump(f, key)[1..] == Bump(f[1..], key);
    }
  }

  /** The first entry for a word the table has. */
  lemma FirstEntry(f: Frequencies, key: string) returns (t: nat)
    requires HasWord(f, key)
    ensures t < |f| && f[t].0 == key
    ensures forall s :: 0 <= s < t ==> f[s].0 != key
  {
    var j :| 0 <= j < |f| && f[j].0 == key;
    t := 0;
    while t < j && f[t].0 != key
      invariant 0 <= t <= j
      invariant forall s :: 0 <= s < t ==> f[s].0 != key
    {
      t := t + 1;
    }
  }

  lemma BumpHasWord(f: Frequencies, key: string, other: string)
    ensures HasWord(Bump(f, key), other) <==> HasWord(f, other) || other == key
  {
    var r := Bump(f, key);
    if HasWord(f, key) {
      var t := FirstEntry(f, key);
      BumpAt(f, key, t);
      assert forall i :: 0 <= i < |r| ==> r[i].0 == f[i].0;
    } else {
      BumpAbsent(f, key);
      assert r[|f|].0 == key;
      assert forall i :: 0 <= i < |f| ==> r[i] == f[i];
    }
  }

  lemma {:induction false} BumpSum(f: Frequencies, key: string)
    ensures Sum(Bump(f, key)) == Sum(f) + 1
  {
    if f != [] && f[0].0 != key {
      BumpSum(f[1..], key);
      assert Bump(f, key)[1..] == Bump(f[1..], key);
    } else if f != [] {
      assert Bump(f, key)[1..] == f[1..];
    }
  }

  lemma {:induction false} BumpKeepsShape(f: Frequencies, key: string)
    requires DistinctKeys(f) && forall i :: 0 <= i < |f| ==> f[i].1 >= 1
    ensures DistinctKeys(Bump(f, key))
    ensures forall i :: 0 <= i < |Bump(f, key)| ==> Bump(f, key)[i].1 >= 1
  {
    if HasWord(f, key) {
      var t := FirstEntry(f, key);
      BumpAt(f, key, t);
    } else {
      BumpAbsent(f, key);
    }
  }

  /** In a table with distinct words, an entry's count is what `Lookup` finds. */
  lemma {:induction false} LookupAt(f: Frequencies, i: nat)
    requires DistinctKeys(f) && i < |f|
    ensures Lookup(f, f[i].0) == f[i].1
  {
    if i > 0 {
      assert f[0].0 != f[i].0;
      assert DistinctKeys(f[1..]) by {
        forall a, b | 0 <= a < b < |f[1..]| ensures f[1..][a].0 != f[1..][b].0 {
          assert f[1..][a] == f[a + 1] && f[1..][b] == f[b + 1];
        }
      }
      LookupAt(f[1..], i - 1);
    }
  }

  lemma {:induction false} LookupAbsent(f: Frequencies, key: string)
    ensures !HasWord(f, key) ==> Lookup(f, key) == 0
  {
    if f != [] && f[0].0 != key {
      LookupAbsent(f[1..], key);
      if HasWord(f[1..], key) {
        var k :| 0 <= k < |f[1..]| && f[1..][k].0 == key;
        assert f[k + 1].0 == key;
      }
    }
  }

  // ---------------------------------------------------------------------------
  // What the table holds
  // ---------------------------------------------------------------------------

  /** The table has distinct words and positive counts. */
  lemma {:induction false} TallyShape(words: seq<string>)
    ensures DistinctKeys(Tally(words))
    ensures forall i :: 0 <= i < |Tally(words)| ==> Tally(words)[i].1 >= 1
  {
    if words != [] {
      var init := words[..|words| - 1];
      TallyShape(init);
      if ValidateWord(words[|words| - 1]) {
        BumpKeepsShape(Tally(init), Lower(words[|words| - 1]));
      }
    }
  }

  /** The count stored for a word is the number of valid input words that lower-case
      to it. */
  lemma {:induction false} TallyLookup(words: seq<string>, key: string)
    ensures Lookup(Tally(words), key) == CountOf(words, key)
  {
    if words != [] {
      var init := words[..|words| - 1];
      TallyLookup(init, key);
      if ValidateWord(words[|words| - 1]) {
        BumpLookup(Tally(init), Lower(words[|words| - 1]), key);
      }
    }
  }

  /** A word has an entry exactly when some valid input word lower-cases to it. */
  lemma {:induction false} TallyHasWord(words: seq<string>, key: string)
    ensures HasWord(Tally(words), key) <==> CountOf(words, key) > 0
  {
    if words != [] {
      var init := words[..|words| - 1];
      TallyHasWord(init, key);
      if ValidateWord(words[|words| - 1]) {
        BumpHasWord(Tally(init), Lower(words[|words| - 1]), key);
      }
    }
  }

  /** The counts plus the errors account for every input word. */
  lemma {:induction false} TallySum(words: seq<string>)
    ensures Sum(Tally(words)) + |InvalidWords(words)| == |words|
  {
    if words != [] {
      var init := words[..|words| - 1];
      TallySum(init);
      if ValidateWord(words[|words| - 1]) {
        BumpSum(Tally(init), Lower(words[|words| - 1]));
      }
    }
  }

  /** Every entry's count is the number of valid input words that lower-case to it. */
  lemma EntriesCountTheirWords(words: seq<string>)
    ensures forall i :: 0 <= i < |Tally(words)| ==>
              Tally(words)[i].1 == CountOf(words, Tally(words)[i].0)
  {
    TallyShape(words);
    forall i | 0 <= i < |Tally(words)|
      ensures Tally(words)[i].1 == CountOf(words, Tally(words)[i].0)
    {
      LookupAt(Tally(words), i);
      TallyLookup(words, Tally(words)[i].0);
    }
  }

  /** Every entry's word is the lower-case form of a valid input word. */
  lemma EntriesAreInputWords(words: seq<string>, i: nat)
    requires i < |Tally(words)|
    ensures exists p :: 0 <= p < |words| && ValidateWord(words[p]) && Lower(words[p]) == Tally(words)[i].0
  {
    TallyShape(words);
    EntriesCountTheirWords(words);
    CountOfWitness(words, Tally(words)[i].0);
  }

  /** A positive count has an input word behind it. */
  lemma {:induction false} CountOfWitness(words: seq<string>, key: string)
    requires CountOf(words, key) > 0
    ensures exists p :: 0 <= p < |words| && ValidateWord(words[p]) && Lower(words[p]) == key
  {
    var init := words[..|words| - 1];
    var w := words[|words| - 1];
    if !(ValidateWord(w) && Lower(w) == key) {
      CountOfWitness(init, key);
      var p :| 0 <= p < |init| && ValidateWord(init[p]) && Lower(init[p]) == key;
      assert words[p] == init[p];
    }
  }

  /** Every recorded error names an invalid word at its position. */
  lemma {:induction false} ErrorsAreInvalidWords(words: seq<string>)
    ensures forall e :: e in InvalidWords(words) ==>
              e.position < |words| && words[e.position] == e.word && !ValidateWord(e.word)
  {
    if words != [] {
      var init := words[..|words| - 1];
      ErrorsAreInvalidWords(init);
      forall e | e in InvalidWords(init)
        ensures e.position < |words| && words[e.position] == e.word
      {
        assert words[e.position] == init[e.position];
      }
    }
  }

  // ---------------------------------------------------------------------------
  // count_word_frequencies
  // ---------------------------------------------------------------------------

  /** The inner loop of Python's `count_word_frequencies`: look for an entry for `key`
      in table order; if one is found, increment it and stop, otherwise add `key` with
      count 1. */
  method RecordWord(frequencies: Frequencies, key: string) returns (updated: Frequencies)
    ensures updated == Bump(frequencies, key)
    ensures Lookup(updated, key) == Lookup(frequencies, key) + 1
    ensures HasWord(updated, key)
  {
    updated := frequencies;
    var found := false;
    var j := 0;
    while j < |updated|
      invariant 0 <= j <= |updated| && updated == frequencies
      invariant forall t :: 0 <= t < j ==> frequencies[t].0 != key
    {
      if updated[j].0 == key {
        BumpAt(frequencies, key, j);
        updated := updated[j := (key, updated[j].1 + 1)];
        found := true;
        break;
      }
      j := j + 1;
    }
    if !found {
      BumpAbsent(frequencies, key);
      updated := updated + [(key, 1)];
    }
    BumpLookup(frequencies, key, key);
    BumpHasWord(frequencies, key, key);
  }

  /** Python's `count_word_frequencies`: an invalid word is recorded as an error with
      its position, a valid one is counted under its lower-case form. */
  method CountWordFrequencies(words: seq<string>) returns (frequencies: Frequencies, errors: seq<WordError>)
    ensures frequencies == Tally(words)
    ensures errors == InvalidWords(words)
  {
    frequencies := [];
    errors := [];
    for i := 0 to |words|
      invariant frequencies == Tally(words[..i])
      invariant errors == InvalidWords(words[..i])
    {
      assert words[..i + 1] == words[..i] + [words[i]];
      TallySnoc(words[..i], words[i]);
      var word := words[i];
      if !ValidateWord(word) {
        errors := errors + [InvalidWord(i, word)];
        continue;
      }
      var wordLower := Lower(word);
      frequencies := RecordWord(frequencies, wordLower);
    }
    assert words[..|words|] == words;
  }

  // ---------------------------------------------------------------------------
  // sort_frequencies
  // ---------------------------------------------------------------------------

  /** The entries from `lo` on are in non-decreasing order of word. */
  predicate SortedFrom(s: Frequencies, lo: int) {
    forall p, q :: 0 <= lo <= p < q < |s| ==> LexLeq(s[p].0, s[q].0)
  }

  /** No entry before `k` has a greater word than an entry from `k` on. */
  predicate SplitAt(s: Frequencies, k: int) {
    forall p, q :: 0 <= p < k <= q < |s| ==> LexLeq(s[p].0, s[q].0)
  }

  /** No entry up to `j` has a greater word than entry `j`. */
  predicate PrefixMax(s: Frequencies, j: int)
    requires 0 <= j < |s|
  {
    forall p :: 0 <= p <= j ==> LexLeq(s[p].0, s[j].0)
  }

  /** `items[j], items[j + 1] = items[j + 1], items[j]`. */
  function Swap(s: Frequencies, j: nat): (t: Frequencies)
    requires j + 1 < |s|
    ensures |t| == |s| && t[j] == s[j + 1] && t[j + 1] == s[j]
    ensures forall k :: 0 <= k < |s| && k != j && k != j + 1 ==> t[k] == s[k]
  {
    s[j := s[j + 1]][j + 1 := s[j]]
  }

  /** A swap of neighbours permutes the entries and keeps the words distinct. */
  lemma SwapPermutes(s: Frequencies, j: nat)
    requires j + 1 < |s|
    ensures multiset(Swap(s, j)) == multiset(s)
    ensures DistinctKeys(s) ==> DistinctKeys(Swap(s, j))
  {
    var t := Swap(s, j);
    if DistinctKeys(s) {
      forall p, q | 0 <= p < q < |t| ensures t[p].0 != t[q].0 {
        var p' := if p == j then j + 1 else if p == j + 1 then j else p;
        var q' := if q == j then j + 1 else if q == j + 1 then j else q;
        assert t[p] == s[p'] && t[q] == s[q'] && p' != q';
        if p' > q' {
          assert s[q'].0 != s[p'].0;
        }
      }
    }
  }

  /** One comparison of the inner loop, swapping or not, moves a greatest word of
      the first `j + 2` entries to position `j + 1`, and leaves the sorted suffix
      from `end` alone. */
  lemma BubbleStep(s: Frequencies, end: nat, j: nat)
    requires j + 1 < end <= |s|
    requires SortedFrom(s, end) && SplitAt(s, end) && PrefixMax(s, j)
    ensures var t := if LexLess(s[j + 1].0, s[j].0) then Swap(s, j) else s;
      SortedFrom(t, end) && SplitAt(t, end) && PrefixMax(t, j + 1)
  {
    if LexLess(s[j + 1].0, s[j].0) {
      var t := Swap(s, j);
      LexLessAsymmetric(s[j + 1].0, s[j].0);
      LexLessIrreflexive(s[j].0);
      forall p, q | 0 <= p < end <= q < |t| ensures LexLeq(t[p].0, t[q].0) {
        var p' := if p == j then j + 1 else if p == j + 1 then j else p;
        assert t[p] == s[p'];
      }
    } else {
      forall p | 0 <= p < j ensures LexLeq(s[p].0, s[j + 1].0) {
        LexLeqTransitive(s[p].0, s[j].0, s[j + 1].0);
      }
      LexLessIrreflexive(s[j + 1].0);
    }
  }

  /** At the end of a pass over the first `end` entries, the sorted suffix grows by
      one. */
  lemma PassDone(s: Frequencies, end: nat)
    requires 0 < end <= |s|
    requires SortedFrom(s, end) && SplitAt(s, end) && PrefixMax(s, end - 1)
    ensures SortedFrom(s, end - 1) && SplitAt(s, end - 1)
  {
  }

  /** One pass of the outer loop of `sort_frequencies`: neighbours among the first
      `end` entries are compared left to right and swapped when out of order, which
      grows the sorted suffix by one entry. */
  method BubblePass(a: array<(string, nat)>, end: nat)
    requires 0 < end <= a.Length
    requires SortedFrom(a[..], end) && SplitAt(a[..], end)
    modifies a
    ensures multiset(a[..]) == multiset(old(a[..]))
    ensures DistinctKeys(old(a[..])) ==> DistinctKeys(a[..])
    ensures SortedFrom(a[..], end - 1) && SplitAt(a[..], end - 1)
  {
    LexLessIrreflexive(a[0].0);
    for j := 0 to end - 1
      invariant multiset(a[..]) == multiset(old(a[..]))
      invariant DistinctKeys(old(a[..])) ==> DistinctKeys(a[..])
      invariant SortedFrom(a[..], end) && SplitAt(a[..], end) && PrefixMax(a[..], j)
    {
      BubbleStep(a[..], end, j);
      if LexLess(a[j + 1].0, a[j].0) {
        ghost var before := a[..];
        SwapPermutes(before, j);
        a[j], a[j + 1] := a[j + 1], a[j];
        assert a[..] == Swap(before, j);
      }
    }
    PassDone(a[..], end);
  }

  /** Python's `sort_frequencies`: the table's entries bubble-sorted by word, swapping
      neighbours only when the left word is greater. The result is a permutation of
      the entries in non-decreasing order of word; with distinct words, as a
      dictionary has, the order is strictly ascending. */
  method SortFrequencies(frequencies: Frequencies) returns (items: Frequencies)
    ensures multiset(items) == multiset(frequencies)
    ensures forall p, q :: 0 <= p < q < |items| ==> LexLeq(items[p].0, items[q].0)
    ensures DistinctKeys(frequencies) ==>
              forall p, q :: 0 <= p < q < |items| ==> LexLess(items[p].0, items[q].0)
  {
    var a := new (string, nat)[|frequencies|](k requires 0 <= k < |frequencies| => frequencies[k]);
    assert a[..] == frequencies;
    var n := a.Length;
    for i := 0 to n
      invariant multiset(a[..]) == multiset(frequencies)
      invariant DistinctKeys(frequencies) ==> DistinctKeys(a[..])
      invariant SortedFrom(a[..], n - i) && SplitAt(a[..], n - i)
    {
      BubblePass(a, n - i);
    }
    items := a[..];
    if DistinctKeys(frequencies) {
      forall p, q | 0 <= p < q < |items| ensures LexLess(items[p].0, items[q].0) {
        LexLeqDistinct(items[p].0, items[q].0);
      }
    }
  }
}
