/** The job end to end, as two phases: every input line is mapped with the
    same skip words, the pairs are grouped by key, and the batch of each key
    is reduced. The distributed shuffle is replaced by this grouping. */
module Job {
  import opened Wrappers
  import opened Ordering
  import opened Text
  import opened Mapper
  import opened Reducer

  /** Phase one: the pairs written for all input lines, in order. */
  function MapAll(skipwords: set<string>, lines: seq<string>): (pairs: seq<Pair>)
  {
    if lines == [] then []
    else MapAll(skipwords, lines[..|lines| - 1]) + MapLine(skipwords, lines[|lines| - 1])
  }

  /** The batch the grouping hands to the reducer for `key`: every word
      written under that key, once per time it was written. */
  function ValuesFor(pairs: seq<Pair>, key: string): (values: seq<string>)
    ensures forall w :: w in values <==> Pair(key, w) in pairs
    ensures forall w :: multiset(values)[w] == multiset(pairs)[Pair(key, w)]
  {
    if pairs == [] then []
    else
      var last := pairs[|pairs| - 1];
      assert pairs == pairs[..|pairs| - 1] + [last];
      assert multiset(pairs) == multiset(pairs[..|pairs| - 1]) + multiset{last};
      ValuesFor(pairs[..|pairs| - 1], key) + (if last.key == key then [last.word] else [])
  }

  /** The keys the reducer is called for. */
  function KeysOf(pairs: seq<Pair>): (keys: set<string>)
  {
    set p | p in pairs :: p.key
  }

  /** Phase two: the list the reducer writes for each key, for the keys it
      writes anything for. */
  ghost function Output(skipwords: set<string>, lines: seq<string>): map<string, seq<string>>
  {
    var pairs := MapAll(skipwords, lines);
    map k | k in KeysOf(pairs) && Reduced(ValuesFor(pairs, k)).Some? :: Reduced(ValuesFor(pairs, k)).value
  }

  /** The words written by the map phase. */
  ghost function Emitted(skipwords: set<string>, lines: seq<string>): set<string>
  {
    set p | p in MapAll(skipwords, lines) :: p.word
  }

  /** A word as the map phase writes it. */
  ghost predicate CleanWord(skipwords: set<string>, w: string)
  {
    && w != []
    && (forall c :: c in w ==> !IsPunct(c) && !IsUpper(c) && !IsDelimiter(c))
    && !HasDigit(w)
    && w !in skipwords
  }

  /** Every pair of the map phase is a clean word under its own key. */
  lemma {:induction false} MapAllPairs(skipwords: set<string>, lines: seq<string>)
    ensures forall p :: p in MapAll(skipwords, lines) ==>
      CleanWord(skipwords, p.word) && p.key == SortedKey(p.word)
  {
    if lines != [] {
      MapAllPairs(skipwords, lines[..|lines| - 1]);
      MapLineWords(skipwords, lines[|lines| - 1]);
    }
  }

  /** The reducer's distinct words for a key are exactly the words written
      under it: map output never holds a comma, so its join and split
      round-trip. */
  lemma GroupWords(skipwords: set<string>, lines: seq<string>, k: string)
    requires k in KeysOf(MapAll(skipwords, lines))
    ensures forall w :: w in DistinctWords(ValuesFor(MapAll(skipwords, lines), k)) <==>
      Pair(k, w) in MapAll(skipwords, lines)
  {
    var pairs := MapAll(skipwords, lines);
    MapAllPairs(skipwords, lines);
    var p :| p in pairs && p.key == k;
    var values := ValuesFor(pairs, k);
    assert p.word in values;
    forall w | w in values
      ensures w != [] && ',' !in w
    {
      assert Pair(k, w) in pairs;
      assert IsPunct(',');
    }
    DistinctWordsRoundTrip(values);
  }

  lemma TwoElements<T>(s: set<T>)
    ensures |s| > 1 <==> exists a, b :: a in s && b in s && a != b
  {
    if |s| > 1 {
      var a :| a in s;
      assert |s - {a}| > 0;
      var b :| b in s - {a};
      assert a in s && b in s && a != b;
    }
    if exists a, b :: a in s && b in s && a != b {
      var a, b :| a in s && b in s && a != b;
      assert s == {a, b} + (s - {a, b});
      assert |s| == |{a, b}| + |s - {a, b}|;
    }
  }

  /** What the job reports. A key is reported exactly when at least two
      distinct words were written under it; its list holds exactly those
      words, strictly ascending, each a clean word whose key it is, so no
      reported word holds a digit or is a skip word. */
  lemma OutputSpec(skipwords: set<string>, lines: seq<string>, k: string)
    ensures var out, pairs := Output(skipwords, lines), MapAll(skipwords, lines);
      && (k in out <==> exists w1, w2 :: w1 != w2 && Pair(k, w1) in pairs && Pair(k, w2) in pairs)
      && (k in out ==> forall w :: w in out[k] <==> Pair(k, w) in pairs)
      && (k in out ==> forall w :: w in out[k] ==> CleanWord(skipwords, w) && SortedKey(w) == k)
      && (k in out ==>
        && |out[k]| >= 2
        && forall i, j :: 0 <= i < j < |out[k]| ==> LexLe(out[k][i], out[k][j]) && out[k][i] != out[k][j])
  {
    var pairs := MapAll(skipwords, lines);
    var values := ValuesFor(pairs, k);
    MapAllPairs(skipwords, lines);
    if k in KeysOf(pairs) {
      GroupWords(skipwords, lines, k);
      TwoElements(DistinctWords(values));
    } else {
      assert forall w :: Pair(k, w) !in pairs;
    }
  }

  /** Any two distinct words of the map phase that are anagrams of each
      other are reported together, under the key they share. */
  lemma AnagramsReportedTogether(skipwords: set<string>, lines: seq<string>, w1: string, w2: string)
    requires w1 in Emitted(skipwords, lines) && w2 in Emitted(skipwords, lines)
    requires w1 != w2 && multiset(w1) == multiset(w2)
    ensures var out := Output(skipwords, lines);
      SortedKey(w1) in out && w1 in out[SortedKey(w1)] && w2 in out[SortedKey(w1)]
  {
    var pairs := MapAll(skipwords, lines);
    MapAllPairs(skipwords, lines);
    OutputSpec(skipwords, lines, SortedKey(w1));
    SameKeyIffAnagram(w1, w2);
    var p1 :| p1 in pairs && p1.word == w1;
    var p2 :| p2 in pairs && p2.word == w2;
    assert p1 == Pair(SortedKey(w1), w1) && p2 == Pair(SortedKey(w1), w2);
  }

  /** Every list the job reports is one anagram class: its words are
      permutations of each other and of the key. */
  lemma ReportedWordsAreAnagrams(skipwords: set<string>, lines: seq<string>, k: string, w1: string, w2: string)
    requires k in Output(skipwords, lines)
    requires w1 in Output(skipwords, lines)[k] && w2 in Output(skipwords, lines)[k]
    ensures multiset(w1) == multiset(w2) == multiset(k)
  {
    OutputSpec(skipwords, lines, k);
    SameKeyIffAnagram(w1, w2);
  }
}
