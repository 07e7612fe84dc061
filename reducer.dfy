/** The reduce step of the job (`Anagram.AReducer`): all words written
    under one key are joined with ',', split again, deduplicated in a set,
    sorted, and written as "[w1, w2, ...]" when more than one distinct word
    remains. */
module Reducer {
  import opened Wrappers
  import opened Ordering
  import opened Text

  /** One `context.write(key, value)` of the reducer. */
  datatype Record = Record(key: string, value: string)

  /** The set the reducer counts: `new HashSet(Arrays.asList(anagram.split(",")))`
      where `anagram` is the batch joined with ','. */
  function DistinctWords(values: seq<string>): (words: set<string>)
    ensures forall w :: w in words ==> ',' !in w
    ensures |values| == 1 && ',' !in values[0] ==> words == {values[0]}
  {
    var fields := Split(Join(values, ","), ',');
    set f | f in fields
  }

  /** The words the reducer writes for a batch, if it writes: the distinct
      words in ascending `String.compareTo` order, when there are more than
      one: nothing for at most one distinct word; otherwise every distinct
      word once, strictly ascending. */
  ghost function Reduced(values: seq<string>): (r: Option<seq<string>>)
    ensures r.None? <==> |DistinctWords(values)| <= 1
    ensures r.Some? ==>
      && |r.value| == |DistinctWords(values)| >= 2
      && (forall w :: w in r.value <==> w in DistinctWords(values))
      && forall i, j :: 0 <= i < j < |r.value| ==> LexLe(r.value[i], r.value[j]) && r.value[i] != r.value[j]
  {
    var distinct := DistinctWords(values);
    LexLeIsTotalOrder();
    SortedElementsSpec(distinct, LexLe, []);
    if |distinct| > 1 then Some(SortedElements(distinct, LexLe)) else None
  }

  /** `List.toString()` of a list of strings. */
  function Format(ws: seq<string>): (s: string)
    ensures |s| >= 2 && s[0] == '[' && s[|s| - 1] == ']'
  {
    "[" + Join(ws, ", ") + "]"
  }

  /** Reads a formatted list back: the text between the brackets, split at
      each ',', with the space that follows each comma removed. */
  function ParseList(s: string): (ws: seq<string>)
  {
    if |s| < 2 || s[1..|s| - 1] == [] then []
    else
      var fields := Fields(s[1..|s| - 1], ',');
      seq(|fields|, i requires 0 <= i < |fields| => if i == 0 then fields[0] else Unspace(fields[i]))
  }

  /** A field with at most one leading space removed. */
  function Unspace(f: string): (w: string)
    ensures f == w || f == " " + w
  {
    if f != [] && f[0] == ' ' then f[1..] else f
  }

  /** The fields of a ", "-joined list are its words, each after the first
      led by the space that followed the comma. */
  lemma {:induction false} FieldsOfListJoin(ws: seq<string>)
    requires |ws| >= 1
    requires forall w :: w in ws ==> ',' !in w
    ensures var fields := Fields(Join(ws, ", "), ',');
      && |fields| == |ws|
      && fields[0] == ws[0]
      && forall i :: 1 <= i < |ws| ==> fields[i] == " " + ws[i]
  {
    if |ws| == 1 {
      assert ws[0] in ws;
      FieldsOfField(ws[0], ',');
    } else {
      var init, last := ws[..|ws| - 1], ws[|ws| - 1];
      assert forall w :: w in init ==> w in ws;
      assert last in ws;
      FieldsOfListJoin(init);
      var front := Join(init, ", ");
      var fields := Fields(Join(ws, ", "), ',');
      assert fields == Fields(front, ',') + [" " + last] by {
        assert Join(ws, ", ") == front + [','] + (" " + last);
        FieldsAppend(front, ',', " " + last);
        FieldsOfField(" " + last, ',');
      }
      forall i | 1 <= i < |ws|
        ensures fields[i] == " " + ws[i]
      {
        if i < |init| {
          assert ws[i] == init[i];
        }
      }
    }
  }

  /** Reading a formatted list back gives the list, for non-empty words
      without commas. */
  lemma FormatRoundTrip(ws: seq<string>)
    requires forall w :: w in ws ==> w != [] && ',' !in w
    ensures ParseList(Format(ws)) == ws
  {
    var s := Format(ws);
    assert s[1..|s| - 1] == Join(ws, ", ");
    if ws != [] {
      FieldsOfListJoin(ws);
      assert ws[0] in ws;
      var fields := Fields(Join(ws, ", "), ',');
      forall i | 1 <= i < |ws|
        ensures Unspace(fields[i]) == ws[i]
      {
        assert fields[i] == " " + ws[i];
        assert (" " + ws[i])[1..] == ws[i];
      }
    }
  }

  /** Joining with ',' and splitting again gives back exactly the words of
      the batch when none contains a comma and none is empty, which holds of
      every word the mapper writes. */
  lemma DistinctWordsRoundTrip(values: seq<string>)
    requires |values| >= 1
    requires forall w :: w in values ==> w != [] && ',' !in w
    ensures forall w :: w in DistinctWords(values) <==> w in values
  {
    SplitOfJoin(values, ',');
  }

  /** The reducer does not depend on the order in which the batch arrives,
      nor on how often each word occurs in it. */
  lemma ReducedOrderIndependent(values: seq<string>, others: seq<string>)
    requires |values| >= 1 && |others| >= 1
    requires forall w :: w in values ==> w != [] && ',' !in w
    requires forall w :: w in others ==> w != [] && ',' !in w
    requires forall w :: w in values <==> w in others
    ensures Reduced(values) == Reduced(others)
  {
    DistinctWordsRoundTrip(values);
    DistinctWordsRoundTrip(others);
    assert DistinctWords(values) == DistinctWords(others);
  }

  /** `reduce` for one key and its whole batch of words. */
  method Reduce(key: string, values: seq<string>) returns (written: Option<Record>)
    requires |values| >= 1
    ensures written == match Reduced(values)
      case None => None
      case Some(ws) => Some(Record(key, Format(ws)))
  {
    var anagram: Option<string> := None;
    for i := 0 to |values|
      invariant anagram == if i == 0 then None else Some(Join(values[..i], ","))
    {
      assert values[..i + 1][..i] == values[..i];
      if anagram.None? {
        anagram := Some(values[i]);
      } else {
        anagram := Some(anagram.value + "," + values[i]);
      }
    }
    assert values[..|values|] == values;
    var fields := Split(anagram.value, ',');
    var tempAnagramList := set f | f in fields;
    var numberOfAnagrams := |tempAnagramList|;
    var listed := Elements(tempAnagramList);
    var arrangeOrderList := new string[|listed|](i requires 0 <= i < |listed| => listed[i]);
    assert arrangeOrderList[..] == listed;
    LexLeIsTotalOrder();
    SortInPlace(arrangeOrderList, LexLe);
    SortSorted(listed, LexLe);
    SortedElementsSpec(tempAnagramList, LexLe, arrangeOrderList[..]);
    if numberOfAnagrams > 1 {
      written := Some(Record(key, Format(arrangeOrderList[..])));
    } else {
      written := None;
    }
  }
}
