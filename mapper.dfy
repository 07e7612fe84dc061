/** The map step of the job (`Anagram.AMapper`): the skip-word set and the
    parsing of the skip file, the anagram key of a word, and the pairs
    written for one line of input. */
module Mapper {
  import opened Ordering
  import opened Text

  /** One `context.write(key, word)` of the mapper. */
  datatype Pair = Pair(key: string, word: string)

  /** What a `BufferedReader` delivered from the skip file: the lines it
      returned before it reached the end of the file (`failed` false) or
      threw an `IOException` (`failed` true). A file that cannot be opened
      fails before its first line. */
  datatype SkipFile = SkipFile(lines: seq<string>, failed: bool)

  /** The line written to the error stream when the skip file cannot be read. */
  const ParseError: string := "Error Parsing file"

  /** The anagram key of a word: its characters in ascending order, as
      `Arrays.sort` on the word's `char[]` leaves them. */
  function SortedKey(word: string): (key: string)
    ensures multiset(key) == multiset(word)
    ensures SortedBy(key, CharLe)
  {
    CharLeIsTotalOrder();
    SortSorted(word, CharLe);
    Sort(word, CharLe)
  }

  /** Two words share a key exactly when each is a permutation of the other. */
  lemma SameKeyIffAnagram(a: string, b: string)
    ensures SortedKey(a) == SortedKey(b) <==> multiset(a) == multiset(b)
  {
    if multiset(a) == multiset(b) {
      CharLeIsTotalOrder();
      SortedUnique(SortedKey(a), SortedKey(b), CharLe);
    }
  }

  /** The key is its own key: sorting a sorted word changes nothing. */
  lemma SortedKeyIdempotent(word: string)
    ensures SortedKey(SortedKey(word)) == SortedKey(word)
  {
    SameKeyIffAnagram(SortedKey(word), word);
  }

  /** The key of a word as the mapper sees it, after punctuation is removed
      and letters are lowercased: any rearrangement of the raw word gets the
      same key, and two raw words share a key exactly when they are anagrams
      once case and punctuation are ignored. */
  lemma KeyOfNormalizedPermutation(a: string, b: string)
    ensures multiset(a) == multiset(b) ==> SortedKey(Normalize(a)) == SortedKey(Normalize(b))
    ensures SortedKey(Normalize(a)) == SortedKey(Normalize(b))
        <==> multiset(Normalize(a)) == multiset(Normalize(b))
  {
    if multiset(a) == multiset(b) {
      NormalizePerm(a, b);
    }
    SameKeyIffAnagram(Normalize(a), Normalize(b));
  }

  /** Builds the key the way the mapper does: copy the word into a fresh
      `char[]`, sort it in place, read it back as a string. */
  method AnagramKey(word: string) returns (key: string)
    ensures key == SortedKey(word)
  {
    var arr := new char[|word|](i requires 0 <= i < |word| => word[i]);
    assert arr[..] == word;
    CharLeIsTotalOrder();
    SortInPlace(arr, CharLe);
    key := arr[..];
  }

  /** The pairs the mapper writes for one token: none when the token is a
      skip word, none when it contains a digit, else the token under its
      key. */
  function Emit(skipwords: set<string>, word: string): (out: seq<Pair>)
    ensures |out| <= 1
    ensures out != [] <==> Survives(skipwords, word)
    ensures forall p :: p in out ==> p.word == word && p.key == SortedKey(word)
  {
    if word in skipwords then []
    else if HasDigit(word) then []
    else [Pair(SortedKey(word), word)]
  }

  /** The pairs written for a sequence of tokens, in token order; no token
      gives more than one pair. */
  function MapTokens(skipwords: set<string>, tokens: seq<string>): (pairs: seq<Pair>)
    ensures |pairs| <= |tokens|
  {
    if tokens == [] then []
    else MapTokens(skipwords, tokens[..|tokens| - 1]) + Emit(skipwords, tokens[|tokens| - 1])
  }

  /** The pairs `map` writes for one line of input: every surviving token of
      the normalized line is written under its key, and nothing else is. */
  function MapLine(skipwords: set<string>, line: string): (pairs: seq<Pair>)
    ensures forall p :: p in pairs ==>
      p.word in Tokens(Normalize(line)) && Survives(skipwords, p.word) && p.key == SortedKey(p.word)
    ensures forall w :: w in Tokens(Normalize(line)) && Survives(skipwords, w) ==> Pair(SortedKey(w), w) in pairs
  {
    var tokens := Tokens(Normalize(line));
    var pairs := MapTokens(skipwords, tokens);
    MapTokensPairs(skipwords, tokens);
    assert forall w :: w in tokens && Survives(skipwords, w) ==> Pair(SortedKey(w), w) in pairs by {
      forall w | w in tokens && Survives(skipwords, w)
        ensures Pair(SortedKey(w), w) in pairs
      {
        MapTokensCounts(skipwords, tokens, w);
        assert w in multiset(WordsOf(pairs));
        var i :| 0 <= i < |pairs| && WordsOf(pairs)[i] == w;
        assert pairs[i] in pairs;
      }
    }
    pairs
  }

  /** A token the filters keep. */
  predicate Survives(skipwords: set<string>, word: string)
  {
    word !in skipwords && !HasDigit(word)
  }

  function WordsOf(pairs: seq<Pair>): (ws: seq<string>)
    ensures |ws| == |pairs| && forall i :: 0 <= i < |pairs| ==> ws[i] == pairs[i].word
  {
    seq(|pairs|, i requires 0 <= i < |pairs| => pairs[i].word)
  }

  /** Mapping is compositional: the pairs for a concatenation of token
      sequences are the pairs for the first followed by those for the second. */
  lemma {:induction false} MapTokensAppend(skipwords: set<string>, ts: seq<string>, us: seq<string>)
    ensures MapTokens(skipwords, ts + us) == MapTokens(skipwords, ts) + MapTokens(skipwords, us)
    decreases |us|
  {
    if us == [] {
      assert ts + us == ts;
    } else {
      var init, last := us[..|us| - 1], us[|us| - 1];
      assert (ts + us)[..|ts + us| - 1] == ts + init;
      MapTokensAppend(skipwords, ts, init);
    }
  }

  /** Every pair written is a surviving token under its key. */
  lemma {:induction false} MapTokensPairs(skipwords: set<string>, tokens: seq<string>)
    ensures forall p :: p in MapTokens(skipwords, tokens) ==>
      p.word in tokens && Survives(skipwords, p.word) && p.key == SortedKey(p.word)
  {
    if tokens != [] {
      var init := tokens[..|tokens| - 1];
      MapTokensPairs(skipwords, init);
      assert forall w :: w in init ==> w in tokens;
    }
  }

  /** No deduplication: a word is written exactly as many times as it occurs
      among the tokens if it survives the filters, and never otherwise. */
  lemma {:induction false} MapTokensCounts(skipwords: set<string>, tokens: seq<string>, w: string)
    ensures multiset(WordsOf(MapTokens(skipwords, tokens)))[w] ==
      if Survives(skipwords, w) then multiset(tokens)[w] else 0
  {
    if tokens != [] {
      var init, last := tokens[..|tokens| - 1], tokens[|tokens| - 1];
      var before := multiset(WordsOf(MapTokens(skipwords, init)));
      assert before[w] == if Survives(skipwords, w) then multiset(init)[w] else 0 by {
        MapTokensCounts(skipwords, init, w);
      }
      var e := multiset(WordsOf(Emit(skipwords, last)));
      assert multiset(WordsOf(MapTokens(skipwords, tokens))) == before + e by {
        MapTokensWords(skipwords, tokens);
      }
      assert e == if Survives(skipwords, last) then multiset{last} else multiset{} by {
        EmitWords(skipwords, last);
      }
      assert multiset(tokens) == multiset(init) + multiset{last} by {
        assert tokens == init + [last];
      }
    } else {
      assert MapTokens(skipwords, tokens) == [];
      assert WordsOf([]) == [];
      assert multiset(tokens)[w] == 0;
    }
  }

  lemma MapTokensWords(skipwords: set<string>, tokens: seq<string>)
    requires tokens != []
    ensures multiset(WordsOf(MapTokens(skipwords, tokens))) ==
      multiset(WordsOf(MapTokens(skipwords, tokens[..|tokens| - 1]))) + multiset(WordsOf(Emit(skipwords, tokens[|tokens| - 1])))
  {
    WordsOfAppend(MapTokens(skipwords, tokens[..|tokens| - 1]), Emit(skipwords, tokens[|tokens| - 1]));
  }

  lemma EmitWords(skipwords: set<string>, word: string)
    ensures multiset(WordsOf(Emit(skipwords, word))) ==
      if Survives(skipwords, word) then multiset{word} else multiset{}
  {
  }

  lemma WordsOfAppend(a: seq<Pair>, b: seq<Pair>)
    ensures WordsOf(a + b) == WordsOf(a) + WordsOf(b)
  {
  }

  /** What every word written by `map` looks like: a non-empty token of the
      normalized line, free of punctuation, upper case, delimiters and
      digits, not a skip word, and written under its own key. */
  lemma MapLineWords(skipwords: set<string>, line: string)
    ensures forall p :: p in MapLine(skipwords, line) ==>
      && p.word != []
      && (forall c :: c in p.word ==> !IsPunct(c) && !IsUpper(c) && !IsDelimiter(c))
      && !HasDigit(p.word)
      && p.word !in skipwords
      && p.key == SortedKey(p.word)
      && p.word in Tokens(Normalize(line))
  {
  }

  /** A skip entry that cannot be a token (empty, or holding a delimiter,
      punctuation or an upper-case letter, as fields of the skip file are
      kept verbatim) never changes what `map` writes. */
  lemma InertSkipEntry(skipwords: set<string>, line: string, entry: string)
    requires entry == [] || exists c :: c in entry && (IsDelimiter(c) || IsPunct(c) || IsUpper(c))
    ensures MapLine(skipwords, line) == MapLine(skipwords - {entry}, line)
  {
    var tokens := Tokens(Normalize(line));
    assert entry !in tokens;
    MapTokensIgnores(skipwords, tokens, entry);
  }

  lemma {:induction false} MapTokensIgnores(skipwords: set<string>, tokens: seq<string>, entry: string)
    requires entry !in tokens
    ensures MapTokens(skipwords, tokens) == MapTokens(skipwords - {entry}, tokens)
  {
    if tokens != [] {
      var init := tokens[..|tokens| - 1];
      assert entry !in init by {
        assert forall w :: w in init ==> w in tokens;
      }
      MapTokensIgnores(skipwords, init, entry);
    }
  }

  /** How `map` tested for digits as written, with `matches(".*\\d+.*")`. */
  function EmitAsWritten(skipwords: set<string>, word: string): (out: seq<Pair>)
    ensures (forall i :: 0 <= i < |word| ==> !IsLineTerminator(word[i])) ==> out == Emit(skipwords, word)
    ensures |Emit(skipwords, word)| <= |out|
  {
    if word in skipwords then []
    else if DigitPatternMatches(word) then []
    else [Pair(SortedKey(word), word)]
  }

  /** As written, a token holding a digit and a line terminator that is not
      a delimiter (U+0085, U+2028 or U+2029), which neither the punctuation
      filter nor the tokenizer removes, is written although it contains a
      digit. */
  lemma DigitPatternMissesDigits(w: string)
    requires HasDigit(w)
    requires exists i :: 0 <= i < |w| && IsLineTerminator(w[i])
    requires forall c :: c in w ==> !IsPunct(c) && !IsUpper(c) && !IsDelimiter(c)
    ensures Tokens(Normalize(w)) == [w]
    ensures EmitAsWritten({}, w) == [Pair(SortedKey(w), w)]
  {
    StripPunctOfClean(w);
    assert LowerCase(w) == w;
    TokensOfWord(w);
  }

  /** One such line: "a", U+2028, "1". */
  lemma DigitPatternMissesDigitsExample()
    ensures var w := "a\U{2028}1";
      && HasDigit(w)
      && (exists i :: 0 <= i < |w| && IsLineTerminator(w[i]))
      && (forall c :: c in w ==> !IsPunct(c) && !IsUpper(c) && !IsDelimiter(c))
  {
    var w := "a\U{2028}1";
    assert w == ['a', '\U{2028}', '1'];
    assert IsDigit(w[2]) && IsLineTerminator(w[1]);
  }

  /** The mapper of one task: the skip words it loaded in setup and what it
      wrote to the error stream. */
  class AnagramMapper {
    var skipwords: set<string>
    var errors: seq<string>

    constructor ()
      ensures skipwords == {} && errors == []
    {
      skipwords := {};
      errors := [];
    }

    /** `setup`: the skip file is read only when skip patterns are enabled. */
    method Setup(skipPatterns: bool, skipFile: SkipFile)
      modifies this
      ensures skipwords == if skipPatterns then old(skipwords) + SkipFields(skipFile.lines) else old(skipwords)
      ensures errors == if skipPatterns && skipFile.failed then old(errors) + [ParseError] else old(errors)
    {
      if skipPatterns {
        ParseSkipFile(skipFile);
      }
    }

    /** `parseSkipFile`: adds every comma-separated field of every line that
      was read; a read failure is logged and keeps what was added before it. */
    method ParseSkipFile(file: SkipFile)
      modifies this
      ensures skipwords == old(skipwords) + SkipFields(file.lines)
      ensures errors == old(errors) + (if file.failed then [ParseError] else [])
    {
      var i := 0;
      while i < |file.lines|
        invariant 0 <= i <= |file.lines|
        invariant skipwords == old(skipwords) + SkipFields(file.lines[..i])
        invariant errors == old(errors)
      {
        var arr := Split(file.lines[i], ',');
        ghost var start := skipwords;
        var k := 0;
        while k < |arr|
          invariant 0 <= k <= |arr|
          invariant skipwords == start + FieldSet(arr[..k])
          invariant errors == old(errors)
        {
          FieldSetSnoc(arr, k);
          skipwords := skipwords + {arr[k]};
          k := k + 1;
        }
        assert arr[..k] == arr;
        assert SkipFields(file.lines[..i + 1]) == SkipFields(file.lines[..i]) + FieldSet(arr) by {
          assert file.lines[..i + 1][..i] == file.lines[..i];
        }
        i := i + 1;
      }
      assert file.lines[..i] == file.lines;
      if file.failed {
        errors := errors + [ParseError];
      }
    }

    /** `map`: the pairs written for one line of input. */
    method Map(line: string) returns (emitted: seq<Pair>)
      ensures emitted == MapLine(skipwords, line)
    {
      var tokens := Tokens(Normalize(line));
      emitted := [];
      var i := 0;
      while i < |tokens|
        invariant 0 <= i <= |tokens|
        invariant emitted == MapTokens(skipwords, tokens[..i])
      {
        var word := tokens[i];
        assert tokens[..i + 1][..i] == tokens[..i];
        if word in skipwords {
          // a skip word: nothing is written
        } else if HasDigit(word) {
          // a word with a digit: nothing is written
        } else {
          var key := AnagramKey(word);
          emitted := emitted + [Pair(key, word)];
        }
        i := i + 1;
      }
      assert tokens[..i] == tokens;
    }
  }

  /** Every field `split(",")` gives for every line, taken verbatim; no
      skip word holds a comma. */
  function SkipFields(lines: seq<string>): (words: set<string>)
    ensures forall w :: w in words ==> ',' !in w
  {
    if lines == [] then {}
    else
      SkipFields(lines[..|lines| - 1]) + FieldSet(Split(lines[|lines| - 1], ','))
  }

  /** The fields of one line, as a set. */
  function FieldSet(fields: seq<string>): (words: set<string>)
    ensures forall w :: w in words <==> w in fields
  {
    set f | f in fields
  }

  lemma FieldSetSnoc(fields: seq<string>, k: nat)
    requires k < |fields|
    ensures FieldSet(fields[..k + 1]) == FieldSet(fields[..k]) + {fields[k]}
  {
    assert fields[..k + 1] == fields[..k] + [fields[k]];
  }

  /** A word is a skip word exactly when it is a field of some line of the
      skip file. */
  lemma {:induction false} SkipFieldsSpec(lines: seq<string>, w: string)
    ensures w in SkipFields(lines) <==> exists i :: 0 <= i < |lines| && w in Split(lines[i], ',')
  {
    if lines != [] {
      var init := lines[..|lines| - 1];
      SkipFieldsSpec(init, w);
      assert forall i :: 0 <= i < |init| ==> init[i] == lines[i];
    }
  }
}
