/** The string operations the job relies on, restricted to what they do on
    ASCII: `replaceAll("\\p{Punct}", "")`, `toLowerCase()`, a
    `StringTokenizer` with its default delimiters, the regex test
    `matches(".*\\d+.*")`, `split(",")` and joining with a separator. */
module Text {

  /** `\p{Punct}` in a Java regex: the 32 ASCII punctuation characters
      ! " # $ % & ' ( ) * + , - . / : ; < = > ? @ [ \ ] ^ _ ` { | } ~ */
  predicate IsPunct(c: char)
    ensures IsPunct(c) <==> '!' <= c <= '~' && !IsDigit(c) && !IsUpper(c) && !('a' <= c <= 'z')
  {
    ('!' <= c <= '/') || (':' <= c <= '@') || ('[' <= c <= '`') || ('{' <= c <= '~')
  }

  predicate IsUpper(c: char)
  {
    'A' <= c <= 'Z'
  }

  /** `Character.toLowerCase` on ASCII; every other character is kept. */
  function ToLower(c: char): (d: char)
    ensures !IsUpper(d)
    ensures IsPunct(d) <==> IsPunct(c)
    ensures IsUpper(c) || d == c
    ensures IsUpper(c) ==> 'a' <= d <= 'z' && d as int - 'a' as int == c as int - 'A' as int
  {
    if IsUpper(c) then (c as int + ('a' as int - 'A' as int)) as char else c
  }

  /** The default delimiter set of `StringTokenizer`: space, tab, newline,
      carriage return and form feed. */
  predicate IsDelimiter(c: char)
  {
    c == ' ' || c == '\t' || c == '\n' || c == '\r' || c == '\U{C}'
  }

  /** `\d` in a Java regex (without the Unicode character-class flag). */
  predicate IsDigit(c: char)
  {
    '0' <= c <= '9'
  }

  /** The line terminators that `.` in a Java regex does not match when the
      DOTALL flag is off. */
  predicate IsLineTerminator(c: char)
  {
    c == '\n' || c == '\r' || c == '\U{85}' || c == '\U{2028}' || c == '\U{2029}'
  }

  /** `s.replaceAll("\\p{Punct}", "")`: the characters of `s` that are not
      punctuation, in their order. */
  function StripPunct(s: string): (r: string)
    ensures |r| <= |s|
    ensures forall c :: c in r <==> c in s && !IsPunct(c)
  {
    if s == [] then []
    else if IsPunct(s[0]) then StripPunct(s[1..])
    else
      assert s == [s[0]] + s[1..];
      [s[0]] + StripPunct(s[1..])
  }

  /** `s.toLowerCase()`, one character at a time. */
  function LowerCase(s: string): (r: string)
    ensures |r| == |s|
    ensures forall i :: 0 <= i < |s| ==> r[i] == ToLower(s[i])
    ensures forall c :: c in r ==> !IsUpper(c)
    ensures (forall c :: c in s ==> !IsUpper(c)) ==> r == s
  {
    seq(|s|, i requires 0 <= i < |s| => ToLower(s[i]))
  }

  /** What the mapper feeds to its tokenizer: punctuation removed from the
      whole line first, then the line lowercased. */
  function Normalize(line: string): (r: string)
    ensures forall c :: c in r ==> !IsPunct(c) && !IsUpper(c)
    ensures forall c :: c in r ==> exists d :: d in line && c == ToLower(d)
    ensures forall c :: c in line && !IsPunct(c) ==> ToLower(c) in r
    ensures |r| <= |line|
  {
    var stripped := StripPunct(line);
    var r := LowerCase(stripped);
    assert forall i :: 0 <= i < |r| ==> r[i] == ToLower(stripped[i]) && stripped[i] in line;
    assert forall c :: c in stripped ==> ToLower(c) in r by {
      forall c | c in stripped ensures ToLower(c) in r {
        var i :| 0 <= i < |stripped| && stripped[i] == c;
        assert r[i] == ToLower(c);
      }
    }
    r
  }

  /** A line with no punctuation and no upper-case letter is handed to the
      tokenizer unchanged. */
  lemma NormalizeOfClean(line: string)
    requires forall c :: c in line ==> !IsPunct(c) && !IsUpper(c)
    ensures Normalize(line) == line
  {
    StripPunctOfClean(line);
  }

  /** Normalizing works character by character: the result for a
      concatenation is the concatenation of the results. */
  lemma NormalizeAppend(a: string, b: string)
    ensures Normalize(a + b) == Normalize(a) + Normalize(b)
  {
    StripPunctAppend(a, b);
    LowerCaseAppend(StripPunct(a), StripPunct(b));
  }

  lemma LowerCaseAppend(x: string, y: string)
    ensures LowerCase(x + y) == LowerCase(x) + LowerCase(y)
  {
    var l := LowerCase(x + y);
    assert forall i :: 0 <= i < |x| ==> l[i] == LowerCase(x)[i];
    assert forall i :: |x| <= i < |l| ==> l[i] == LowerCase(y)[i - |x|];
  }

  /** Stripping punctuation works character by character. */
  lemma {:induction false} StripPunctAppend(a: string, b: string)
    ensures StripPunct(a + b) == StripPunct(a) + StripPunct(b)
  {
    if a == [] {
      assert a + b == b;
    } else {
      assert (a + b)[0] == a[0] && (a + b)[1..] == a[1..] + b;
      StripPunctAppend(a[1..], b);
    }
  }

  /** Normalizing twice changes nothing more than normalizing once. */
  lemma NormalizeIdempotent(line: string)
    ensures Normalize(Normalize(line)) == Normalize(line)
  {
    NormalizeOfClean(Normalize(line));
  }

  /** Rearranging the characters of a line rearranges the characters that
      survive normalization: the same characters, as often, in another order. */
  lemma {:induction false} NormalizePerm(a: string, b: string)
    requires multiset(a) == multiset(b)
    ensures multiset(Normalize(a)) == multiset(Normalize(b))
    decreases |a|
  {
    if a != [] {
      var c := a[0];
      assert c in multiset(b) by { assert c in multiset(a); }
      var j :| 0 <= j < |b| && b[j] == c;
      var rest := b[..j] + b[j + 1..];
      assert b == b[..j] + [c] + b[j + 1..];
      assert a == [c] + a[1..];
      assert multiset(a[1..]) == multiset(rest) by {
        assert multiset(a) == multiset{c} + multiset(a[1..]);
        assert multiset(b) == multiset(b[..j]) + multiset{c} + multiset(b[j + 1..]);
        assert multiset(rest) == multiset(b[..j]) + multiset(b[j + 1..]);
        assert multiset(a[1..]) == multiset(a) - multiset{c};
        assert multiset(rest) == multiset(b) - multiset{c};
      }
      NormalizePerm(a[1..], rest);
      NormalizeAppend([c], a[1..]);
      NormalizeAppend(b[..j] + [c], b[j + 1..]);
      NormalizeAppend(b[..j], [c]);
      NormalizeAppend(b[..j], b[j + 1..]);
    } else {
      assert b == [] by { assert |b| == |multiset(b)|; }
    }
  }

  lemma {:induction false} StripPunctOfClean(s: string)
    requires forall c :: c in s ==> !IsPunct(c)
    ensures StripPunct(s) == s
  {
    if s != [] {
      StripPunctOfClean(s[1..]);
      assert s == [s[0]] + s[1..];
    }
  }

  /** The length of the run of non-delimiters that starts `s`. */
  function RunLength(s: string): (n: nat)
    ensures n <= |s|
    ensures forall i :: 0 <= i < n ==> !IsDelimiter(s[i])
    ensures n < |s| ==> IsDelimiter(s[n])
  {
    if s == [] || IsDelimiter(s[0]) then 0 else 1 + RunLength(s[1..])
  }

  /** The tokens a `StringTokenizer` with the default delimiters returns for
      `s`: its maximal runs of non-delimiters, left to right. */
  function Tokens(s: string): (ts: seq<string>)
    decreases |s|
    ensures forall t :: t in ts ==> t != [] && forall c :: c in t ==> c in s && !IsDelimiter(c)
  {
    if s == [] then []
    else if IsDelimiter(s[0]) then Tokens(s[1..])
    else
      var n := RunLength(s);
      [s[..n]] + Tokens(s[n..])
  }

  /** `ws` joined with `sep` between neighbours, built left to right the way
      the reducer builds it. */
  function Join(ws: seq<string>, sep: string): (s: string)
  {
    if |ws| == 0 then []
    else if |ws| == 1 then ws[0]
    else Join(ws[..|ws| - 1], sep) + sep + ws[|ws| - 1]
  }

  /** A joined string starts with the first word and ends with the last. */
  lemma {:induction false} JoinEnds(ws: seq<string>, sep: string)
    requires |ws| >= 1
    ensures var s := Join(ws, sep);
      && ws[0] <= s
      && |ws[|ws| - 1]| <= |s| && s[|s| - |ws[|ws| - 1]|..] == ws[|ws| - 1]
  {
    if |ws| >= 2 {
      var init := ws[..|ws| - 1];
      JoinEnds(init, sep);
      var front := Join(init, sep);
      assert Join(ws, sep) == front + sep + ws[|ws| - 1];
      assert ws[0] == init[0];
      assert ws[0] <= front;
    }
  }

  lemma {:induction false} RunLengthAppend(a: string, b: string)
    ensures RunLength(a + b) == if RunLength(a) < |a| then RunLength(a) else |a| + RunLength(b)
  {
    if a == [] {
      assert a + b == b;
    } else if !IsDelimiter(a[0]) {
      assert (a + b)[1..] == a[1..] + b;
      RunLengthAppend(a[1..], b);
    }
  }

  /** A delimiter ends a token: tokenizing around it tokenizes each side. */
  lemma {:induction false} TokensAppend(a: string, d: char, b: string)
    requires IsDelimiter(d)
    ensures Tokens(a + [d] + b) == Tokens(a) + Tokens(b)
    decreases |a|
  {
    var s := a + [d] + b;
    if a == [] {
      assert s[0] == d && s[1..] == b;
    } else if IsDelimiter(a[0]) {
      assert s[1..] == a[1..] + [d] + b;
      TokensAppend(a[1..], d, b);
    } else {
      RunLengthAppend(a, [d] + b);
      assert s == a + ([d] + b);
      assert s[0] == a[0];
      var n := RunLength(a);
      if n < |a| {
        assert s[..n] == a[..n];
        assert s[n..] == a[n..] + [d] + b;
        TokensAppend(a[n..], d, b);
      } else {
        assert RunLength([d] + b) == 0;
        assert s[..n] == a;
        assert s[n..] == [d] + b;
        assert ([d] + b)[0] == d && ([d] + b)[1..] == b;
        assert Tokens([d] + b) == Tokens(b);
        assert a[..n] == a && a[n..] == [];
        assert Tokens(a) == [a];
      }
    }
  }

  lemma TokensOfWord(w: string)
    requires w != [] && forall c :: c in w ==> !IsDelimiter(c)
    ensures Tokens(w) == [w]
  {
    RunLengthAppend(w, []);
    assert w + [] == w;
    assert w[|w|..] == [];
  }

  /** Tokenizing undoes joining with spaces, for words that are non-empty and
      free of delimiters. */
  lemma {:induction false} TokensOfJoin(ws: seq<string>)
    requires forall w :: w in ws ==> w != [] && forall c :: c in w ==> !IsDelimiter(c)
    ensures Tokens(Join(ws, " ")) == ws
  {
    if |ws| == 1 {
      assert ws[0] in ws;
      TokensOfWord(ws[0]);
    } else if |ws| > 1 {
      var init, last := ws[..|ws| - 1], ws[|ws| - 1];
      assert forall w :: w in init ==> w in ws;
      assert last in ws;
      TokensOfJoin(init);
      assert Join(ws, " ") == Join(init, " ") + [' '] + last;
      TokensAppend(Join(init, " "), ' ', last);
      TokensOfWord(last);
      assert ws == init + [last];
    }
  }

  /** Every field of `s` between occurrences of `sep`, empty ones included:
      a line with k separators has k + 1 fields. */
  function Fields(s: string, sep: char): (fs: seq<string>)
    ensures |fs| >= 1
    ensures forall f :: f in fs ==> sep !in f
  {
    if s == [] then [[]]
    else
      var rest := Fields(s[1..], sep);
      if s[0] == sep then [[]] + rest else [[s[0]] + rest[0]] + rest[1..]
  }

  /** `fs` without its trailing empty strings. */
  function DropTrailingEmpty(fs: seq<string>): (r: seq<string>)
    ensures r <= fs
    ensures r == [] || r[|r| - 1] != []
    ensures forall i :: |r| <= i < |fs| ==> fs[i] == []
  {
    if fs == [] || fs[|fs| - 1] != [] then fs else DropTrailingEmpty(fs[..|fs| - 1])
  }

  /** `s.split(sep)` in Java, for a separator that is not special in a
      regex: a string without the separator gives itself alone (so "" gives
      [""]); otherwise the fields between separators, with the trailing
      empty ones dropped and the others kept. */
  function Split(s: string, sep: char): (fs: seq<string>)
    ensures forall f :: f in fs ==> sep !in f
    ensures sep !in s ==> fs == [s]
    ensures sep in s ==> fs == [] || fs[|fs| - 1] != []
  {
    if sep !in s then [s] else DropTrailingEmpty(Fields(s, sep))
  }

  /** A separator ends a field: splitting around it splits each side. */
  lemma {:induction false} FieldsAppend(a: string, sep: char, b: string)
    ensures Fields(a + [sep] + b, sep) == Fields(a, sep) + Fields(b, sep)
  {
    var s := a + [sep] + b;
    if a == [] {
      assert s[0] == sep && s[1..] == b;
    } else {
      assert s[0] == a[0] && s[1..] == a[1..] + [sep] + b;
      FieldsAppend(a[1..], sep, b);
      var front, back := Fields(a[1..], sep), Fields(b, sep);
      assert Fields(s[1..], sep) == front + back;
      if a[0] != sep {
        assert (front + back)[0] == front[0];
        assert (front + back)[1..] == front[1..] + back;
      }
    }
  }

  lemma {:induction false} FieldsOfField(f: string, sep: char)
    requires sep !in f
    ensures Fields(f, sep) == [f]
  {
    if f != [] {
      FieldsOfField(f[1..], sep);
      assert f == [f[0]] + f[1..];
    }
  }

  /** Splitting into fields undoes joining with the separator, for fields
      that do not contain it. */
  lemma {:induction false} FieldsOfJoin(ws: seq<string>, sep: char)
    requires |ws| >= 1
    requires forall w :: w in ws ==> sep !in w
    ensures Fields(Join(ws, [sep]), sep) == ws
  {
    if |ws| == 1 {
      FieldsOfField(ws[0], sep);
    } else {
      var init, last := ws[..|ws| - 1], ws[|ws| - 1];
      FieldsOfJoin(init, sep);
      FieldsAppend(Join(init, [sep]), sep, last);
      FieldsOfField(last, sep);
      assert ws == init + [last];
    }
  }

  lemma JoinHasSeparator(ws: seq<string>, sep: char)
    requires |ws| >= 2
    ensures sep in Join(ws, [sep])
  {
    var s := Join(ws, [sep]);
    var k := |Join(ws[..|ws| - 1], [sep])|;
    assert s[k] == sep;
  }

  /** Java's `split` undoes joining with the separator when no field holds
      the separator and none is empty. */
  lemma SplitOfJoin(ws: seq<string>, sep: char)
    requires |ws| >= 1
    requires forall w :: w in ws ==> w != [] && sep !in w
    ensures Split(Join(ws, [sep]), sep) == ws
  {
    FieldsOfJoin(ws, sep);
    if |ws| >= 2 {
      JoinHasSeparator(ws, sep);
      assert ws[|ws| - 1] in ws;
    }
  }

  /** `s` matches the regex `\d+`. */
  predicate DigitRun(s: string)
  {
    s != [] && forall k :: 0 <= k < |s| ==> IsDigit(s[k])
  }

  /** `s` matches the regex `.*` (without the DOTALL flag). */
  predicate AnyRun(s: string)
  {
    forall k :: 0 <= k < |s| ==> !IsLineTerminator(s[k])
  }

  /** The token contains a decimal digit. */
  predicate HasDigit(w: string)
  {
    exists i :: 0 <= i < |w| && IsDigit(w[i])
  }

  /** What `w.matches(".*\\d+.*")` computes: the whole of `w` must match,
      and `.` matches no line terminator. So the pattern matches exactly the
      strings that contain a digit and no line terminator. */
  predicate DigitPatternMatches(w: string)
  {
    HasDigit(w) && AnyRun(w)
  }

  /** `HasDigit` is the test `\d+` can be found in the token. */
  lemma HasDigitSpec(w: string)
    ensures HasDigit(w) <==> exists i, j :: 0 <= i < j <= |w| && DigitRun(w[i..j])
  {
    assert forall i :: 0 <= i < |w| && IsDigit(w[i]) ==> DigitRun(w[i..i + 1]);
    assert forall i, j :: 0 <= i < j <= |w| && DigitRun(w[i..j]) ==> IsDigit(w[i..j][0]);
  }

  /** `DigitPatternMatches` is the whole token matching `.*`, then `\d+`,
      then `.*`. */
  lemma DigitPatternSpec(w: string)
    ensures DigitPatternMatches(w) <==>
      exists i, j :: 0 <= i < j <= |w| && AnyRun(w[..i]) && DigitRun(w[i..j]) && AnyRun(w[j..])
  {
    assert forall i :: 0 <= i < |w| && IsDigit(w[i]) && AnyRun(w) ==>
      AnyRun(w[..i]) && DigitRun(w[i..i + 1]) && AnyRun(w[i + 1..]);
    forall i, j | 0 <= i < j <= |w| && AnyRun(w[..i]) && DigitRun(w[i..j]) && AnyRun(w[j..])
      ensures IsDigit(w[i]) && AnyRun(w)
    {
      assert w[i] == w[i..j][0];
      forall k | 0 <= k < |w| ensures !IsLineTerminator(w[k]) {
        if k < i { assert w[k] == w[..i][k]; }
        else if k < j { assert w[k] == w[i..j][k - i]; }
        else { assert w[k] == w[j..][k - j]; }
      }
    }
  }
}
