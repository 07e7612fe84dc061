# Anagram classification job, modelled in Dafny

The job reads lines of text and reports every anagram class of the words in
it that holds more than one distinct word. It runs as a Hadoop map/reduce job
(`Anagram.java`):

- **`AMapper`** loads a set of skip words once per task (`setup` and
  `parseSkipFile`: every comma-separated field of every line of the skip
  file). Then `map` turns each line into `(key, word)` pairs. It removes ASCII
  punctuation from the whole line, lowercases it, and splits it with a
  `StringTokenizer`. It drops skip words, then drops tokens containing a
  digit. For every other token it writes the token under its anagram key: the
  token's characters sorted ascending.
- **`AReducer.reduce`** gets every word written under one key. It joins them
  with `,`, splits them again, puts them in a `HashSet`, sorts them, and
  writes `[w1, w2, ...]` when more than one distinct word remains.

The model has six modules, one per concern:

- `wrappers.dfy`: `Option`, for the reducer's `null` start value and its
  optional output.
- `ordering.dfy`: total orders, a reference insertion sort `Sort`, and the
  in-place array sort `SortInPlace`. The sort stands for both `Arrays.sort`
  on the key's `char[]` and `Collections.sort` on the reducer's list; it is
  proved equal to `Sort`, and a sorted permutation is unique. Also here:
  `Elements` (a set listed in arbitrary order, as `new ArrayList(hashSet)`
  does), the `char` order, and `LexLe`, the order of `String.compareTo`.
- `text.dfy`: the string operations. Punctuation stripping, lowercasing, the
  tokenizer, Java's `String.split` with its trailing-empty-field rule, joining,
  and the digit test (both as intended and as the regex computes it).
- `mapper.dfy`: the key (`SortedKey` and the imperative `AnagramKey`), the
  map of one line (`MapLine`), and the class `AnagramMapper`. The class holds
  the `skipwords` set and the lines written to the error stream. Its methods
  are `Setup`, `ParseSkipFile` and `Map`.
- `reducer.dfy`: the imperative `Reduce`, the specification `Reduced`, the
  list format and its inverse `ParseList`.
- `job.dfy`: the whole job in two phases. Phase one maps every line (`MapAll`).
  Phase two groups the pairs by key (`ValuesFor`) and reduces each group
  (`Output`). This stands in for Hadoop's shuffle.

Two details of the code that the model keeps:

- When the skip file cannot be read, the words added before the
  `IOException` stay in the set (Anagram.java:55-67).
- The skip check runs before the digit check (Anagram.java:75-80). Both
  only discard the token, so the order does not change the output.

`Job` maps every line with one skip set. That assumes every mapper task's
read of the skip file has the same outcome (see "## Left out").

## Model

| member | source | states |
|---|---|---|
| `Text.ToLower` | Anagram.java:71 | an upper-case ASCII letter becomes the lower-case letter at the same place in the alphabet; every other character is kept; punctuation stays punctuation and nothing else becomes it |
| `Text.StripPunct` | Anagram.java:71 | `replaceAll("\\p{Punct}", "")` keeps exactly the non-punctuation characters of the line and never lengthens it |
| `Text.Normalize` | Anagram.java:71 | the text handed to the tokenizer holds no punctuation and no upper-case letter; each of its characters is the lowercase form of a character of the line, and the lowercase form of every non-punctuation character of the line is in it |
| `Text.NormalizeIdempotent` | Anagram.java:71 | normalizing an already normalized line changes nothing |
| `Text.NormalizeOfClean` | Anagram.java:71 | a line without punctuation or upper-case letters reaches the tokenizer unchanged |
| `Text.NormalizeAppend` | Anagram.java:71 | normalizing works character by character: the result for a concatenation is the concatenation of the results |
| `Text.NormalizePerm` | Anagram.java:71 | rearranging a line's characters rearranges what survives normalization: equal multisets in, equal multisets out |
| `Text.StripPunctAppend` | Anagram.java:71 | removing punctuation works character by character, so with `StripPunct` it keeps the order and number of the kept characters |
| `Text.IsPunct` | Anagram.java:71 | `\p{Punct}` is exactly the printable ASCII characters other than letters and digits |
| `Text.LowerCase` | Anagram.java:71 | `toLowerCase` keeps the length and turns each position's character into its `ToLower`, so no upper-case letter is left and a string without one is unchanged |
| `Text.Tokens` | Anagram.java:71-74 | every token is non-empty, free of the tokenizer's delimiters, and made of characters of its input |
| `Text.TokensOfJoin` | Anagram.java:71-74 | tokenizing words joined by spaces gives back the words, for non-empty words without delimiters |
| `Text.Split` | Anagram.java:59 | `split(",")` gives fields without commas; a string without a comma gives itself alone; otherwise no trailing empty field is kept |
| `Text.FieldsOfJoin` | Anagram.java:102 | splitting at every separator undoes joining with it, empty fields included |
| `Text.SplitOfJoin` | Anagram.java:102-106 | Java's `split` undoes the reducer's join when no word holds a comma and none is empty |
| `Text.JoinEnds` | Anagram.java:98-104 | a string joined from words starts with the first word and ends with the last (`Text.Join` builds it left to right as the reducer's loop does) |
| `Text.HasDigitSpec` | Anagram.java:78-79 | the intended test `Text.HasDigit` holds exactly when some part of the token matches `\d+` |
| `Text.DigitPatternSpec` | Anagram.java:78 | `Text.DigitPatternMatches` holds exactly when the whole token splits into a part matching `.*`, a part matching `\d+` and a part matching `.*`, where `.` matches no line terminator: what `matches(".*\\d+.*")` computes |
| `Ordering.SortInPlace` | Anagram.java:83 | the in-place sort leaves the array equal to the reference sort of its old contents |
| `Ordering.InsertAt` | Anagram.java:83 | one pass of the in-place sort swaps an element down into the sorted prefix, leaving a longer sorted prefix, the same elements, and every element past the pass untouched |
| `Ordering.SortedUnique` | Anagram.java:111 | two sequences sorted by one total order with the same elements are equal, so any correct sort gives the same result |
| `Ordering.SortIsUnique` | Anagram.java:111 | whatever order a sequence arrives in, its only sorted permutation is the reference sort |
| `Ordering.Elements` | Anagram.java:110 | listing a set, as `new ArrayList(hashSet)` does, yields each element exactly once |
| `Ordering.SortedElementsSpec` | Anagram.java:110-111 | the sorted list of a set is sorted, holds each element of the set exactly once, and is the only such sequence |
| `Ordering.LexLeIsTotalOrder` | Anagram.java:111 | `String.compareTo` order is total, antisymmetric and transitive |
| `Ordering.LexLeSpec` | Anagram.java:111 | `LexLe` is the order `String.compareTo` documents: `a` is a prefix of `b`, or `a` has the smaller character at the first index where they differ |
| `Mapper.SortedKey` | Anagram.java:82-84 | the key is a permutation of the word and is sorted ascending |
| `Mapper.SameKeyIffAnagram` | Anagram.java:82-84 | two words get the same key if and only if they are permutations of each other |
| `Mapper.SortedKeyIdempotent` | Anagram.java:82-84 | a key's own key is itself |
| `Mapper.KeyOfNormalizedPermutation` | Anagram.java:71-84 | any rearrangement of a raw word gets the same key after normalization, and two raw words share a key exactly when they are anagrams once case and punctuation are ignored |
| `Mapper.AnagramKey` | Anagram.java:82-84 | copying the word to a `char[]`, sorting it in place and reading it back gives the sorted key |
| `Mapper.Emit` | Anagram.java:75-86 | a token gives at most one pair, and one exactly when it is no skip word and has no digit; that pair is the token under its own key |
| `Mapper.EmitAsWritten` | Anagram.java:75-86 | as written, the digit test agrees with the intended one on tokens without a line terminator, and it never drops a token the intended test keeps |
| `Mapper.MapLine` | Anagram.java:71-86 | every pair written is a surviving token of the normalized line under its own key, and every surviving token of the line is written |
| `Mapper.MapTokensAppend` | Anagram.java:72-88 | the pairs for consecutive tokens are written in token order, with no interaction between tokens |
| `Mapper.MapTokensPairs` | Anagram.java:75-86 | every pair written is a surviving token under its own key, and no more pairs are written than there are tokens |
| `Mapper.MapTokensCounts` | Anagram.java:72-87 | no deduplication: a surviving word is written exactly as often as it occurs, a discarded one never |
| `Mapper.MapLineWords` | Anagram.java:71-86 | every word written is a non-empty token of the normalized line with no punctuation, upper case, delimiter or digit, is not a skip word, and sits under its own key |
| `Mapper.InertSkipEntry` | Anagram.java:59-61 | a skip field that cannot be a token (empty, or holding a space, punctuation or an upper-case letter, as fields are kept verbatim) never changes what `map` writes |
| `Mapper.DigitPatternMissesDigits` | Anagram.java:78-79 | as written, a token with a digit and a U+0085, U+2028 or U+2029 character is a token of its line and is written although it holds a digit |
| `Mapper.DigitPatternMissesDigitsExample` | Anagram.java:78 | the line "a", U+2028, "1" is such a token |
| `Mapper.SkipFieldsSpec` | Anagram.java:58-62 | a word is a skip word exactly when it is a `split(",")` field of some line that was read |
| `Mapper.SkipFields` | Anagram.java:58-62 | no skip word contains a comma |
| `Mapper.AnagramMapper.constructor` | Anagram.java:34 | a new mapper has no skip words and has logged nothing |
| `Mapper.AnagramMapper.Setup` | Anagram.java:48-51 | the skip file is parsed only when skip patterns are enabled; otherwise nothing changes |
| `Mapper.AnagramMapper.ParseSkipFile` | Anagram.java:54-68 | every field of every line read is added to the skip words; a read failure adds one error line and keeps everything added before it |
| `Mapper.AnagramMapper.Map` | Anagram.java:70-89 | the loop over the tokenizer writes exactly the pairs `MapLine` specifies for the current skip words |
| `Reducer.Format` | Anagram.java:114 | `List.toString()` is bracketed |
| `Reducer.DistinctWords` | Anagram.java:98-106 | no counted word contains a comma, and a batch of one comma-free word gives that word alone, even the empty word |
| `Reducer.FormatRoundTrip` | Anagram.java:114 | reading the formatted list back gives the list, for non-empty words without commas |
| `Reducer.Reduced` | Anagram.java:106-116 | nothing is written for at most one distinct word; otherwise the list has every distinct word exactly once, strictly ascending, and at least two of them |
| `Reducer.DistinctWordsRoundTrip` | Anagram.java:98-106 | the join with ',' and the split give back exactly the batch's words when none holds a comma or is empty |
| `Reducer.ReducedOrderIndependent` | Anagram.java:98-111 | the output does not depend on the order or multiplicity in which a batch arrives |
| `Reducer.Reduce` | Anagram.java:95-118 | the join loop, split, `HashSet`, copy to a list, in-place sort and size test write exactly the record `Reduced` gives: the formatted sorted words, or nothing |
| `Job.MapAllPairs` | Anagram.java:70-89 | every pair of the map phase, over all lines, is a clean word under its own key |
| `Job.ValuesFor` | Anagram.java:95 | the batch for a key holds exactly the words written under that key, each as many times as it was written |
| `Job.GroupWords` | Anagram.java:98-106 | the reducer's distinct words for a key are exactly the words the map phase wrote under it |
| `Job.OutputSpec` | Anagram.java:95-118 | for every key: it is reported exactly when two different words were written under it; its list is exactly those words, strictly ascending, each clean (no digit, no skip word) and with that key |
| `Job.AnagramsReportedTogether` | Anagram.java:82-85 | any two different written words that are anagrams are reported together under their shared key |
| `Job.ReportedWordsAreAnagrams` | Anagram.java:82-85 | the words of a reported list are permutations of each other and of the key |

## Findings

| source | as written | input that shows it | evidently intended | confidence | as-written member | corrected member |
|---|---|---|---|---|---|---|
| Anagram.java:78 | `word.matches(".*\\d+.*")` must match the whole token, and `.` does not match the line terminators U+0085, U+2028 and U+2029. The tokenizer does not split at those characters, so a token holding one of them and a digit passes the test and is written | the line "a", U+2028, "1" is written as one word, with a digit in it | every token containing a decimal digit is discarded ("makes sure you dont include numbers") | medium: follows from the documented semantics of `java.util.regex`; not executed | `Mapper.DigitPatternMissesDigits` | `Mapper.MapLine` |

The model's `map` uses the intended test, `Text.HasDigit`. `Text.DigitPatternMatches` and `Mapper.EmitAsWritten` keep the test as written.

## Left out

- `main` and the job configuration (Anagram.java:121-147): command-line handling and Hadoop job wiring.
- The Hadoop `Context`, the `FileSplit` lookup and the `input` field (Anagram.java:41-45, 32). `context.write` is modelled as the pairs `Map` returns and the record `Reduce` returns.
- The `getCacheFiles` lookup of the skip file (Anagram.java:49-50) and the opening and reading of the file (Anagram.java:56-58). The file is given as the lines read before the end of the file or before a read error (`Mapper.SkipFile`). A missing cache file, which would make `localPaths[0]` throw, is not modelled.
- `System.err` is modelled as a sequence of lines in the mapper (`errors`).
- The `caseSensitive` field (Anagram.java:33, 47): it is read from the configuration but never used.
- The static `anagrams` collection (Anagram.java:27): it is never used.
- The shuffle between map and reduce tasks, and the split of the input into partitions. `Job` maps all lines with one skip set and groups the pairs in memory.
- `Job.OutputSpec`: each mapper task runs `setup` and `parseSkipFile` on its own (Anagram.java:36-68). A task whose read of the skip file throws keeps fewer skip words, so its partition can write words that other partitions drop. `Job` assumes every task's read has the same outcome. Its "no reported word is a skip word" holds only under that assumption.
- The serialized output line, key and value separated by a tab, is written by Hadoop's output format and is not part of this model.
- An empty batch for `reduce`: `anagram.split` would throw on `null`. Hadoop never calls `reduce` without values, so `Reduce` requires at least one.
- Unicode: `toLowerCase` is modelled on ASCII letters only. The model ignores the default locale and characters whose lowercase form differs in length. `\p{Punct}` and `\d` are ASCII, as in Java without the Unicode flag.
- Characters are Dafny `char` values (Unicode scalar values), not UTF-16 code units. `Arrays.sort` and `String.compareTo` order code units. They differ from the model only for characters outside the Basic Multilingual Plane.
- `Ordering.SortInPlace`: it is an insertion sort, not Java's dual-pivot quicksort or merge sort. Only its result is claimed to match, and that result is unique.
- Hash-set iteration order: `Ordering.Elements` picks elements in an arbitrary order. The sort that follows makes the output independent of that order.
