# Word analyzer core, modelled in Dafny

The modelled service keeps an in-memory list of known words. For each
`/analyze` request it returns two previously seen words that are "closest" to
the request text, then records the text as a new word:

- **by value**: the word whose character-value score (letters count 1–26,
  case-insensitively, summed) is nearest to the text's score. The text itself
  is excluded, and ties go to the earliest word in list order;
- **lexical**: the result of a binary search for the text under
  `String.compareTo`. It returns the exact match if the search meets one, and
  otherwise the probed midpoint with the smallest `|compareTo|`.

The repository has two parts, as in the code. `words` is the list the
searches scan. `uniqueWords` is the set that guards `addWord`. The word file
fills `words` only, so the set holds only words added since start-up.

Modules, one per concern of `Server.java`:

| file | module | models |
|---|---|---|
| `java_string.dfy` | `JavaString` | `String.compareTo` on `seq<char>` and the ordering laws it obeys |
| `sorting.dfy` | `Sorting` | `List.sort(String::compareTo)` as a sorted permutation |
| `character_value.dfy` | `CharacterValue` | `calculateCharacterValue` |
| `word_store.dfy` | `WordStore` | the two-part state, the start-up state, `addWord` |
| `search.dfy` | `Search` | `findWordWithClosestCharacterValue`, `findClosestLexicalWord` |
| `server.dfy` | `Server` | `handleAnalyzeRequest` without the HTTP framing |
| `options.dfy` | `Options` | `Option` for Java `null`, `Result` for the rejected request |

Both searches are methods whose loops follow the Java loops. Each states its
result declaratively with `Search.FirstClosestAt`: a candidate at minimum
distance that is strictly closer than every candidate before it. That is the
answer of a scan that replaces its best only on a strict `<`.
`Search.FirstClosestUnique` shows that this determines the answer. For the
lexical search, the candidates are `Search.SearchPath`: the words at the
midpoints the binary search visits, in order. On a sorted list that holds
the text, the answer is the text itself (`Search.SortedListAnswersTarget`).

### Behaviour of the code that a reader might not expect

- Words read from the file are never put in `uniqueWords`. So sending a word
  that is already in the file appends it a second time
  (`WordStore.LoadedWordIsAddedAgain`). After `addWord` the list is sorted
  but only non-strictly. Strictly ascending and duplicate-free holds for
  stores that start from an empty file (`WordStore.FreshStoreStaysTidy`).
  It also holds for any store that starts in that shape
  (`WordStore.AddAllPreservesTidy`).
- The file contents are not sorted at start-up. Until the first `addWord`,
  both searches run on file order. The binary search assumes nothing and
  still answers a probed word.
- `addWord` re-sorts even when the word is already guarded. That is a no-op
  only when the list is already sorted (`WordStore.AddKnownWordIsNoOp`).
- A non-letter character contributes its code minus 96. This can be zero or
  negative, e.g. a space contributes -64.
- The lexical answer can be strictly worse than a word off the search path
  (`Search.LexicalSearchIsPathLimited`).

## Model

| member | source | states |
|---|---|---|
| `JavaString.CompareTo` | src/main/java/Server.java:112 | comparison is zero exactly when the two strings are identical |
| `JavaString.CompareAtFirstDifference` | src/main/java/Server.java:112 | at the first differing index the result is the difference of the two characters' codes |
| `JavaString.CompareOfPrefix` | src/main/java/Server.java:112 | when one string is a prefix of the other, the result is the length difference |
| `JavaString.CompareAntisymmetric` | src/main/java/Server.java:68 | swapping the arguments negates the result |
| `JavaString.LeTransitive` | src/main/java/Server.java:68 | the order the sort uses is transitive |
| `JavaString.LeTotal` | src/main/java/Server.java:68 | any two words are ordered one way or the other |
| `Sorting.SortWords` | src/main/java/Server.java:68 | the sorted list is ascending and a permutation of its input |
| `Sorting.SortedPermutationUnique` | src/main/java/Server.java:68 | two ascending permutations of the same words are equal, so any correct sort gives the same list |
| `Sorting.SortOfSortedIsIdentity` | src/main/java/Server.java:68 | sorting an already sorted list changes nothing |
| `Sorting.InsertKeepsStrict` | src/main/java/Server.java:65-68 | inserting a word that is absent into a strictly ascending list keeps it strictly ascending |
| `CharacterValue.CharValue` | src/main/java/Server.java:97 | a letter contributes its 1-based alphabet position in either case; any other character contributes its code minus 96 |
| `CharacterValue.Score` | src/main/java/Server.java:93-101 | a word made only of letters scores between its length and 26 times its length |
| `CharacterValue.ScoreOfConcat` | src/main/java/Server.java:96-98 | the score of a concatenation is the sum of the scores of its parts |
| `CharacterValue.ScoreIgnoresCase` | src/main/java/Server.java:97 | a word and its lower-case form score the same |
| `CharacterValue.ScoreExamples` | src/main/java/Server.java:93-101 | the empty word scores 0; "abc" scores 6 and "AbC" the same |
| `WordStore.AddWord` | src/main/java/Server.java:64-69 | the guard set gains the word; the list gains one copy of it exactly when it was not guarded and is otherwise the same multiset; the list ends ascending; in a consistent store it then holds the word |
| `WordStore.AddWordIdempotent` | src/main/java/Server.java:64-69 | adding the same word twice gives the same store as adding it once |
| `WordStore.AddKnownWordIsNoOp` | src/main/java/Server.java:65-68 | adding a guarded word to a sorted store leaves it unchanged |
| `WordStore.AddWordPreservesTidy` | src/main/java/Server.java:64-69 | a strictly ascending store whose list and guard set hold the same words keeps that shape after an add |
| `WordStore.AddWordKeepsStrict` | src/main/java/Server.java:64-69 | adding keeps the list strictly ascending when a word that is not guarded is also not in the list |
| `WordStore.AddAllPreservesTidy` | src/main/java/Server.java:58 | any run of requests preserves that shape |
| `WordStore.Loaded` | src/main/java/Server.java:132-140 | the store after start-up holds the file's lines in file order (none when the file is missing and gets created), guards none of them, and is consistent |
| `WordStore.LoadedTidyOnlyWhenEmpty` | src/main/java/Server.java:132-136 | a loaded store is strictly ascending with list and guard set agreeing exactly when the file had no lines, because loaded lines are never guarded |
| `WordStore.FreshStoreStaysTidy` | src/main/java/Server.java:19-20 | starting from an empty word file, every reachable list is strictly ascending without duplicates |
| `WordStore.LoadedWordIsAddedAgain` | src/main/java/Server.java:136 | a word loaded from the file and sent again ends up in the list twice |
| `Search.FirstClosestUnique` | src/main/java/Server.java:84-87 | the strict-less-than tie-break admits only one answer |
| `Search.FirstClosestExtend` | src/main/java/Server.java:84-87 | a strictly closer candidate takes over the answer; a tie or worse leaves it |
| `Search.Without` | src/main/java/Server.java:77-79 | the candidates of the value search are exactly the words other than the target |
| `Search.FindWordWithClosestCharacterValue` | src/main/java/Server.java:71-91 | no match exactly when every word equals the target (including an empty list); otherwise a word of the list, never the target, at minimum value distance, and the earliest such word |
| `Search.Narrow` | src/main/java/Server.java:117-121 | each probe that is not an exact match strictly shrinks the search interval |
| `Search.SearchPath` | src/main/java/Server.java:109-121 | the path is empty exactly on an empty interval, and only its last probe can be an exact match |
| `Search.SortedBrackets` | src/main/java/Server.java:117-121 | in a sorted list, every word that compares below the target lies before any position holding it, and every word above it lies after |
| `Search.SearchPathFindsTarget` | src/main/java/Server.java:109-121 | the path reaches the target whenever the interval holds a position that brackets it, so the halving never discards the target |
| `Search.FindClosestLexicalWord` | src/main/java/Server.java:103-130 | no match exactly when the list is empty; otherwise a word of the list; the probed word with least `abs(compareTo)`, the earliest probe winning ties |
| `Search.SortedListAnswersTarget` | src/main/java/Server.java:109-121 | on a sorted list holding the target, the first closest word on the search path is the target itself |
| `Search.ValueTieGoesToEarlierWord` | src/main/java/Server.java:84 | for list "ab", "dc" and a target scoring 5, both are 2 away and "ab" is the answer |
| `Search.LexicalSearchIsPathLimited` | src/main/java/Server.java:109-126 | for "bm" in ["bz", "c"] only "bz" is probed and returned, though "c" is nearer by compareTo |
| `Server.Analyze` | src/main/java/Server.java:48-62 | a missing text is rejected and leaves the store alone; otherwise both matches meet their search contracts on the store from before the add; the lexical match is the text only if the text was already known; the new store is the store after `addWord` |

## Left out

- Vert.x plumbing is not modelled: the verticle lifecycle, router, body
  handler, listening port, response headers and JSON text building.
  A missing `text` becomes the `InvalidRequestBody` error value. The 400
  response itself is not modelled.
- A `text` field that is present but not a string is handled by the JSON
  library: Vert.x 4's `JsonObject.getString` turns such a value into text with
  `toString()`. The library is not part of this model. `Server.Analyze` takes
  the resulting string, or `None` when the field is missing or JSON `null`.
- The response is built by string concatenation (Server.java:60). A missing
  match is written as the quoted text `"null"`, so a client cannot tell it
  from a stored word `null`. Quotes inside words are not escaped. The model
  returns the `Option` values and does not model the JSON text.
- File load and save are I/O. Loading is modelled as `WordStore.Loaded`: the
  file's lines become `words` with an empty `uniqueWords`. Saving is not
  modelled.
- The concurrent collections are not modelled. Each operation is treated as
  atomic, and requests as sequential.
- `Character.toLowerCase` is modelled for ASCII only. Other upper-case
  characters are not folded.
- Java `int` overflow is not modelled: the score sum, `Math.abs`, `left +
  right` and the `compareTo` length difference use unbounded integers. The
  `Integer.MAX_VALUE` sentinels become an unset `Option`. In Java a
  candidate whose distance equals `Integer.MAX_VALUE` is never chosen,
  because both scans compare with a strict `<` (Server.java:84 and :123).
  For the lexical search, such a distance needs a string of length
  2^31 - 1. The value search reaches it with far shorter words: 32,816
  copies of U+FFFF followed by one U+928F score exactly 2^31 - 1 against the
  empty target. A word of 32,817 copies of U+FFFF already wraps the `int`
  score sum.
- Search.FindWordWithClosestCharacterValue: answers `None` exactly when every
  word equals the target. Java also returns `null` when every other word is
  exactly `Integer.MAX_VALUE` away, and it ranks words by their wrapped
  32-bit scores once a score leaves the `int` range. The model keeps scores
  unbounded, so both cases differ from Java. Both need words tens of
  thousands of characters long.
- `List.sort` is stable TimSort; the model sorts by insertion sort.
  `Sorting.SortedPermutationUnique` shows that both yield the same list.
- Java strings are sequences of UTF-16 code units. The model's strings are
  sequences of Dafny `char`s, which are Unicode scalar values. The two agree
  for text in the Basic Multilingual Plane, that is U+0000 to U+FFFF outside
  the surrogate range. Text outside the Basic Multilingual Plane is not
  modelled, and there the model differs from Java in three ways:
  `JavaString.CompareTo` compares a character above U+FFFF by its scalar
  value, where Java compares its high surrogate (0xD800 to 0xDBFF). So
  U+1F600 against "a" gives 128415 in the model and 55260 in Java. For the
  same reason, such a character sorts after U+E000 to U+FFFF in the model
  and before them in Java. `CharacterValue.Score` adds one contribution for
  such a character, where Java adds one for each of its two surrogates.
