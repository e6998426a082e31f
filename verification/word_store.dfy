/** The two-part word repository of `Server`: the list `words` that the
    searches scan, and the set `uniqueWords` that guards insertion. */
module WordStore {
  import opened JavaString
  import opened Sorting

  /** `words` keeps list order; `uniqueWords` is the membership guard. */
  datatype Store = Store(words: seq<string>, uniqueWords: set<string>)

  /** The store after start-up: the lines of the word file in file order,
      neither sorted nor recorded in `uniqueWords`. */
  function Loaded(lines: seq<string>): (r: Store)
    ensures r.words == lines
    ensures forall u :: u !in r.uniqueWords
    ensures Consistent(r)
  {
    Store(lines, {})
  }

  /** Every guarded word is in the list. Holds after loading and after
      every `AddWord`. */
  predicate Consistent(s: Store) {
    forall u :: u in s.uniqueWords ==> u in s.words
  }

  /** The shape the `uniqueWords` guard keeps when the list starts empty: a
      strictly ascending list whose words are exactly the guarded ones. */
  ghost predicate Tidy(s: Store) {
    && StrictlySorted(s.words)
    && (forall u :: u in s.words <==> u in s.uniqueWords)
  }

  /** `addWord`: append the word when the guard set did not yet hold it,
      then sort the whole list. */
  function AddWord(s: Store, w: string): (r: Store)
    ensures r.uniqueWords == s.uniqueWords + {w}
    ensures w !in s.uniqueWords ==> multiset(r.words) == multiset(s.words) + multiset{w}
    ensures w in s.uniqueWords ==> multiset(r.words) == multiset(s.words)
    ensures Sorted(r.words)
    ensures Consistent(s) ==> Consistent(r) && w in r.words
  {
    var appended := if w in s.uniqueWords then s.words else s.words + [w];
    var r := Store(SortWords(appended), s.uniqueWords + {w});
    assert forall u :: u in r.words <==> u in multiset(appended);
    r
  }

  /** Adding the same word twice leaves the store as adding it once. */
  lemma AddWordIdempotent(s: Store, w: string)
    ensures AddWord(AddWord(s, w), w) == AddWord(s, w)
  {
    SortOfSortedIsIdentity(AddWord(s, w).words);
  }

  /** Adding a word that is already guarded, to a sorted store, changes
      nothing: it is neither re-inserted nor moved. */
  lemma AddKnownWordIsNoOp(s: Store, w: string)
    requires w in s.uniqueWords && Sorted(s.words)
    ensures AddWord(s, w) == s
  {
    SortOfSortedIsIdentity(s.words);
  }

  /** From a tidy store, `addWord` yields a tidy store. */
  lemma AddWordPreservesTidy(s: Store, w: string)
    requires Tidy(s)
    ensures Tidy(AddWord(s, w))
  {
    var r := AddWord(s, w);
    AddWordKeepsStrict(s, w);
    forall u
      ensures u in r.words <==> u in r.uniqueWords
    {
      assert u in r.words <==> u in multiset(r.words);
      assert u in s.words <==> u in multiset(s.words);
    }
  }

  lemma AddWordKeepsStrict(s: Store, w: string)
    requires StrictlySorted(s.words)
    requires w !in s.uniqueWords ==> w !in s.words
    ensures StrictlySorted(AddWord(s, w).words)
  {
    var r := AddWord(s, w);
    if w !in s.uniqueWords {
      var inserted := Insert(w, s.words);
      InsertKeepsStrict(w, s.words);
      SortedPermutationUnique(r.words, inserted);
    } else {
      SortOfSortedIsIdentity(s.words);
    }
  }

  /** The store after a run of requests, each adding its text. */
  function AddAll(s: Store, texts: seq<string>): Store
    decreases |texts|
  {
    if |texts| == 0 then s else AddAll(AddWord(s, texts[0]), texts[1..])
  }

  /** A store that starts tidy (in particular an empty word file) stays
      tidy: ascending without duplicates, list and guard set agreeing. */
  lemma {:induction false} AddAllPreservesTidy(s: Store, texts: seq<string>)
    requires Tidy(s)
    ensures Tidy(AddAll(s, texts))
    decreases |texts|
  {
    if |texts| > 0 {
      AddWordPreservesTidy(s, texts[0]);
      AddAllPreservesTidy(AddWord(s, texts[0]), texts[1..]);
    }
  }

  /** A store loaded from the word file has that shape only when the file
      was empty: any loaded line is in the list but not guarded. */
  lemma LoadedTidyOnlyWhenEmpty(lines: seq<string>)
    ensures Tidy(Loaded(lines)) <==> |lines| == 0
  {
    if |lines| > 0 {
      assert lines[0] in Loaded(lines).words;
    }
  }

  /** With an empty word file, every reachable store is tidy. */
  lemma FreshStoreStaysTidy(texts: seq<string>)
    ensures Tidy(AddAll(Loaded([]), texts))
  {
    AddAllPreservesTidy(Loaded([]), texts);
  }

  /** Only words added after start-up are guarded: a word read from the file
      and then sent again is appended a second time, so the list is sorted
      but not duplicate-free. */
  lemma LoadedWordIsAddedAgain()
    ensures AddWord(Loaded(["cat"]), "cat").words == ["cat", "cat"]
    ensures !StrictlySorted(AddWord(Loaded(["cat"]), "cat").words)
  {
    var ws := AddWord(Loaded(["cat"]), "cat").words;
    SortedPermutationUnique(ws, ["cat", "cat"]);
    assert CompareTo(ws[0], ws[1]) == 0;
  }
}
