/** `List.sort(String::compareTo)`: the word list re-ordered ascending. */
module Sorting {
  import opened JavaString

  /** Ascending under `compareTo`; equal neighbours allowed. */
  predicate Sorted(ws: seq<string>) {
    forall i, j :: 0 <= i < j < |ws| ==> Le(ws[i], ws[j])
  }

  /** Ascending under `compareTo` with no word twice. */
  predicate StrictlySorted(ws: seq<string>) {
    forall i, j :: 0 <= i < j < |ws| ==> CompareTo(ws[i], ws[j]) < 0
  }

  /** Places `x` in front of the first element it does not exceed. */
  function Insert(x: string, ws: seq<string>): (r: seq<string>)
    requires Sorted(ws)
    ensures Sorted(r)
    ensures multiset(r) == multiset(ws) + multiset{x}
  {
    if |ws| == 0 then [x]
    else if Le(x, ws[0]) then
      InsertInFrontSorted(x, ws);
      [x] + ws
    else
      var rest := Insert(x, ws[1..]);
      assert ws == [ws[0]] + ws[1..];
      InsertBehindSorted(x, ws, rest);
      [ws[0]] + rest
  }

  lemma InsertInFrontSorted(x: string, ws: seq<string>)
    requires Sorted(ws) && |ws| > 0 && Le(x, ws[0])
    ensures Sorted([x] + ws)
  {
    forall j | 0 <= j < |ws|
      ensures Le(x, ws[j])
    {
      if j > 0 {
        LeTransitive(x, ws[0], ws[j]);
      }
    }
  }

  lemma InsertBehindSorted(x: string, ws: seq<string>, rest: seq<string>)
    requires Sorted(ws) && |ws| > 0 && !Le(x, ws[0])
    requires Sorted(rest) && multiset(rest) == multiset(ws[1..]) + multiset{x}
    ensures Sorted([ws[0]] + rest)
  {
    forall j | 0 <= j < |rest|
      ensures Le(ws[0], rest[j])
    {
      var y := rest[j];
      assert y in multiset(rest);
      if y == x {
        CompareAntisymmetric(x, ws[0]);
      } else {
        assert y in multiset(ws[1..]);
        var k :| 0 <= k < |ws[1..]| && ws[1..][k] == y;
        assert ws[k + 1] == y;
      }
    }
  }

  /** Insertion sort: a sorted permutation of `ws`. By
      `SortedPermutationUnique` it is the only one, so it is also the list
      Java's stable merge sort produces. */
  function SortWords(ws: seq<string>): (r: seq<string>)
    ensures Sorted(r)
    ensures multiset(r) == multiset(ws)
  {
    if |ws| == 0 then []
    else
      assert ws == [ws[0]] + ws[1..];
      Insert(ws[0], SortWords(ws[1..]))
  }

  /** Two sorted arrangements of the same words are the same list: the
      order `compareTo` induces is total and only identical strings
      compare equal. */
  lemma {:induction false} SortedPermutationUnique(a: seq<string>, b: seq<string>)
    requires Sorted(a) && Sorted(b)
    requires multiset(a) == multiset(b)
    ensures a == b
  {
    if |a| == 0 {
      assert |multiset(b)| == 0;
    } else {
      assert |b| == |multiset(b)| == |multiset(a)| == |a|;
      SortedHeadsAgree(a, b);
      var ta, tb := a[1..], b[1..];
      DropHead(a);
      DropHead(b);
      SortedPermutationUnique(ta, tb);
    }
  }

  /** A sorted list starts with its least word, so two sorted arrangements
      of the same words start alike. */
  lemma SortedHeadsAgree(a: seq<string>, b: seq<string>)
    requires Sorted(a) && Sorted(b) && |a| > 0 && |b| > 0
    requires multiset(a) == multiset(b)
    ensures a[0] == b[0]
  {
    assert a[0] in multiset(b) && b[0] in multiset(a);
    var i :| 0 <= i < |b| && b[i] == a[0];
    var j :| 0 <= j < |a| && a[j] == b[0];
    assert Le(b[0], a[0]) && Le(a[0], b[0]);
    CompareAntisymmetric(a[0], b[0]);
  }

  /** Dropping the first word keeps the rest sorted and removes one copy
      of that word. */
  lemma DropHead(a: seq<string>)
    requires Sorted(a) && |a| > 0
    ensures Sorted(a[1..])
    ensures multiset(a[1..]) == multiset(a) - multiset{a[0]}
    ensures a == [a[0]] + a[1..]
  {
    assert a == [a[0]] + a[1..];
  }

  /** Sorting an already sorted list changes nothing. */
  lemma {:induction false} SortOfSortedIsIdentity(ws: seq<string>)
    requires Sorted(ws)
    ensures SortWords(ws) == ws
  {
    SortedPermutationUnique(SortWords(ws), ws);
  }

  /** A word below every element of a strict list extends it strictly. */
  lemma StrictCons(x: string, ws: seq<string>)
    requires StrictlySorted(ws)
    requires forall j :: 0 <= j < |ws| ==> CompareTo(x, ws[j]) < 0
    ensures StrictlySorted([x] + ws)
  {
    forall i, j | 0 <= i < j < |[x] + ws|
      ensures CompareTo(([x] + ws)[i], ([x] + ws)[j]) < 0
    {
      if i > 0 {
        assert ([x] + ws)[i] == ws[i - 1];
      }
    }
  }

  /** Inserting a word not yet present keeps a duplicate-free list strict. */
  lemma {:induction false} InsertKeepsStrict(x: string, ws: seq<string>)
    requires StrictlySorted(ws) && x !in ws
    ensures StrictlySorted(Insert(x, ws))
  {
    if |ws| > 0 {
      if Le(x, ws[0]) {
        InsertInFrontStrict(x, ws);
      } else {
        InsertKeepsStrict(x, ws[1..]);
        InsertBehindStrict(x, ws, Insert(x, ws[1..]));
      }
    }
  }

  lemma InsertInFrontStrict(x: string, ws: seq<string>)
    requires StrictlySorted(ws) && x !in ws && |ws| > 0 && Le(x, ws[0])
    ensures StrictlySorted([x] + ws)
  {
    assert x != ws[0];
    forall j | 0 <= j < |ws|
      ensures CompareTo(x, ws[j]) < 0
    {
      if j > 0 {
        LeLtTransitive(x, ws[0], ws[j]);
      }
    }
    StrictCons(x, ws);
  }

  lemma InsertBehindStrict(x: string, ws: seq<string>, rest: seq<string>)
    requires StrictlySorted(ws) && |ws| > 0 && !Le(x, ws[0])
    requires StrictlySorted(rest) && multiset(rest) == multiset(ws[1..]) + multiset{x}
    ensures StrictlySorted([ws[0]] + rest)
  {
    forall j | 0 <= j < |rest|
      ensures CompareTo(ws[0], rest[j]) < 0
    {
      var y := rest[j];
      assert y in multiset(rest);
      if y == x {
        CompareAntisymmetric(x, ws[0]);
      } else {
        assert y in multiset(ws[1..]);
        var k :| 0 <= k < |ws[1..]| && ws[1..][k] == y;
        assert ws[k + 1] == y;
      }
    }
    StrictCons(ws[0], rest);
  }
}
