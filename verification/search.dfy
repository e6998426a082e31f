/** The two nearest-word searches of `Server`: the linear scan by character
    value (`findWordWithClosestCharacterValue`) and the path-limited binary
    search by `compareTo` distance (`findClosestLexicalWord`). */
module Search {
  import opened Options
  import opened JavaString
  import opened Sorting
  import opened CharacterValue

  function Abs(x: int): nat {
    if x < 0 then -x else x
  }

  /** The two notions of closeness the server reports. */
  datatype Metric = ByValue | Lexical

  /** How far `w` is from the target `t` under a metric: the gap between
      character values, or the magnitude of `compareTo`. */
  function Distance(m: Metric, w: string, t: string): nat {
    match m
    case ByValue => Abs(Score(w) - Score(t))
    case Lexical => Abs(CompareTo(w, t))
  }

  /** The distance of the candidate at position `k`. */
  function DistanceAt(m: Metric, t: string, cands: seq<string>, k: int): nat
    requires 0 <= k < |cands|
  {
    Distance(m, cands[k], t)
  }

  /** Position `i` holds what a scan of `cands` in order ends with when it
      replaces its answer only on a strictly smaller distance: a candidate
      at minimum distance, strictly closer than every candidate before it. */
  ghost predicate FirstClosestAt(m: Metric, t: string, cands: seq<string>, i: int) {
    && 0 <= i < |cands|
    && (forall k :: 0 <= k < |cands| ==> DistanceAt(m, t, cands, i) <= DistanceAt(m, t, cands, k))
    && (forall k :: 0 <= k < i ==> DistanceAt(m, t, cands, i) < DistanceAt(m, t, cands, k))
  }

  /** `w` is the word at the first closest position. */
  ghost predicate FirstClosest(m: Metric, t: string, cands: seq<string>, w: string) {
    exists i :: FirstClosestAt(m, t, cands, i) && cands[i] == w
  }

  /** The tie-break makes the answer unique: only one position is first
      closest, so only one word is. */
  lemma FirstClosestUnique(m: Metric, t: string, cands: seq<string>, a: string, b: string)
    requires FirstClosest(m, t, cands, a) && FirstClosest(m, t, cands, b)
    ensures a == b
  {
    var i :| FirstClosestAt(m, t, cands, i) && cands[i] == a;
    var j :| FirstClosestAt(m, t, cands, j) && cands[j] == b;
    FirstClosestNotAfter(m, t, cands, i, j);
    FirstClosestNotAfter(m, t, cands, j, i);
  }

  /** No candidate at most as far as the first closest one comes before it. */
  lemma FirstClosestNotAfter(m: Metric, t: string, cands: seq<string>, i: int, j: int)
    requires FirstClosestAt(m, t, cands, i) && 0 <= j < |cands|
    requires DistanceAt(m, t, cands, j) <= DistanceAt(m, t, cands, i)
    ensures i <= j
  {
  }

  /** A single candidate is the answer. */
  lemma FirstClosestSingle(m: Metric, t: string, y: string)
    ensures FirstClosestAt(m, t, [y], 0)
  {
    assert DistanceAt(m, t, [y], 0) == Distance(m, y, t);
  }

  /** One more step of the scan: a strictly closer candidate takes over,
      anything else leaves the answer where it was. */
  lemma FirstClosestExtend(m: Metric, t: string, cands: seq<string>, i: int, y: string)
    requires FirstClosestAt(m, t, cands, i)
    ensures Distance(m, y, t) < Distance(m, cands[i], t) ==> FirstClosestAt(m, t, cands + [y], |cands|)
    ensures Distance(m, y, t) >= Distance(m, cands[i], t) ==> FirstClosestAt(m, t, cands + [y], i)
  {
    var c := cands + [y];
    forall k | 0 <= k < |cands|
      ensures DistanceAt(m, t, c, k) == DistanceAt(m, t, cands, k)
    {
      assert c[k] == cands[k];
    }
    assert DistanceAt(m, t, c, |cands|) == Distance(m, y, t);
  }

  /** The words of `ws` other than `t`, in list order: the candidates the
      value search may return. */
  function Without(ws: seq<string>, t: string): (r: seq<string>)
    ensures forall x :: x in r <==> x in ws && x != t
  {
    if |ws| == 0 then []
    else
      var last := ws[|ws| - 1];
      assert ws == ws[..|ws| - 1] + [last];
      Without(ws[..|ws| - 1], t) + (if last == t then [] else [last])
  }

  /** `findWordWithClosestCharacterValue`: scans the list in order, skipping
      words equal to the target, and keeps the first word whose value is
      strictly closer than the best so far. `None` stands for `null`; the
      unset best distance stands for the `Integer.MAX_VALUE` sentinel. */
  method FindWordWithClosestCharacterValue(words: seq<string>, t: string) returns (r: Option<string>)
    ensures r.None? <==> forall k :: 0 <= k < |words| ==> words[k] == t
    ensures r.Some? ==> r.value in words && r.value != t
    ensures r.Some? ==> FirstClosest(ByValue, t, Without(words, t), r.value)
  {
    var targetValue := Score(t);
    var minDifference: Option<nat> := None;
    var closest: Option<string> := None;
    ghost var cands: seq<string> := [];
    ghost var best := 0;
    var i := 0;
    while i < |words|
      invariant 0 <= i <= |words|
      invariant cands == Without(words[..i], t)
      invariant minDifference.None? <==> closest.None?
      invariant closest.None? <==> |cands| == 0
      invariant closest.Some? ==> FirstClosestAt(ByValue, t, cands, best) && closest.value == cands[best]
      invariant closest.Some? ==> minDifference.value == Distance(ByValue, closest.value, t)
    {
      var word := words[i];
      WithoutStep(words, t, i);
      if word != t {
        var difference := Abs(Score(word) - targetValue);
        if closest.Some? {
          FirstClosestExtend(ByValue, t, cands, best, word);
        } else {
          FirstClosestSingle(ByValue, t, word);
        }
        if minDifference.None? || difference < minDifference.value {
          minDifference := Some(difference);
          closest := Some(word);
          best := |cands|;
        }
        cands := cands + [word];
      }
      i := i + 1;
    }
    assert words[..i] == words;
    if closest.None? {
      forall k | 0 <= k < |words|
        ensures words[k] == t
      {
        assert words[k] in words;
      }
    } else {
      assert closest.value in cands;
    }
    r := closest;
  }

  /** The candidate list grows by the next word unless it is the target. */
  lemma WithoutStep(words: seq<string>, t: string, i: int)
    requires 0 <= i < |words|
    ensures Without(words[..i + 1], t) == Without(words[..i], t) + (if words[i] == t then [] else [words[i]])
  {
    assert words[..i + 1][..i] == words[..i];
  }

  /** The midpoint probed on the index interval `[lo, hi]`; `lo + hi` is
      non-negative, so Java's truncating division agrees with Dafny's. */
  function Mid(lo: int, hi: int): int {
    (lo + hi) / 2
  }

  /** The interval left after probing a midpoint that is not an exact
      match, given the sign `d` of `compareTo(midWord, target)`: the right
      half when the midpoint sorts before the target, the left half
      otherwise. It is strictly smaller. */
  function Narrow(lo: int, hi: int, d: int): (r: (int, int))
    requires lo <= hi
    ensures lo <= r.0 <= r.1 + 1 <= hi + 1
    ensures r.1 - r.0 < hi - lo
  {
    if d < 0 then (Mid(lo, hi) + 1, hi) else (lo, Mid(lo, hi) - 1)
  }

  /** The words the binary search of `findClosestLexicalWord` probes, in
      probe order, on the index interval `[lo, hi]`: the midpoint, then the
      half `Narrow` selects, stopping at an exact match. */
  function SearchPath(ws: seq<string>, t: string, lo: int, hi: int): (r: seq<string>)
    requires 0 <= lo <= hi + 1 <= |ws|
    ensures |r| == 0 <==> lo > hi
    ensures |r| > 0 ==> t !in r[..|r| - 1]
    decreases hi + 1 - lo
  {
    if lo > hi then []
    else if ws[Mid(lo, hi)] == t then [t]
    else
      var next := Narrow(lo, hi, CompareTo(ws[Mid(lo, hi)], t));
      [ws[Mid(lo, hi)]] + SearchPath(ws, t, next.0, next.1)
  }

  /** Every word that sorts before `t` lies before position `j`, and every
      word that sorts after it lies after: `ws[j]` is where a binary search
      for `t` must end. */
  ghost predicate Brackets(ws: seq<string>, t: string, j: int) {
    forall k :: 0 <= k < |ws| ==>
      && (CompareTo(ws[k], t) < 0 ==> k < j)
      && (CompareTo(ws[k], t) > 0 ==> j < k)
  }

  /** In a sorted list, any position holding `t` brackets it. */
  lemma SortedBrackets(ws: seq<string>, t: string, j: int)
    requires Sorted(ws) && 0 <= j < |ws| && ws[j] == t
    ensures Brackets(ws, t, j)
  {
    forall k | 0 <= k < |ws|
      ensures CompareTo(ws[k], t) < 0 ==> k < j
      ensures CompareTo(ws[k], t) > 0 ==> j < k
    {
      CompareAntisymmetric(ws[k], t);
      if j < k {
        assert Le(ws[j], ws[k]);
      } else if k < j {
        assert Le(ws[k], ws[j]);
      }
    }
  }

  /** The path reaches the target whenever the interval holds a position
      that brackets it, as in any binary search. */
  lemma {:induction false} SearchPathFindsTarget(ws: seq<string>, t: string, lo: int, hi: int, j: int)
    requires Brackets(ws, t, j)
    requires 0 <= lo <= j <= hi < |ws| && ws[j] == t
    ensures t in SearchPath(ws, t, lo, hi)
    decreases hi + 1 - lo
  {
    var mid := Mid(lo, hi);
    var d := CompareTo(ws[mid], t);
    if d != 0 {
      var next := Narrow(lo, hi, d);
      assert lo <= next.0 <= j <= next.1;
      SearchPathFindsTarget(ws, t, next.0, next.1, j);
      InTail(ws[mid], SearchPath(ws, t, next.0, next.1), t);
      assert SearchPath(ws, t, lo, hi) == [ws[mid]] + SearchPath(ws, t, next.0, next.1);
    } else {
      assert SearchPath(ws, t, lo, hi) == [t];
    }
  }

  /** A word of the tail is a word of the list. */
  lemma InTail(x: string, rest: seq<string>, t: string)
    requires t in rest
    ensures t in [x] + rest
  {
    var k :| 0 <= k < |rest| && rest[k] == t;
    assert ([x] + rest)[k + 1] == t;
  }

  /** On a sorted list holding the target, the path reaches it. */
  lemma SortedSearchReachesTarget(words: seq<string>, t: string)
    requires Sorted(words) && t in words
    ensures t in SearchPath(words, t, 0, |words| - 1)
  {
    var j :| 0 <= j < |words| && words[j] == t;
    SortedBrackets(words, t, j);
    SearchPathFindsTarget(words, t, 0, |words| - 1, j);
  }

  /** When the target is among the candidates, it is the first closest
      under the lexical metric: nothing is nearer than distance zero. */
  lemma TargetIsFirstClosest(cands: seq<string>, t: string, best: int)
    requires t in cands
    requires FirstClosestAt(Lexical, t, cands, best)
    ensures cands[best] == t
  {
    var j :| 0 <= j < |cands| && cands[j] == t;
    assert DistanceAt(Lexical, t, cands, best) <= DistanceAt(Lexical, t, cands, j) == 0;
  }

  /** On a sorted list holding the target, the first closest word on the
      search path is the target itself: the search finds an exact match. */
  lemma SortedListAnswersTarget(words: seq<string>, t: string, w: string)
    requires Sorted(words) && t in words
    requires FirstClosest(Lexical, t, SearchPath(words, t, 0, |words| - 1), w)
    ensures w == t
  {
    var path := SearchPath(words, t, 0, |words| - 1);
    SortedSearchReachesTarget(words, t);
    var i :| FirstClosestAt(Lexical, t, path, i) && path[i] == w;
    TargetIsFirstClosest(path, t, i);
  }

  /** An exact match ending a path of non-matches is the first closest. */
  lemma ExactMatchIsFirstClosest(t: string, probed: seq<string>, w: string)
    requires t !in probed
    requires CompareTo(w, t) == 0
    ensures FirstClosestAt(Lexical, t, probed + [w], |probed|)
  {
    var c := probed + [w];
    forall k | 0 <= k < |probed|
      ensures DistanceAt(Lexical, t, c, k) > 0
    {
      assert c[k] == probed[k] && c[k] in probed;
    }
    assert DistanceAt(Lexical, t, c, |probed|) == 0;
  }

  /** Moving the first element of `b` to the end of `a` keeps `a + b`. */
  lemma ShiftFirst(a: seq<string>, b: seq<string>)
    requires |b| > 0
    ensures a + b == (a + [b[0]]) + b[1..]
  {
    assert b == [b[0]] + b[1..];
  }

  /** `findClosestLexicalWord`: a binary search for the target that returns
      the exact match when it meets one and otherwise the probed midpoint
      with the smallest `|compareTo|`, the earliest probe winning ties. The
      list need not be sorted: the search runs on whatever order it has. */
  method FindClosestLexicalWord(words: seq<string>, t: string) returns (r: Option<string>)
    ensures r.None? <==> |words| == 0
    ensures r.Some? ==> r.value in words
    ensures r.Some? ==> FirstClosest(Lexical, t, SearchPath(words, t, 0, |words| - 1), r.value)
  {
    var left := 0;
    var right := |words| - 1;
    var minDistance: Option<nat> := None;
    var closestWord: Option<string> := None;
    ghost var path := SearchPath(words, t, 0, |words| - 1);
    ghost var remaining := path;
    ghost var probed: seq<string> := [];
    ghost var best := 0;
    while left <= right
      invariant 0 <= left <= right + 1 <= |words|
      invariant remaining == SearchPath(words, t, left, right)
      invariant path == probed + remaining
      invariant t !in probed
      invariant closestWord.None? <==> |probed| == 0
      invariant minDistance.None? <==> closestWord.None?
      invariant closestWord.Some? ==> closestWord.value in words
      invariant closestWord.Some? ==> FirstClosestAt(Lexical, t, probed, best) && closestWord.value == probed[best]
      invariant closestWord.Some? ==> minDistance.value == Distance(Lexical, closestWord.value, t)
      decreases right + 1 - left
    {
      var mid := Mid(left, right);
      var currentWord := words[mid];
      var distance := CompareTo(currentWord, t);
      if distance == 0 {
        ExactMatchIsFirstClosest(t, probed, currentWord);
        closestWord := Some(currentWord);
        best := |probed|;
        probed := probed + [currentWord];
        remaining := [];
        break;
      }
      ghost var next := Narrow(left, right, distance);
      assert remaining == [currentWord] + SearchPath(words, t, next.0, next.1);
      if distance < 0 {
        left := mid + 1;
      } else {
        right := mid - 1;
      }
      assert left == next.0 && right == next.1;
      if closestWord.Some? {
        FirstClosestExtend(Lexical, t, probed, best, currentWord);
      } else {
        FirstClosestSingle(Lexical, t, currentWord);
      }
      if minDistance.None? || Abs(distance) < minDistance.value {
        minDistance := Some(Abs(distance));
        closestWord := Some(currentWord);
        best := |probed|;
      }
      ShiftFirst(probed, remaining);
      probed := probed + [currentWord];
      remaining := remaining[1..];
    }
    assert probed == path;
    r := closestWord;
  }

  /** The tie-break on values: "ab" and "dc" are both two away from the
      score of "e", and the earlier word is the answer. */
  lemma ValueTieGoesToEarlierWord()
    ensures Without(["ab", "dc"], "e") == ["ab", "dc"]
    ensures Distance(ByValue, "ab", "e") == Distance(ByValue, "dc", "e") == 2
    ensures FirstClosest(ByValue, "e", ["ab", "dc"], "ab")
  {
    ScoreExamples();
    assert ["ab", "dc"][..1] == ["ab"];
    assert FirstClosestAt(ByValue, "e", ["ab", "dc"], 0);
  }

  /** The lexical search looks only at its path: for target "bm" in
      ["bz", "c"] it probes "bz" alone and answers it, although "c" is
      closer by `compareTo` distance. */
  lemma LexicalSearchIsPathLimited()
    ensures SearchPath(["bz", "c"], "bm", 0, 1) == ["bz"]
    ensures FirstClosest(Lexical, "bm", ["bz"], "bz")
    ensures Distance(Lexical, "c", "bm") < Distance(Lexical, "bz", "bm")
  {
    CompareAtFirstDifference("bz", "bm", 1);
    CompareAtFirstDifference("c", "bm", 0);
    assert FirstClosestAt(Lexical, "bm", ["bz"], 0);
  }
}
