/**
 * The chapter list's order: `chapterResults.sort((a, b) => parseInt(b.orderNumber || "0") -
 * parseInt(a.orderNumber || "0"))`, newest first. The sort is stable, and a comparator result of
 * NaN (an order number `parseInt` cannot read) counts as "equal".
 */
module ChapterOrder {
  import opened Wrappers
  import opened JsString
  import opened JsNumber
  import opened MangaTypes

  /**
   * The number a chapter is sorted by, `parseInt(orderNumber || "0")`; `None` is NaN. An empty
   * order number counts as 0, any other is read as `parseInt` reads it.
   */
  function SortKey(c: ChapterResult): (k: Option<int>)
    ensures c.orderNumber == "" ==> k == Some(0)
    ensures c.orderNumber != "" ==> k == ParseInt(c.orderNumber)
  {
    ParseIntOfNumeral(0, "");
    assert IntToString(0) + "" == "0";
    ParseInt(Or(c.orderNumber, "0"))
  }

  /** The comparator `(a, b) => key(b) - key(a)`; `None` is NaN, which either NaN operand gives. */
  function Comparator<T>(key: T -> Option<int>, a: T, b: T): Option<int>
  {
    match (key(a), key(b))
    case (Some(ka), Some(kb)) => Some(kb - ka)
    case _ => None
  }

  /** `x` must be placed before `y`: its key is the larger one. */
  predicate GoesBefore<T>(key: T -> Option<int>, x: T, y: T)
  {
    key(x).Some? && key(y).Some? && key(x).value > key(y).value
  }

  /**
   * `GoesBefore` is what the comparator decides: `x` goes first exactly when the comparator
   * called as `(x, y)` is negative, never both ways round, and a NaN on either side makes the
   * result NaN, which the sort treats like zero, so neither goes first.
   */
  lemma GoesBeforeComparator<T>(key: T -> Option<int>, x: T, y: T)
    ensures GoesBefore(key, x, y) <==> Comparator(key, x, y).Some? && Comparator(key, x, y).value < 0
    ensures GoesBefore(key, x, y) ==> !GoesBefore(key, y, x)
    ensures key(x).None? || key(y).None? ==>
              Comparator(key, x, y).None? && !GoesBefore(key, x, y) && !GoesBefore(key, y, x)
  {
  }

  /** `x` inserted into `s` from the right: it moves left past every element it must go before. */
  function Insert<T>(key: T -> Option<int>, s: seq<T>, x: T): (r: seq<T>)
    ensures |r| == |s| + 1
    decreases |s|
  {
    if s != [] && GoesBefore(key, x, s[|s| - 1]) then Insert(key, s[..|s| - 1], x) + [s[|s| - 1]]
    else s + [x]
  }

  /** The stable sort by the comparator: each element in turn inserted into the sorted prefix. */
  function SortDesc<T>(key: T -> Option<int>, s: seq<T>): (r: seq<T>)
    ensures |r| == |s|
    decreases |s|
  {
    if s == [] then [] else Insert(key, SortDesc(key, s[..|s| - 1]), s[|s| - 1])
  }

  /** Every chapter has a numeric sort key. */
  predicate AllKeyed<T>(key: T -> Option<int>, s: seq<T>)
  {
    forall i | 0 <= i < |s| :: key(s[i]).Some?
  }

  /** Newest first: the sort keys never increase along the list. */
  predicate Descending<T>(key: T -> Option<int>, s: seq<T>)
    requires AllKeyed(key, s)
  {
    forall i, j | 0 <= i < j < |s| :: key(s[i]).value >= key(s[j]).value
  }

  /** The chapters of `s` whose sort key is `k`, in their order in `s`. */
  function WithKey<T>(key: T -> Option<int>, s: seq<T>, k: Option<int>): seq<T>
    decreases |s|
  {
    if s == [] then []
    else WithKey(key, s[..|s| - 1], k) + (if key(s[|s| - 1]) == k then [s[|s| - 1]] else [])
  }

  lemma {:induction false} WithKeyConcat<T>(key: T -> Option<int>, s: seq<T>, t: seq<T>, k: Option<int>)
    ensures WithKey(key, s + t, k) == WithKey(key, s, k) + WithKey(key, t, k)
    decreases |t|
  {
    if t == [] {
      assert s + t == s;
    } else {
      assert (s + t)[..|s + t| - 1] == s + t[..|t| - 1];
      WithKeyConcat(key, s, t[..|t| - 1], k);
    }
  }

  lemma {:induction false} InsertPermutes<T>(key: T -> Option<int>, s: seq<T>, x: T)
    ensures multiset(Insert(key, s, x)) == multiset(s) + multiset{x}
    decreases |s|
  {
    if s != [] && GoesBefore(key, x, s[|s| - 1]) {
      InsertPermutes(key, s[..|s| - 1], x);
      assert s == s[..|s| - 1] + [s[|s| - 1]];
    }
  }

  /** The sorted list holds exactly the chapters it was given, each as often. */
  lemma {:induction false} SortPermutes<T>(key: T -> Option<int>, s: seq<T>)
    ensures multiset(SortDesc(key, s)) == multiset(s)
    decreases |s|
  {
    if s != [] {
      var init, last := s[..|s| - 1], s[|s| - 1];
      SortPermutes(key, init);
      InsertPermutes(key, SortDesc(key, init), last);
      LastSplit(s);
    }
  }

  lemma LastSplit<T>(s: seq<T>)
    requires s != []
    ensures multiset(s) == multiset(s[..|s| - 1]) + multiset{s[|s| - 1]}
  {
    assert s == s[..|s| - 1] + [s[|s| - 1]];
  }

  /** Inserting keeps a lower bound that the list and the new element both respect. */
  lemma {:induction false} InsertBounded<T>(key: T -> Option<int>, s: seq<T>, x: T, b: int)
    requires AllKeyed(key, s) && key(x).Some?
    requires forall i | 0 <= i < |s| :: key(s[i]).value >= b
    requires key(x).value >= b
    ensures AllKeyed(key, Insert(key, s, x))
    ensures forall i | 0 <= i < |s| + 1 :: key(Insert(key, s, x)[i]).value >= b
    decreases |s|
  {
    if s != [] && GoesBefore(key, x, s[|s| - 1]) {
      var init := s[..|s| - 1];
      InsertBounded(key, init, x, b);
    }
  }

  lemma {:induction false} InsertDescending<T>(key: T -> Option<int>, s: seq<T>, x: T)
    requires AllKeyed(key, s) && key(x).Some? && Descending(key, s)
    ensures AllKeyed(key, Insert(key, s, x)) && Descending(key, Insert(key, s, x))
    decreases |s|
  {
    if s != [] && GoesBefore(key, x, s[|s| - 1]) {
      var init, last := s[..|s| - 1], s[|s| - 1];
      InsertDescending(key, init, x);
      InsertBounded(key, init, x, key(last).value);
    }
  }

  /** When every chapter has a numeric key, the sorted list is newest first. */
  lemma {:induction false} SortDescending<T>(key: T -> Option<int>, s: seq<T>)
    requires AllKeyed(key, s)
    ensures AllKeyed(key, SortDesc(key, s)) && Descending(key, SortDesc(key, s))
    decreases |s|
  {
    if s != [] {
      var init := s[..|s| - 1];
      assert AllKeyed(key, init) by {
        forall i | 0 <= i < |init| ensures key(init[i]).Some? { assert init[i] == s[i]; }
      }
      SortDescending(key, init);
      InsertDescending(key, SortDesc(key, init), s[|s| - 1]);
    }
  }

  lemma {:induction false} InsertStable<T>(key: T -> Option<int>, s: seq<T>, x: T, k: Option<int>)
    ensures WithKey(key, Insert(key, s, x), k) == WithKey(key, s, k) + (if key(x) == k then [x] else [])
    decreases |s|
  {
    if s != [] && GoesBefore(key, x, s[|s| - 1]) {
      var init, last := s[..|s| - 1], s[|s| - 1];
      InsertStable(key, init, x, k);
      WithKeyConcat(key, Insert(key, init, x), [last], k);
      WithKeySingle(key, last, k);
      assert WithKey(key, s, k) == WithKey(key, init, k) + WithKey(key, [last], k);
    } else {
      WithKeyConcat(key, s, [x], k);
      WithKeySingle(key, x, k);
    }
  }

  lemma WithKeySingle<T>(key: T -> Option<int>, x: T, k: Option<int>)
    ensures WithKey(key, [x], k) == (if key(x) == k then [x] else [])
  {
    assert [x][..0] == [];
  }

  /**
   * Stability: the chapters that share a sort key (NaN included) keep their relative order,
   * whatever the keys of the others.
   */
  lemma {:induction false} SortStable<T>(key: T -> Option<int>, s: seq<T>, k: Option<int>)
    ensures WithKey(key, SortDesc(key, s), k) == WithKey(key, s, k)
    decreases |s|
  {
    if s != [] {
      SortStable(key, s[..|s| - 1], k);
      InsertStable(key, SortDesc(key, s[..|s| - 1]), s[|s| - 1], k);
    }
  }

  /** An order number written as a decimal integer sorts by that integer, not by its text. */
  lemma NumeralKey(c: ChapterResult, n: int)
    requires c.orderNumber == IntToString(n)
    ensures SortKey(c) == Some(n)
  {
    ParseIntOfNumeral(n, "");
    assert IntToString(n) + "" == IntToString(n);
  }

  /**
   * Where the inner loop stops: `x` goes before every element from `j` on and not before the one
   * at `j - 1`, so inserting it lands it at position `j`.
   */
  lemma {:induction false} InsertLands<T>(key: T -> Option<int>, sorted: seq<T>, x: T, j: nat)
    requires j <= |sorted|
    requires j == 0 || !GoesBefore(key, x, sorted[j - 1])
    requires forall k | j <= k < |sorted| :: GoesBefore(key, x, sorted[k])
    ensures Insert(key, sorted, x) == sorted[..j] + [x] + sorted[j..]
    decreases |sorted|
  {
    if |sorted| > j {
      var init, last := sorted[..|sorted| - 1], sorted[|sorted| - 1];
      InsertLands(key, init, x, j);
      assert init[..j] == sorted[..j] && init[j..] + [last] == sorted[j..];
    } else {
      assert sorted[..j] == sorted && sorted[j..] == [];
    }
  }

  /** The array prefix left by the inner loop: `sorted` with `x` put where it lands. */
  lemma ShiftedIn<T>(key: T -> Option<int>, r: seq<T>, sorted: seq<T>, x: T, j: nat)
    requires j <= |sorted| && |r| == |sorted| + 1
    requires forall k | 0 <= k < j :: r[k] == sorted[k]
    requires r[j] == x
    requires forall k | j < k < |r| :: r[k] == sorted[k - 1]
    requires j == 0 || !GoesBefore(key, x, sorted[j - 1])
    requires forall k | j <= k < |sorted| :: GoesBefore(key, x, sorted[k])
    ensures r == Insert(key, sorted, x)
  {
    InsertLands(key, sorted, x, j);
    assert r == sorted[..j] + [x] + sorted[j..];
  }

  /** The sorted prefix grows by one insertion per element. */
  lemma SortStep<T>(key: T -> Option<int>, s: seq<T>, i: nat)
    requires i < |s|
    ensures SortDesc(key, s[..i + 1]) == Insert(key, SortDesc(key, s[..i]), s[i])
  {
    assert s[..i + 1][..i] == s[..i];
  }

  /** One pass of `InsertAt` keeps the sort loop's invariant with one more element sorted. */
  lemma SortedPrefixGrows<T>(key: T -> Option<int>, input: seq<T>, before: seq<T>, after: seq<T>, i: nat)
    requires i < |input| == |before| == |after|
    requires before[..i] == SortDesc(key, input[..i]) && before[i..] == input[i..]
    requires after[..i + 1] == Insert(key, before[..i], before[i]) && after[i + 1..] == before[i + 1..]
    ensures after[..i + 1] == SortDesc(key, input[..i + 1]) && after[i + 1..] == input[i + 1..]
  {
    assert before[i] == input[i..][0];
    SortStep(key, input, i);
  }

  /**
   * One pass of the sort: `a[i]` is shifted left past the elements of `a[..i]` it must go before.
   * The prefix `a[..i + 1]` becomes the insertion of `a[i]` into `a[..i]`; the rest is untouched.
   */
  method InsertAt<T>(a: array<T>, i: nat, key: T -> Option<int>)
    requires i < a.Length
    modifies a
    ensures a[..i + 1] == Insert(key, old(a[..i]), old(a[i]))
    ensures a[i + 1..] == old(a[i + 1..])
  {
    ghost var sorted := a[..i];
    var x := a[i];
    var j := i;
    while j > 0 && GoesBefore(key, x, a[j - 1])
      invariant 0 <= j <= i
      invariant forall k | 0 <= k < j :: a[k] == sorted[k]
      invariant forall k | j < k <= i :: a[k] == sorted[k - 1]
      invariant forall k | j <= k < i :: GoesBefore(key, x, sorted[k])
      invariant a[i + 1..] == old(a[i + 1..])
    {
      a[j] := a[j - 1];
      j := j - 1;
    }
    a[j] := x;
    ShiftedIn(key, a[..i + 1], sorted, x, j);
  }

  /**
   * `Array.prototype.sort` with the comparator `(a, b) => key(b) - key(a)`, in place: the array
   * ends up holding the stable sort of what it held.
   */
  method SortBy<T>(a: array<T>, key: T -> Option<int>)
    modifies a
    ensures a[..] == SortDesc(key, old(a[..]))
  {
    ghost var input := a[..];
    var i := 0;
    while i < a.Length
      invariant 0 <= i <= a.Length
      invariant a[..i] == SortDesc(key, input[..i])
      invariant a[i..] == input[i..]
    {
      ghost var before := a[..];
      InsertAt(a, i, key);
      SortedPrefixGrows(key, input, before, a[..], i);
      i := i + 1;
    }
    assert input[..a.Length] == input;
  }

  /** `chapterResults.sort(...)`: the chapters sorted newest first by their order numbers. */
  method SortChapters(a: array<ChapterResult>)
    modifies a
    ensures a[..] == SortDesc(SortKey, old(a[..]))
  {
    SortBy(a, SortKey);
  }
}
