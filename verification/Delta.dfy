/** The delta minimiser of clang/utils/token-delta.py.

    `Minimise`, `DeltaOf` and `SearchOf` say what the algorithm computes with no failure cache,
    `MinimiseWith`, `DeltaWith` and `SearchWith` what it computes with one.  The class runs it with
    the cache, as the source does.
  */
module Delta {
  import opened Sequences

  datatype Result<T> = Success(value: T) | InitialTestFails

  // ----- lists of changes -----

  function Elements<T>(s: seq<T>): set<T> {
    set x | x in s
  }

  function Flatten<T>(sets: seq<seq<T>>): seq<T> {
    if sets == [] then [] else sets[0] + Flatten(sets[1..])
  }

  /** s is what is left of t after leaving out some of its elements. */
  ghost predicate Subsequence<T(!new)>(s: seq<T>, t: seq<T>) {
    if s == [] then true
    else if t == [] then false
    else (s[0] == t[0] && Subsequence(s[1..], t[1..])) || Subsequence(s, t[1..])
  }

  // ----- what the source computes -----

  function Split<T>(s: seq<T>): (parts: seq<seq<T>>)
    ensures Flatten(parts) == s
    ensures |parts| == if |s| <= 1 then 1 else 2
  {
    var mid := |s| / 2;
    if mid == 0 then
      assert Flatten([s]) == s;
      [s]
    else
      assert s[..mid] + s[mid..] == s;
      assert [s[..mid], s[mid..]][1..] == [s[mid..]];
      assert Flatten([s[mid..]]) == s[mid..];
      [s[..mid], s[mid..]]
  }

  function Refine<T>(sets: seq<seq<T>>): (refined: seq<seq<T>>)
    ensures |refined| >= |sets|
  {
    if sets == [] then [] else Split(sets[0]) + Refine(sets[1..])
  }

  /** The shape of every partition that the algorithm works on: the pieces make up c, and
      none of them is empty unless c is. */
  ghost predicate Parts<T>(c: seq<T>, sets: seq<seq<T>>) {
    && Flatten(sets) == c
    && (|sets| <= 1 ==> |c| <= 1)
    && (|sets| > 1 ==> forall i :: 0 <= i < |sets| ==> sets[i] != [])
    && |sets| <= |c| + 1
  }

  ghost function DeltaOf<T>(test: seq<T> -> bool, c: seq<T>, sets: seq<seq<T>>): seq<T>
    requires Parts(c, sets)
    decreases |c|, |c| + 1 - |sets|, |sets| + 1
  {
    if |sets| <= 1 then c
    else match SearchOf(test, c, sets, 0)
      case Some(r) => r
      case None =>
        var refined := Refine(sets);
        RefineKeepsParts(c, sets);
        if |refined| == |sets| then c else DeltaOf(test, c, refined)
  }

  ghost function SearchOf<T>(test: seq<T> -> bool, c: seq<T>, sets: seq<seq<T>>, i: nat): Option<seq<T>>
    requires Parts(c, sets) && |sets| > 1 && i <= |sets|
    decreases |c|, |c| + 1 - |sets|, |sets| - i
  {
    if i == |sets| then None
    else
      PieceIsSmaller(c, sets, i);
      if test(sets[i]) then
        SplitIsParts(sets[i]);
        Some(DeltaOf(test, sets[i], Split(sets[i])))
      else if |sets| > 2 && test(Flatten(Without(sets, i))) then
        Some(DeltaOf(test, Flatten(Without(sets, i)), Without(sets, i)))
      else
        SearchOf(test, c, sets, i + 1)
  }

  ghost function Minimise<T>(test: seq<T> -> bool, changes: seq<T>, force: bool): Result<seq<T>> {
    if !force && !test(changes) then InitialTestFails
    else if test([]) then Success([])
    else
      SplitIsParts(changes);
      Success(DeltaOf(test, changes, Split(changes)))
  }

  // ----- partitions -----

  lemma {:induction false} FlattenConcat<T>(a: seq<seq<T>>, b: seq<seq<T>>)
    ensures Flatten(a + b) == Flatten(a) + Flatten(b)
  {
    if a == [] {
      assert a + b == b;
    } else {
      assert (a + b)[1..] == a[1..] + b;
      FlattenConcat(a[1..], b);
    }
  }

  lemma {:induction false} FlattenLength<T>(sets: seq<seq<T>>)
    requires forall i :: 0 <= i < |sets| ==> sets[i] != []
    ensures |Flatten(sets)| >= |sets|
  {
    if sets == [] {
    } else {
      FlattenLength(sets[1..]);
    }
  }

  lemma SplitIsParts<T>(s: seq<T>)
    ensures Parts(s, Split(s))
  {
  }

  lemma {:induction false} RefineFlattens<T>(sets: seq<seq<T>>)
    ensures Flatten(Refine(sets)) == Flatten(sets)
    ensures (forall i :: 0 <= i < |sets| ==> sets[i] != []) ==>
              forall i :: 0 <= i < |Refine(sets)| ==> Refine(sets)[i] != []
  {
    if sets == [] {
    } else {
      RefineFlattens(sets[1..]);
      FlattenConcat(Split(sets[0]), Refine(sets[1..]));
    }
  }

  lemma RefineKeepsParts<T>(c: seq<T>, sets: seq<seq<T>>)
    requires Parts(c, sets) && |sets| > 1
    ensures Parts(c, Refine(sets)) && |Refine(sets)| <= |c|
  {
    RefineFlattens(sets);
    FlattenLength(Refine(sets));
  }

  /** Taking one piece alone, or leaving one out, makes the list shorter. */
  lemma PieceIsSmaller<T>(c: seq<T>, sets: seq<seq<T>>, i: nat)
    requires Parts(c, sets) && |sets| > 1 && i < |sets|
    ensures 0 < |sets[i]| < |c|
    ensures c == Flatten(sets[..i]) + sets[i] + Flatten(sets[i + 1..])
    ensures Flatten(Without(sets, i)) == Flatten(sets[..i]) + Flatten(sets[i + 1..])
    ensures |Flatten(Without(sets, i))| < |c|
    ensures |sets| > 2 ==> Parts(Flatten(Without(sets, i)), Without(sets, i))
  {
    assert sets == sets[..i] + ([sets[i]] + sets[i + 1..]);
    FlattenConcat(sets[..i], [sets[i]] + sets[i + 1..]);
    FlattenConcat([sets[i]], sets[i + 1..]);
    assert Flatten([sets[i]]) == sets[i];
    FlattenConcat(sets[..i], sets[i + 1..]);
    FlattenLength(Without(sets, i));
  }

  lemma {:induction false} RefineKeepsLength<T>(sets: seq<seq<T>>)
    requires |Refine(sets)| == |sets|
    ensures forall i :: 0 <= i < |sets| ==> |sets[i]| <= 1
  {
    if sets == [] {
    } else {
      RefineKeepsLength(sets[1..]);
      forall i | 0 <= i < |sets| ensures |sets[i]| <= 1 {
        if i > 0 {
          assert sets[i] == sets[1..][i - 1];
        }
      }
    }
  }

  lemma {:induction false} SingletonsFlatten<T>(sets: seq<seq<T>>)
    requires forall i :: 0 <= i < |sets| ==> |sets[i]| == 1
    ensures |Flatten(sets)| == |sets|
    ensures forall i :: 0 <= i < |sets| ==> sets[i] == [Flatten(sets)[i]]
  {
    if sets == [] {
    } else {
      SingletonsFlatten(sets[1..]);
      forall i | 0 <= i < |sets| ensures sets[i] == [Flatten(sets)[i]] {
        if i > 0 {
          assert sets[i] == sets[1..][i - 1];
        }
      }
    }
  }

  // ----- subsequences -----

  lemma {:induction false} SubsequenceReflexive<T(!new)>(s: seq<T>)
    ensures Subsequence(s, s)
  {
    if s == [] {
    } else {
      SubsequenceReflexive(s[1..]);
    }
  }

  lemma {:induction false} SubsequenceTransitive<T(!new)>(a: seq<T>, b: seq<T>, c: seq<T>)
    requires Subsequence(a, b) && Subsequence(b, c)
    ensures Subsequence(a, c)
    decreases |b| + |c|
  {
    if a == [] {
    } else {
      if b[0] == c[0] && Subsequence(b[1..], c[1..]) {
        if a[0] == b[0] && Subsequence(a[1..], b[1..]) {
          SubsequenceTransitive(a[1..], b[1..], c[1..]);
        } else {
          SubsequenceTransitive(a, b[1..], c[1..]);
        }
      } else {
        SubsequenceTransitive(a, b, c[1..]);
      }
    }
  }

  lemma {:induction false} SubsequenceSuffix<T(!new)>(b: seq<T>, c: seq<T>)
    ensures Subsequence(c, b + c)
  {
    if b == [] {
      assert b + c == c;
      SubsequenceReflexive(c);
    } else {
      assert (b + c)[1..] == b[1..] + c;
      SubsequenceSuffix(b[1..], c);
    }
  }

  lemma {:induction false} SubsequenceDropMiddle<T(!new)>(a: seq<T>, b: seq<T>, c: seq<T>)
    ensures Subsequence(a + c, a + b + c)
  {
    if a == [] {
      assert a + c == c && a + b + c == b + c;
      SubsequenceSuffix(b, c);
    } else {
      assert (a + c)[1..] == a[1..] + c;
      assert (a + b + c)[1..] == a[1..] + b + c;
      SubsequenceDropMiddle(a[1..], b, c);
    }
  }

  lemma SubsequenceMiddle<T(!new)>(a: seq<T>, s: seq<T>, b: seq<T>)
    ensures Subsequence(s, a + s + b)
  {
    assert a + s + b == a + (s + b) && s + [] == s && s + b + [] == s + b;
    SubsequenceSuffix(a, s + b);
    SubsequenceDropMiddle(s, b, []);
    SubsequenceTransitive(s, s + b, a + s + b);
  }

  lemma {:induction false} SubsequenceElements<T(!new)>(s: seq<T>, t: seq<T>)
    requires Subsequence(s, t)
    ensures Elements(s) <= Elements(t)
  {
    if s == [] {
    } else {
      if s[0] == t[0] && Subsequence(s[1..], t[1..]) {
        SubsequenceElements(s[1..], t[1..]);
        assert forall x :: x in s ==> x == s[0] || x in Elements(s[1..]);
      } else {
        SubsequenceElements(s, t[1..]);
      }
      assert forall x :: x in Elements(t[1..]) ==> x in t;
    }
  }

  lemma PieceIsSubsequence<T(!new)>(c: seq<T>, sets: seq<seq<T>>, i: nat)
    requires Parts(c, sets) && |sets| > 1 && i < |sets|
    ensures Subsequence(sets[i], c) && Subsequence(Flatten(Without(sets, i)), c)
  {
    PieceIsSmaller(c, sets, i);
    SubsequenceMiddle(Flatten(sets[..i]), sets[i], Flatten(sets[i + 1..]));
    SubsequenceDropMiddle(Flatten(sets[..i]), sets[i], Flatten(sets[i + 1..]));
  }

  // ----- what the algorithm achieves -----

  /** r passes unless it is the whole input, and taking out any one element makes it fail. */
  ghost predicate Minimised<T(!new)>(test: seq<T> -> bool, c: seq<T>, r: seq<T>) {
    && Subsequence(r, c)
    && (r == c || test(r))
    && forall i :: 0 <= i < |r| ==> !test(Without(r, i))
  }

  lemma MinimisedWithin<T(!new)>(test: seq<T> -> bool, c: seq<T>, d: seq<T>, r: seq<T>)
    requires Subsequence(d, c) && test(d) && Minimised(test, d, r)
    ensures Minimised(test, c, r)
  {
    SubsequenceTransitive(r, d, c);
  }

  /** Removing the i-th element of a list of singletons is leaving out the i-th piece. */
  lemma WithoutSingleton<T>(c: seq<T>, sets: seq<seq<T>>, i: nat)
    requires Parts(c, sets) && |sets| > 1 && i < |sets|
    requires forall k :: 0 <= k < |sets| ==> |sets[k]| == 1
    ensures |c| == |sets| && Without(c, i) == Flatten(Without(sets, i))
  {
    PieceIsSmaller(c, sets, i);
    SingletonsFlatten(sets);
    SingletonsFlatten(sets[..i]);
    assert |Flatten(sets[..i])| == i;
    assert c[..i] == Flatten(sets[..i]) && c[i + 1..] == Flatten(sets[i + 1..]);
  }

  lemma {:induction false} SearchMinimises<T(!new)>(test: seq<T> -> bool, c: seq<T>, sets: seq<seq<T>>, i: nat)
    requires Parts(c, sets) && |sets| > 1 && i <= |sets| && !test([])
    ensures var r := SearchOf(test, c, sets, i);
      match r
      case Some(d) => Minimised(test, c, d)
      case None => forall k :: i <= k < |sets| ==>
        !test(sets[k]) && (|sets| > 2 ==> !test(Flatten(Without(sets, k))))
    decreases |c|, |c| + 1 - |sets|, |sets| - i
  {
    if i == |sets| {
    } else {
      PieceIsSmaller(c, sets, i);
      PieceIsSubsequence(c, sets, i);
      if test(sets[i]) {
        SplitIsParts(sets[i]);
        DeltaMinimises(test, sets[i], Split(sets[i]));
        MinimisedWithin(test, c, sets[i], DeltaOf(test, sets[i], Split(sets[i])));
      } else if |sets| > 2 && test(Flatten(Without(sets, i))) {
        var d := Flatten(Without(sets, i));
        DeltaMinimises(test, d, Without(sets, i));
        MinimisedWithin(test, c, d, DeltaOf(test, d, Without(sets, i)));
      } else {
        SearchMinimises(test, c, sets, i + 1);
      }
    }
  }

  lemma {:induction false} DeltaMinimises<T(!new)>(test: seq<T> -> bool, c: seq<T>, sets: seq<seq<T>>)
    requires Parts(c, sets) && !test([])
    ensures Minimised(test, c, DeltaOf(test, c, sets))
    decreases |c|, |c| + 1 - |sets|, |sets| + 1
  {
    SubsequenceReflexive(c);
    if |sets| <= 1 {
      assert forall i :: 0 <= i < |c| ==> Without(c, i) == [];
    } else {
      SearchMinimises(test, c, sets, 0);
      if SearchOf(test, c, sets, 0).None? {
        RefineKeepsParts(c, sets);
        if |Refine(sets)| > |sets| {
          DeltaMinimises(test, c, Refine(sets));
        } else {
          RefineKeepsLength(sets);
          SingletonsAreMinimal(test, c, sets);
        }
      }
    }
  }

  /** When only singletons are left and the search found nothing, nothing can be removed. */
  lemma SingletonsAreMinimal<T(!new)>(test: seq<T> -> bool, c: seq<T>, sets: seq<seq<T>>)
    requires Parts(c, sets) && |sets| > 1
    requires forall i :: 0 <= i < |sets| ==> |sets[i]| <= 1
    requires forall k :: 0 <= k < |sets| ==>
      !test(sets[k]) && (|sets| > 2 ==> !test(Flatten(Without(sets, k))))
    ensures forall i :: 0 <= i < |c| ==> !test(Without(c, i))
  {
    SingletonsFlatten(sets);
    forall i | 0 <= i < |c| ensures !test(Without(c, i)) {
      WithoutSingleton(c, sets, i);
      if |sets| == 2 {
        assert Without(sets, i) == [sets[1 - i]];
        assert Flatten([sets[1 - i]]) == sets[1 - i];
      }
    }
  }

  /** Unless the initial test fails, the result is a 1-minimal subsequence of the input; it
      passes the test unless the run was forced on an input that fails and nothing smaller
      was found to pass. */
  lemma RunIsOneMinimal<T(!new)>(test: seq<T> -> bool, changes: seq<T>, force: bool)
    ensures Minimise(test, changes, force) == InitialTestFails <==> !force && !test(changes)
    ensures var r := Minimise(test, changes, force);
      r.Success? ==> Minimised(test, changes, r.value) && (test(changes) ==> test(r.value))
  {
    if test([]) {
      SubsequenceSuffix(changes, []);
      assert changes + [] == changes;
    } else {
      SplitIsParts(changes);
      DeltaMinimises(test, changes, Split(changes));
    }
  }

  // ----- the failure cache -----

  lemma {:induction false} SubsequenceDetermined<T(!new)>(root: seq<T>, s: seq<T>, t: seq<T>)
    requires Distinct(root) && Subsequence(s, root) && Subsequence(t, root)
    requires Elements(s) == Elements(t)
    ensures s == t
    decreases |root|
  {
    if root == [] {
    } else {
      var x, rest := root[0], root[1..];
      assert Distinct(rest) && x !in rest;
      HeadOrTail(root, s);
      HeadOrTail(root, t);
      if x in s {
        assert x in Elements(s);
        assert x in t;
        SameTailElements(s, t);
        SubsequenceDetermined(rest, s[1..], t[1..]);
        assert s == [x] + s[1..] && t == [x] + t[1..];
      } else {
        assert x !in Elements(s);
        SubsequenceDetermined(rest, s, t);
      }
    }
  }

  /** A subsequence of a list of distinct elements either starts as the list does, and does not
      repeat that element, or does not hold it at all. */
  lemma HeadOrTail<T(!new)>(root: seq<T>, s: seq<T>)
    requires root != [] && Distinct(root) && Subsequence(s, root)
    ensures root[0] in s ==> s[0] == root[0] && Subsequence(s[1..], root[1..]) && root[0] !in s[1..]
    ensures root[0] !in s ==> Subsequence(s, root[1..])
  {
    assert root[0] !in root[1..];
    if s != [] {
      if s[0] == root[0] && Subsequence(s[1..], root[1..]) {
        SubsequenceElements(s[1..], root[1..]);
        assert forall x :: x in s[1..] ==> x in Elements(s[1..]);
      } else {
        SubsequenceElements(s, root[1..]);
        assert forall x :: x in s ==> x in Elements(s);
      }
    }
  }

  lemma SameTailElements<T(!new)>(s: seq<T>, t: seq<T>)
    requires s != [] && t != [] && s[0] == t[0] && s[0] !in s[1..] && t[0] !in t[1..]
    requires Elements(s) == Elements(t)
    ensures Elements(s[1..]) == Elements(t[1..])
  {
    assert s == [s[0]] + s[1..] && t == [t[0]] + t[1..];
    assert Elements(s[1..]) == Elements(s) - {s[0]};
    assert Elements(t[1..]) == Elements(t) - {t[0]};
  }

  /** Every cached set is the set of elements of a failing subsequence of the input. */
  ghost predicate OnlyFailing<T(!new)>(test: seq<T> -> bool, root: seq<T>, cache: set<set<T>>) {
    forall k :: k in cache ==> exists s :: Subsequence(s, root) && Elements(s) == k && !test(s)
  }

  lemma CachedFails<T(!new)>(test: seq<T> -> bool, root: seq<T>, cache: set<set<T>>, s: seq<T>)
    requires Distinct(root) && OnlyFailing(test, root, cache)
    requires Subsequence(s, root) && Elements(s) in cache
    ensures !test(s)
  {
    var t :| Subsequence(t, root) && Elements(t) == Elements(s) && !test(t);
    SubsequenceDetermined(root, s, t);
  }

  // ----- what the source computes with its cache, for lists of any kind -----

  /** The answer, and the cache after it. */
  function TestWith<T>(test: seq<T> -> bool, cache: set<set<T>>, s: seq<T>): (bool, set<set<T>>) {
    if Elements(s) in cache then (false, cache)
    else if test(s) then (true, cache)
    else (false, cache + {Elements(s)})
  }

  ghost function DeltaWith<T>(test: seq<T> -> bool, cache: set<set<T>>, c: seq<T>, sets: seq<seq<T>>)
    : (seq<T>, set<set<T>>)
    requires Parts(c, sets)
    decreases |c|, |c| + 1 - |sets|, |sets| + 1
  {
    if |sets| <= 1 then (c, cache)
    else
      var (found, after) := SearchWith(test, cache, c, sets, 0);
      match found
      case Some(r) => (r, after)
      case None =>
        var refined := Refine(sets);
        RefineKeepsParts(c, sets);
        if |refined| == |sets| then (c, after) else DeltaWith(test, after, c, refined)
  }

  ghost function SearchWith<T>(test: seq<T> -> bool, cache: set<set<T>>, c: seq<T>, sets: seq<seq<T>>, i: nat)
    : (Option<seq<T>>, set<set<T>>)
    requires Parts(c, sets) && |sets| > 1 && i <= |sets|
    decreases |c|, |c| + 1 - |sets|, |sets| - i
  {
    if i == |sets| then (None, cache)
    else
      PieceIsSmaller(c, sets, i);
      var (alone, cache1) := TestWith(test, cache, sets[i]);
      if alone then
        SplitIsParts(sets[i]);
        var (d, after) := DeltaWith(test, cache1, sets[i], Split(sets[i]));
        (Some(d), after)
      else if |sets| <= 2 then SearchWith(test, cache1, c, sets, i + 1)
      else
        var (rest, cache2) := TestWith(test, cache1, Flatten(Without(sets, i)));
        if rest then
          var (d, after) := DeltaWith(test, cache2, Flatten(Without(sets, i)), Without(sets, i));
          (Some(d), after)
        else SearchWith(test, cache2, c, sets, i + 1)
  }

  ghost function MinimiseWith<T>(test: seq<T> -> bool, cache: set<set<T>>, changes: seq<T>, force: bool)
    : (Result<seq<T>>, set<set<T>>)
  {
    var (initial, cache1) := if force then (true, cache) else TestWith(test, cache, changes);
    if !initial then (InitialTestFails, cache1)
    else
      var (empty, cache2) := TestWith(test, cache1, []);
      if empty then (Success([]), cache2)
      else
        SplitIsParts(changes);
        var (d, after) := DeltaWith(test, cache2, changes, Split(changes));
        (Success(d), after)
  }

  // ----- for lists without repetition the cache makes no difference -----

  lemma TestWithIsTest<T(!new)>(test: seq<T> -> bool, root: seq<T>, cache: set<set<T>>, s: seq<T>)
    requires Distinct(root) && OnlyFailing(test, root, cache) && Subsequence(s, root)
    ensures TestWith(test, cache, s).0 == test(s)
    ensures OnlyFailing(test, root, TestWith(test, cache, s).1)
  {
    if Elements(s) in cache {
      CachedFails(test, root, cache, s);
    }
  }

  lemma {:induction false} SearchWithIsSearch<T(!new)>(
    test: seq<T> -> bool, root: seq<T>, cache: set<set<T>>, c: seq<T>, sets: seq<seq<T>>, i: nat)
    requires Parts(c, sets) && |sets| > 1 && i <= |sets|
    requires Distinct(root) && OnlyFailing(test, root, cache) && Subsequence(c, root)
    ensures SearchWith(test, cache, c, sets, i).0 == SearchOf(test, c, sets, i)
    ensures OnlyFailing(test, root, SearchWith(test, cache, c, sets, i).1)
    decreases |c|, |c| + 1 - |sets|, |sets| - i
  {
    hide OnlyFailing, Distinct, TestWith;
    if i == |sets| {
    } else {
      PieceIsSmaller(c, sets, i);
      PieceIsSubsequence(c, sets, i);
      var piece, rest := sets[i], Flatten(Without(sets, i));
      SubsequenceTransitive(piece, c, root);
      SubsequenceTransitive(rest, c, root);
      TestWithIsTest(test, root, cache, piece);
      var cache1 := TestWith(test, cache, piece).1;
      if test(piece) {
        SplitIsParts(piece);
        DeltaWithIsDelta(test, root, cache1, piece, Split(piece));
      } else if |sets| <= 2 {
        SearchWithIsSearch(test, root, cache1, c, sets, i + 1);
      } else {
        TestWithIsTest(test, root, cache1, rest);
        var cache2 := TestWith(test, cache1, rest).1;
        if test(rest) {
          DeltaWithIsDelta(test, root, cache2, rest, Without(sets, i));
        } else {
          SearchWithIsSearch(test, root, cache2, c, sets, i + 1);
        }
      }
    }
  }

  lemma {:induction false} DeltaWithIsDelta<T(!new)>(
    test: seq<T> -> bool, root: seq<T>, cache: set<set<T>>, c: seq<T>, sets: seq<seq<T>>)
    requires Parts(c, sets)
    requires Distinct(root) && OnlyFailing(test, root, cache) && Subsequence(c, root)
    ensures DeltaWith(test, cache, c, sets).0 == DeltaOf(test, c, sets)
    ensures OnlyFailing(test, root, DeltaWith(test, cache, c, sets).1)
    decreases |c|, |c| + 1 - |sets|, |sets| + 1
  {
    hide OnlyFailing, Distinct;
    if |sets| <= 1 {
    } else {
      SearchWithIsSearch(test, root, cache, c, sets, 0);
      if SearchOf(test, c, sets, 0).None? {
        RefineKeepsParts(c, sets);
        if |Refine(sets)| > |sets| {
          DeltaWithIsDelta(test, root, SearchWith(test, cache, c, sets, 0).1, c, Refine(sets));
        }
      }
    }
  }

  /** For changes without repetition the run with the cache is the run without it. */
  lemma CacheIsHarmless<T(!new)>(test: seq<T> -> bool, cache: set<set<T>>, changes: seq<T>, force: bool)
    requires Distinct(changes) && OnlyFailing(test, changes, cache)
    ensures MinimiseWith(test, cache, changes, force).0 == Minimise(test, changes, force)
    ensures OnlyFailing(test, changes, MinimiseWith(test, cache, changes, force).1)
  {
    hide OnlyFailing, Distinct, TestWith;
    SubsequenceReflexive(changes);
    TestWithIsTest(test, changes, cache, changes);
    var cache1 := if force then cache else TestWith(test, cache, changes).1;
    TestWithIsTest(test, changes, cache1, []);
    SplitIsParts(changes);
    DeltaWithIsDelta(test, changes, TestWith(test, cache1, []).1, changes, Split(changes));
  }

  // ----- with repeated changes it makes one -----

  /** r is the whole list, or has passed the test when its set of elements was not cached. */
  ghost predicate Earned<T(!new)>(test: seq<T> -> bool, cache: set<set<T>>, c: seq<T>, r: seq<T>) {
    Subsequence(r, c) && (r == c || (test(r) && Elements(r) !in cache))
  }

  lemma EarnedWithin<T(!new)>(
    test: seq<T> -> bool, cache: set<set<T>>, cache': set<set<T>>, c: seq<T>, d: seq<T>, r: seq<T>)
    requires cache <= cache' && Subsequence(d, c) && test(d) && Elements(d) !in cache && Earned(test, cache', d, r)
    ensures Earned(test, cache, c, r)
  {
    SubsequenceTransitive(r, d, c);
  }

  lemma {:induction false} SearchEarns<T(!new)>(
    test: seq<T> -> bool, cache: set<set<T>>, c: seq<T>, sets: seq<seq<T>>, i: nat)
    requires Parts(c, sets) && |sets| > 1 && i <= |sets|
    ensures var (found, after) := SearchWith(test, cache, c, sets, i);
      cache <= after && (found.Some? ==> Earned(test, cache, c, found.value))
    decreases |c|, |c| + 1 - |sets|, |sets| - i
  {
    hide Elements;
    if i == |sets| {
    } else {
      PieceIsSmaller(c, sets, i);
      PieceIsSubsequence(c, sets, i);
      var piece, rest := sets[i], Flatten(Without(sets, i));
      var (alone, cache1) := TestWith(test, cache, piece);
      if alone {
        SplitIsParts(piece);
        DeltaEarns(test, cache1, piece, Split(piece));
        EarnedWithin(test, cache, cache1, c, piece, DeltaWith(test, cache1, piece, Split(piece)).0);
      } else if |sets| <= 2 {
        SearchEarns(test, cache1, c, sets, i + 1);
      } else {
        var (passes, cache2) := TestWith(test, cache1, rest);
        if passes {
          DeltaEarns(test, cache2, rest, Without(sets, i));
          EarnedWithin(test, cache, cache2, c, rest, DeltaWith(test, cache2, rest, Without(sets, i)).0);
        } else {
          SearchEarns(test, cache2, c, sets, i + 1);
        }
      }
    }
  }

  lemma {:induction false} DeltaEarns<T(!new)>(
    test: seq<T> -> bool, cache: set<set<T>>, c: seq<T>, sets: seq<seq<T>>)
    requires Parts(c, sets)
    ensures cache <= DeltaWith(test, cache, c, sets).1 && Earned(test, cache, c, DeltaWith(test, cache, c, sets).0)
    decreases |c|, |c| + 1 - |sets|, |sets| + 1
  {
    hide Elements;
    SubsequenceReflexive(c);
    if |sets| <= 1 {
    } else {
      SearchEarns(test, cache, c, sets, 0);
      if SearchWith(test, cache, c, sets, 0).0.None? {
        RefineKeepsParts(c, sets);
        if |Refine(sets)| > |sets| {
          DeltaEarns(test, SearchWith(test, cache, c, sets, 0).1, c, Refine(sets));
        }
      }
    }
  }

  function FirstHalf<T>(c: seq<T>): seq<T> {
    c[..|c| / 2]
  }

  function SecondHalf<T>(c: seq<T>): seq<T> {
    c[|c| / 2..]
  }

  lemma Halves<T>(c: seq<T>)
    requires |c| >= 2
    ensures Parts(c, Split(c)) && Split(c) == [FirstHalf(c), SecondHalf(c)] && c == FirstHalf(c) + SecondHalf(c)
  {
  }

  /** After the search from i on, whatever it finds, the result is earned against the cache it began with. */
  lemma SearchDecides<T(!new)>(
    test: seq<T> -> bool, cache: set<set<T>>, cache': set<set<T>>, c: seq<T>, sets: seq<seq<T>>, i: nat)
    requires Parts(c, sets) && |sets| > 1 && i <= |sets|
    requires SearchWith(test, cache, c, sets, 0) == SearchWith(test, cache', c, sets, i)
    ensures Earned(test, cache', c, DeltaWith(test, cache, c, sets).0)
  {
    hide Elements, SearchWith;
    SearchEarns(test, cache', c, sets, i);
    SubsequenceReflexive(c);
    var (found, after) := SearchWith(test, cache, c, sets, 0);
    if found.None? {
      RefineKeepsParts(c, sets);
      if |Refine(sets)| > |sets| {
        DeltaEarns(test, after, c, Refine(sets));
      }
    }
  }

  /** Once a half has failed, no other list with its set of elements can be found. */
  lemma FailedHalfHides<T(!new)>(test: seq<T> -> bool, cache: set<set<T>>, c: seq<T>)
    requires |c| >= 2 && Parts(c, Split(c)) && !test(FirstHalf(c))
    ensures var r := DeltaWith(test, cache, c, Split(c)).0;
      && Earned(test, {Elements(FirstHalf(c))}, c, r)
      && (!test(SecondHalf(c)) ==> Earned(test, {Elements(SecondHalf(c))}, c, r))
  {
    hide Elements, Parts, Split;
    Halves(c);
    var sets := Split(c);
    var cache1 := TestWith(test, cache, sets[0]).1;
    PieceIsSmaller(c, sets, 0);
    assert SearchWith(test, cache, c, sets, 0) == SearchWith(test, cache1, c, sets, 1);
    SearchDecides(test, cache, cache1, c, sets, 1);
    if !test(SecondHalf(c)) {
      var cache2 := TestWith(test, cache1, sets[1]).1;
      PieceIsSmaller(c, sets, 1);
      assert SearchWith(test, cache1, c, sets, 1) == SearchWith(test, cache2, c, sets, 2);
      SearchDecides(test, cache, cache2, c, sets, 2);
    }
  }

  lemma {:induction false} SubsequenceCounts<T(!new)>(s: seq<T>, t: seq<T>)
    requires Subsequence(s, t)
    ensures |s| <= |t| && multiset(s) <= multiset(t)
    decreases |t|
  {
    if s == [] {
    } else {
      assert t == [t[0]] + t[1..];
      if s[0] == t[0] && Subsequence(s[1..], t[1..]) {
        SubsequenceCounts(s[1..], t[1..]);
        assert s == [s[0]] + s[1..];
      } else {
        SubsequenceCounts(s, t[1..]);
      }
    }
  }

  /** From a list that properly contains f one element can be taken out that f does not need. */
  lemma {:induction false} SpareElement<T(!new)>(f: seq<T>, r: seq<T>) returns (k: nat)
    requires Subsequence(f, r) && f != r
    ensures k < |r| && Subsequence(f, Without(r, k))
    decreases |r|
  {
    if f == [] {
      return 0;
    } else if f[0] == r[0] && Subsequence(f[1..], r[1..]) {
      assert f == [f[0]] + f[1..] && r == [r[0]] + r[1..];
      k := SpareElement(f[1..], r[1..]);
      k := k + 1;
      assert Without(r, k)[1..] == Without(r[1..], k - 1);
    } else {
      assert Without(r, 0) == r[1..];
      return 0;
    }
  }

  /** Passes what contains f, except the one list s. */
  ghost function Hiding<T(!new)>(f: seq<T>, s: seq<T>): seq<T> -> bool {
    t => Subsequence(f, t) && t != s
  }

  /** f stands in c, and the half s of c fails a test that f passes, with the same set of elements. */
  ghost predicate Hides<T(!new)>(c: seq<T>, f: seq<T>, s: seq<T>) {
    && |c| >= 2 && f != [] && f != c && f != s && Subsequence(f, c) && Elements(f) == Elements(s)
    && (s == FirstHalf(c) || (s == SecondHalf(c) && !Subsequence(f, FirstHalf(c))))
  }

  ghost predicate OneMinimalOrRefused<T(!new)>(test: seq<T> -> bool, changes: seq<T>, force: bool) {
    var r := MinimiseWith(test, {}, changes, force).0;
    r == InitialTestFails || Minimised(test, changes, r.value)
  }

  /** The run with such a test ends with a list that contains f, and is not f. */
  lemma HiddenIsNotFound<T(!new)>(c: seq<T>, f: seq<T>, s: seq<T>, force: bool) returns (r: seq<T>)
    requires Hides(c, f, s)
    ensures MinimiseWith(Hiding(f, s), {}, c, force).0 == Success(r)
    ensures Subsequence(f, r) && f != r && Subsequence(r, c)
  {
    hide SearchWith, DeltaWith, Split, Parts;
    var test := Hiding(f, s);
    var empty: set<set<T>> := {};
    assert |s| < |c| && test(c) && !test([]);
    assert TestWith(test, empty, c) == (true, empty);
    var cache := empty + {Elements<T>([])};
    assert TestWith(test, empty, []) == (false, cache);
    Halves(c);
    FailedHalfHides(test, cache, c);
    r := DeltaWith(test, cache, c, Split(c)).0;
  }

  lemma LongerHiddenIsMissed<T(!new)>(c: seq<T>, f: seq<T>, s: seq<T>, force: bool)
    requires Hides(c, f, s) && |s| < |f|
    ensures !OneMinimalOrRefused(Hiding(f, s), c, force)
  {
    hide Hides;
    var r := HiddenIsNotFound(c, f, s, force);
    var k := SpareElement(f, r);
    SubsequenceCounts(f, Without(r, k));
    assert Hiding(f, s)(Without(r, k));
  }

  /** If taking out the element that f can spare leaves s, another one can be taken out. */
  lemma ShorterHiddenIsMissed<T(!new)>(c: seq<T>, s: seq<T>, m: nat, force: bool)
    requires m < |s| && Hides(c, Without(s, m), s)
    requires forall x :: x in FirstHalf(c) ==> x !in SecondHalf(c)
    ensures !OneMinimalOrRefused(Hiding(Without(s, m), s), c, force)
  {
    var f := Without(s, m);
    var r := HiddenIsNotFound(c, f, s, force);
    var k := SpareElement(f, r);
    if Without(r, k) == s {
      OneMore(c, s, r, k);
      var l := if m < k then m else m + 1;
      OtherSpareElement(r, s, k, m, l);
      assert Hiding(f, s)(Without(r, l));
    } else {
      assert Hiding(f, s)(Without(r, k));
    }
  }

  lemma WithoutCounts<T(!new)>(r: seq<T>, k: nat)
    requires k < |r|
    ensures multiset(r)[r[k]] == multiset(Without(r, k))[r[k]] + 1
  {
    assert r == r[..k] + [r[k]] + r[k + 1..];
  }

  lemma HalfCounts<T(!new)>(c: seq<T>, s: seq<T>, x: T)
    requires |c| >= 2 && (s == FirstHalf(c) || s == SecondHalf(c)) && x in s
    requires forall x :: x in FirstHalf(c) ==> x !in SecondHalf(c)
    ensures multiset(c)[x] == multiset(s)[x]
  {
    assert c == FirstHalf(c) + SecondHalf(c);
    assert multiset(c) == multiset(FirstHalf(c)) + multiset(SecondHalf(c));
    if s == SecondHalf(c) {
      assert x !in FirstHalf(c);
    } else {
      assert x !in SecondHalf(c);
    }
  }

  /** A list of c that holds all of a half and one element more holds one of the other half. */
  lemma OneMore<T(!new)>(c: seq<T>, s: seq<T>, r: seq<T>, k: nat)
    requires |c| >= 2 && (s == FirstHalf(c) || s == SecondHalf(c)) && Subsequence(r, c)
    requires forall x :: x in FirstHalf(c) ==> x !in SecondHalf(c)
    requires k < |r| && Without(r, k) == s
    ensures r[k] !in s
  {
    hide Subsequence, FirstHalf, SecondHalf, Without;
    SubsequenceCounts(r, c);
    WithoutCounts(r, k);
    if r[k] in s {
      HalfCounts(c, s, r[k]);
    }
  }

  lemma OtherSpareElement<T(!new)>(r: seq<T>, s: seq<T>, k: nat, m: nat, l: nat)
    requires k < |r| && Without(r, k) == s && r[k] !in s && m < |s| && l == if m < k then m else m + 1
    ensures Without(r, l) != s && Subsequence(Without(s, m), Without(r, l))
  {
    hide Subsequence;
    var w, f, y := Without(r, l), Without(s, m), r[k];
    var j := if m < k then k - 1 else k;
    assert w[j] == y;
    assert w == w[..j] + [y] + w[j + 1..];
    assert f == w[..j] + w[j + 1..];
    SubsequenceDropMiddle(w[..j], [y], w[j + 1..]);
  }

  lemma InsertedSubsequence<T(!new)>(h: seq<T>, a: seq<T>, x: T, b: seq<T>)
    ensures Subsequence(h + [x], h + a + ([x] + b))
  {
    hide Subsequence;
    SubsequenceDropMiddle(h, a, [x] + b);
    assert h + ([x] + b) == h + [x] + b + [] && h + [x] + [] == h + [x];
    SubsequenceDropMiddle(h + [x], b, []);
    SubsequenceTransitive(h + [x], h + ([x] + b), h + a + ([x] + b));
  }

  lemma SharedElementHides<T(!new)>(c: seq<T>, x: T)
    requires |c| >= 3 && x in FirstHalf(c) && x in SecondHalf(c)
    ensures Hides(c, FirstHalf(c) + [x], FirstHalf(c))
  {
    hide Subsequence, Parts, Split;
    Halves(c);
    var h, t := FirstHalf(c), SecondHalf(c);
    var i :| 0 <= i < |t| && t[i] == x;
    InsertedSubsequence(h, t[..i], x, t[i + 1..]);
    assert c == h + t[..i] + ([x] + t[i + 1..]);
  }

  lemma WithoutRepeated<T(!new)>(s: seq<T>, m: nat, n: nat)
    requires m < n < |s| && s[m] == s[n]
    ensures Elements(Without(s, m)) == Elements(s) && Subsequence(Without(s, m), s)
  {
    hide Subsequence, Elements;
    SameElements(s, m, n);
    assert s == s[..m] + [s[m]] + s[m + 1..];
    SubsequenceDropMiddle(s[..m], [s[m]], s[m + 1..]);
  }

  lemma SameElements<T(!new)>(s: seq<T>, m: nat, n: nat)
    requires m < n < |s| && s[m] == s[n]
    ensures Elements(Without(s, m)) == Elements(s)
  {
    var f := Without(s, m);
    forall x | x in Elements(s) ensures x in Elements(f) {
      var i :| 0 <= i < |s| && s[i] == x;
      assert f[if i == m then n - 1 else if i < m then i else i - 1] == x;
    }
    forall x | x in Elements(f) ensures x in Elements(s) {
      var j :| 0 <= j < |f| && f[j] == x;
      assert s[if j < m then j else j + 1] == x;
    }
  }

  lemma RepetitionInHalfHides<T(!new)>(c: seq<T>, s: seq<T>, m: nat, n: nat)
    requires |c| >= 2 && (s == FirstHalf(c) || s == SecondHalf(c)) && m < n < |s| && s[m] == s[n]
    requires forall x :: x in FirstHalf(c) ==> x !in SecondHalf(c)
    ensures Hides(c, Without(s, m), s)
  {
    hide Subsequence, Parts, Split;
    Halves(c);
    var f := Without(s, m);
    WithoutRepeated(s, m, n);
    if s == FirstHalf(c) {
      assert c == [] + s + SecondHalf(c);
      SubsequenceMiddle([], s, SecondHalf(c));
    } else {
      SubsequenceSuffix(FirstHalf(c), s);
      assert f[0] in Elements(f) && f[0] in Elements(s);
      if Subsequence(f, FirstHalf(c)) {
        SubsequenceElements(f, FirstHalf(c));
      }
    }
    SubsequenceTransitive(f, s, c);
  }

  lemma SharedElementIsMissed<T(!new)>(c: seq<T>, x: T, force: bool) returns (test: seq<T> -> bool)
    requires |c| >= 3 && x in FirstHalf(c) && x in SecondHalf(c)
    ensures !OneMinimalOrRefused(test, c, force)
  {
    SharedElementHides(c, x);
    LongerHiddenIsMissed(c, FirstHalf(c) + [x], FirstHalf(c), force);
    return Hiding(FirstHalf(c) + [x], FirstHalf(c));
  }

  /** A list of three or more changes, one of them repeated, has a test with which a run from an empty
      cache ends with a list from which more could be taken out. */
  lemma RepetitionIsMissed<T(!new)>(c: seq<T>, force: bool) returns (test: seq<T> -> bool)
    requires !Distinct(c) && |c| >= 3
    ensures !OneMinimalOrRefused(test, c, force)
  {
    hide Hides, OneMinimalOrRefused, Hiding;
    Halves(c);
    var h, t := FirstHalf(c), SecondHalf(c);
    var i, j :| 0 <= i < j < |c| && c[i] == c[j];
    if i < |h| <= j {
      assert h[i] == c[i] && t[j - |h|] == c[j];
      test := SharedElementIsMissed(c, c[i], force);
    } else if x :| x in h && x in t {
      test := SharedElementIsMissed(c, x, force);
    } else if j < |h| {
      RepetitionInHalfHides(c, h, i, j);
      ShorterHiddenIsMissed(c, h, i, force);
      return Hiding(Without(h, i), h);
    } else {
      var m, n := i - |h|, j - |h|;
      RepetitionInHalfHides(c, t, m, n);
      ShorterHiddenIsMissed(c, t, m, force);
      return Hiding(Without(t, m), t);
    }
  }

  // ----- and exactly when -----

  /** The search through two pieces goes on when a piece does not pass. */
  lemma SearchGoesOn<T>(test: seq<T> -> bool, cache: set<set<T>>, c: seq<T>, sets: seq<seq<T>>, i: nat)
    returns (after: set<set<T>>)
    requires Parts(c, sets) && |sets| == 2 && i < 2 && !TestWith(test, cache, sets[i]).0
    ensures after == TestWith(test, cache, sets[i]).1
    ensures SearchWith(test, cache, c, sets, i) == SearchWith(test, after, c, sets, i + 1)
  {
    after := TestWith(test, cache, sets[i]).1;
  }

  lemma SearchEnds<T>(test: seq<T> -> bool, cache: set<set<T>>, c: seq<T>, sets: seq<seq<T>>)
    requires Parts(c, sets) && |sets| > 1
    ensures SearchWith(test, cache, c, sets, |sets|) == (None, cache)
  {
  }

  /** Two equal changes do no harm: the only list that the cache could hide is the one it holds. */
  lemma TwoAlike<T(!new)>(test: seq<T> -> bool, changes: seq<T>, force: bool)
    requires |changes| == 2 && changes[0] == changes[1]
    ensures MinimiseWith(test, {}, changes, force).0 == Minimise(test, changes, force)
  {
    var one := [changes[0]];
    Halves(changes);
    assert FirstHalf(changes) == one && SecondHalf(changes) == one;
    assert Split(one) == [one] && Refine([one]) == [one] && [one, one][1..] == [one];
    assert Refine([one, one]) == [one, one];
    var empty: set<set<T>> := {};
    var cache := empty + {Elements<T>([])};
    if (force || test(changes)) && !test([]) {
      assert TestWith(test, empty, changes).0 == test(changes) && TestWith(test, empty, []) == (false, cache);
      assert one[0] in Elements(one) && Elements(one) !in cache;
      if !test(one) {
        var cache1 := SearchGoesOn(test, cache, changes, [one, one], 0);
        var cache2 := SearchGoesOn(test, cache1, changes, [one, one], 1);
        SearchEnds(test, cache2, changes, [one, one]);
        assert SearchOf(test, changes, [one, one], 1) == None;
        assert DeltaWith(test, cache, changes, [one, one]).0 == changes;
        assert DeltaOf(test, changes, [one, one]) == changes;
      } else {
        SplitIsParts(one);
        assert DeltaOf(test, one, [one]) == one && DeltaWith(test, cache, one, [one]) == (one, cache);
        assert TestWith(test, cache, one) == (true, cache) && SearchOf(test, changes, [one, one], 0) == Some(one);
        assert SearchWith(test, cache, changes, [one, one], 0) == (Some(one), cache);
      }
    }
  }

  /** The run with this cache gives what the run without one gives. */
  ghost predicate Agrees<T(!new)>(test: seq<T> -> bool, cache: set<set<T>>, changes: seq<T>, force: bool) {
    MinimiseWith(test, cache, changes, force).0 == Minimise(test, changes, force)
  }

  lemma FreshCacheAgrees<T(!new)>(test: seq<T> -> bool, changes: seq<T>, force: bool)
    requires Distinct(changes) || |changes| <= 2
    ensures Agrees(test, {}, changes, force)
  {
    if Distinct(changes) {
      CacheIsHarmless(test, {}, changes, force);
    } else {
      TwoAlike(test, changes, force);
    }
  }

  /** A run from an empty cache is 1-minimal or refused, whatever the test, and then just what it is
      without a cache, exactly for changes without repetition and for at most two. */
  lemma FreshCacheIsHarmlessIff<T(!new)>(changes: seq<T>, force: bool)
    ensures (forall test: seq<T> -> bool :: OneMinimalOrRefused(test, changes, force)) <==>
            Distinct(changes) || |changes| <= 2
    ensures (forall test: seq<T> -> bool :: Agrees(test, {}, changes, force)) <==>
            Distinct(changes) || |changes| <= 2
  {
    hide OnlyFailing, Minimised, MinimiseWith, Minimise;
    if Distinct(changes) || |changes| <= 2 {
      forall test: seq<T> -> bool
        ensures Agrees(test, {}, changes, force) && OneMinimalOrRefused(test, changes, force)
      {
        FreshCacheAgrees(test, changes, force);
        RunIsOneMinimal(test, changes, force);
      }
    } else {
      var test := RepetitionIsMissed(changes, force);
      RunIsOneMinimal(test, changes, force);
      assert !Agrees(test, {}, changes, force);
    }
  }

  /** The cache is left behind by an earlier run on the same changes. */
  lemma RepetitionIsRefused<T(!new)>(changes: seq<T>, i: nat, j: nat)
    requires i < j < |changes| && changes[i] == changes[j]
    ensures var test := (s: seq<T>) => s == changes;
      && OnlyFailing(test, changes, {Elements(changes)})
      && !Agrees(test, {Elements(changes)}, changes, false)
  {
    var test := (s: seq<T>) => s == changes;
    hide Subsequence;
    WithoutRepeated(changes, i, j);
    assert MinimiseWith(test, {Elements(changes)}, changes, false).0 == InitialTestFails;
  }

  /** With any cache of failing lists the unforced run is what it is without, whatever the test, exactly
      for changes without repetition. */
  lemma AnyCacheIsHarmlessIff<T(!new)>(changes: seq<T>)
    ensures (forall test: seq<T> -> bool, cache: set<set<T>> ::
              OnlyFailing(test, changes, cache) ==> Agrees(test, cache, changes, false)) <==> Distinct(changes)
  {
    hide OnlyFailing, MinimiseWith, Minimise;
    if Distinct(changes) {
      forall test: seq<T> -> bool, cache: set<set<T>> | OnlyFailing(test, changes, cache)
        ensures Agrees(test, cache, changes, false)
      {
        CacheIsHarmless(test, cache, changes, false);
      }
    } else {
      var i, j :| 0 <= i < j < |changes| && changes[i] == changes[j];
      RepetitionIsRefused(changes, i, j);
    }
  }

  predicate PassesWithTwoZeros(s: seq<int>) {
    s == [0, 1, 0] || s == [0, 0]
  }

  /** The list [0, 1, 0] can do without its 1, but the failure of [0] stands in the cache for [0, 0]
      too, and nothing is taken out: the result is not 1-minimal. */
  lemma RepeatedChangeStays()
    ensures MinimiseWith(PassesWithTwoZeros, {}, [0, 1, 0], false).0 == Success([0, 1, 0])
    ensures PassesWithTwoZeros(Without([0, 1, 0], 1))
  {
    hide SearchWith, DeltaWith, Split, Parts;
    var test, c := PassesWithTwoZeros, [0, 1, 0];
    var empty: set<set<int>> := {};
    var cache := empty + {Elements<int>([])};
    assert TestWith(test, empty, c) == (true, empty) && TestWith(test, empty, []) == (false, cache);
    Halves(c);
    assert FirstHalf(c) == [0];
    FailedHalfHides(test, cache, c);
    assert Elements([0, 0]) == Elements([0]);
    assert Without(c, 1) == [0, 0];
  }

  // ----- the object -----

  class DeltaAlgorithm<T(==, !new)> {
    const test: seq<T> -> bool
    var cache: set<set<T>>

    constructor (test: seq<T> -> bool)
      ensures this.test == test && cache == {}
    {
      this.test := test;
      cache := {};
    }

    method GetTestResult(changes: seq<T>) returns (passes: bool)
      modifies this
      ensures passes <==> Elements(changes) !in old(cache) && test(changes)
      ensures cache == if passes then old(cache) else old(cache) + {Elements(changes)}
      ensures (passes, cache) == TestWith(test, old(cache), changes)
    {
      var changeset := Elements(changes);
      if changeset in cache {
        return false;
      }
      var passed := test(changes);
      if !passed {
        cache := cache + {changeset};
      }
      return passed;
    }

    method Run(changes: seq<T>, force: bool) returns (r: Result<seq<T>>)
      modifies this
      ensures (r, cache) == MinimiseWith(test, old(cache), changes, force)
      ensures Distinct(changes) && OnlyFailing(test, changes, old(cache)) ==>
        r == Minimise(test, changes, force) && OnlyFailing(test, changes, cache)
    {
      hide OnlyFailing, Distinct;
      if Distinct(changes) && OnlyFailing(test, changes, cache) {
        CacheIsHarmless(test, cache, changes, force);
      }
      if !force {
        var initial := GetTestResult(changes);
        if !initial {
          return InitialTestFails;
        }
      }
      var empty := GetTestResult([]);
      if empty {
        return Success([]);
      }
      SplitIsParts(changes);
      var d := DeltaOn(changes, Split(changes));
      return Success(d);
    }

    method DeltaOn(c: seq<T>, sets: seq<seq<T>>) returns (r: seq<T>)
      requires Parts(c, sets)
      modifies this
      ensures (r, cache) == DeltaWith(test, old(cache), c, sets)
      decreases |c|, |c| + 1 - |sets|, |sets| + 1
    {
      if |sets| <= 1 {
        return c;
      }
      var found := Search(c, sets);
      if found.Some? {
        return found.value;
      }
      var refined := Refine(sets);
      RefineKeepsParts(c, sets);
      if |refined| == |sets| {
        return c;
      }
      r := DeltaOn(c, refined);
    }

    method Search(c: seq<T>, sets: seq<seq<T>>) returns (r: Option<seq<T>>)
      requires Parts(c, sets) && |sets| > 1
      modifies this
      ensures (r, cache) == SearchWith(test, old(cache), c, sets, 0)
      decreases |c|, |c| + 1 - |sets|, |sets|
    {
      for i := 0 to |sets|
        invariant SearchWith(test, old(cache), c, sets, 0) == SearchWith(test, cache, c, sets, i)
      {
        PieceIsSmaller(c, sets, i);
        var alone := GetTestResult(sets[i]);
        if alone {
          SplitIsParts(sets[i]);
          var d := DeltaOn(sets[i], Split(sets[i]));
          return Some(d);
        }
        if |sets| > 2 {
          var complement := Flatten(Without(sets, i));
          var rest := GetTestResult(complement);
          if rest {
            var d := DeltaOn(complement, Without(sets, i));
            return Some(d);
          }
        }
      }
      return None;
    }
  }
}
