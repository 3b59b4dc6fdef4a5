/** A stable insertion sort under any comparator that is a total preorder,
    the behaviour JavaScript's `Array.prototype.sort` guarantees for a
    consistent comparator. */
module StableSort {

  /** `cmp` is consistent: swapping the arguments negates the result, and
      "no later than" (`cmp(a, b) <= 0`) is transitive. */
  ghost predicate IsPreorder<T(!new)>(cmp: (T, T) -> int) {
    && (forall a, b :: cmp(a, b) == -cmp(b, a))
    && (forall a, b, c :: cmp(a, b) <= 0 && cmp(b, c) <= 0 ==> cmp(a, c) <= 0)
  }

  /** Every earlier element sorts no later than every later one. */
  ghost predicate Ordered<T>(s: seq<T>, cmp: (T, T) -> int) {
    forall i, j :: 0 <= i < j < |s| ==> cmp(s[i], s[j]) <= 0
  }

  lemma PrependOrdered<T>(x: T, s: seq<T>, cmp: (T, T) -> int)
    requires Ordered(s, cmp)
    requires forall y | y in s :: cmp(x, y) <= 0
    ensures Ordered([x] + s, cmp)
  {
    var r := [x] + s;
    forall i, j | 0 <= i < j < |r|
      ensures cmp(r[i], r[j]) <= 0
    {
      if i == 0 {
        assert r[j] == s[j - 1] && r[j] in s;
      } else {
        assert r[i] == s[i - 1] && r[j] == s[j - 1];
      }
    }
  }

  lemma HeadSortsFirst<T(!new)>(s: seq<T>, cmp: (T, T) -> int)
    requires IsPreorder(cmp) && Ordered(s, cmp) && |s| > 0
    ensures forall y | y in s :: cmp(s[0], y) <= 0
  {
    forall y | y in s
      ensures cmp(s[0], y) <= 0
    {
      var k :| 0 <= k < |s| && s[k] == y;
      if k == 0 {
        assert cmp(y, y) == -cmp(y, y);
      }
    }
  }

  lemma BelowHeadBelowAll<T(!new)>(x: T, s: seq<T>, cmp: (T, T) -> int)
    requires IsPreorder(cmp) && Ordered(s, cmp) && |s| > 0
    requires cmp(x, s[0]) < 0
    ensures forall y | y in s :: cmp(x, y) < 0
  {
    HeadSortsFirst(s, cmp);
    forall y | y in s
      ensures cmp(x, y) < 0
    {
      assert cmp(x, y) <= 0;
    }
  }

  lemma HeadBelowRest<T(!new)>(x: T, s: seq<T>, rest: seq<T>, cmp: (T, T) -> int)
    requires IsPreorder(cmp) && Ordered(s, cmp) && |s| > 0 && cmp(s[0], x) <= 0
    requires multiset(rest) == multiset(s[1..]) + multiset{x}
    ensures forall y | y in rest :: cmp(s[0], y) <= 0
  {
    HeadSortsFirst(s, cmp);
    forall y | y in rest
      ensures cmp(s[0], y) <= 0
    {
      assert y in multiset(rest);
      if y != x {
        assert y in multiset(s[1..]);
        assert y in s[1..];
        assert y in s;
      }
    }
  }

  /** Keeping the head in front of an ordered insertion into the tail. */
  lemma ConsAfterHead<T(!new)>(x: T, s: seq<T>, rest: seq<T>, cmp: (T, T) -> int)
    requires IsPreorder(cmp) && Ordered(s, cmp) && |s| > 0 && cmp(s[0], x) <= 0
    requires multiset(rest) == multiset(s[1..]) + multiset{x} && Ordered(rest, cmp)
    ensures multiset([s[0]] + rest) == multiset(s) + multiset{x}
    ensures Ordered([s[0]] + rest, cmp)
  {
    HeadBelowRest(x, s, rest, cmp);
    PrependOrdered(s[0], rest, cmp);
    assert s == [s[0]] + s[1..];
  }

  /** Putting `x` in front of an ordered sequence whose head sorts after it. */
  lemma ConsBeforeHead<T(!new)>(x: T, s: seq<T>, cmp: (T, T) -> int)
    requires IsPreorder(cmp) && Ordered(s, cmp) && |s| > 0 && cmp(s[0], x) > 0
    ensures Ordered([x] + s, cmp)
  {
    assert cmp(x, s[0]) < 0;
    BelowHeadBelowAll(x, s, cmp);
    PrependOrdered(x, s, cmp);
  }

  /** Inserts `x` into an ordered sequence after every element that sorts
      no later than it, so `x` follows the elements it ties with. */
  function Insert<T(!new)>(x: T, s: seq<T>, cmp: (T, T) -> int): (r: seq<T>)
    requires IsPreorder(cmp) && Ordered(s, cmp)
    ensures multiset(r) == multiset(s) + multiset{x}
    ensures Ordered(r, cmp)
  {
    if |s| == 0 then [x]
    else if cmp(s[0], x) <= 0 then
      var rest := Insert(x, s[1..], cmp);
      ConsAfterHead(x, s, rest, cmp);
      [s[0]] + rest
    else
      ConsBeforeHead(x, s, cmp);
      [x] + s
  }

  /** Sorts `s` by inserting its elements one by one, first to last. */
  function Sort<T(!new)>(s: seq<T>, cmp: (T, T) -> int): (r: seq<T>)
    requires IsPreorder(cmp)
    ensures multiset(r) == multiset(s)
    ensures |r| == |s|
    ensures Ordered(r, cmp)
  {
    if |s| == 0 then []
    else
      var init := s[..|s| - 1];
      var last := s[|s| - 1];
      assert s == init + [last];
      assert multiset(s) == multiset(init) + multiset{last};
      Insert(last, Sort(init, cmp), cmp)
  }

  /** The elements of `s` that satisfy `f`, in their order in `s`. */
  function Keep<T>(s: seq<T>, f: T -> bool): seq<T> {
    if |s| == 0 then []
    else (if f(s[0]) then [s[0]] else []) + Keep(s[1..], f)
  }

  lemma {:induction false} KeepAppend<T>(a: seq<T>, b: seq<T>, f: T -> bool)
    ensures Keep(a + b, f) == Keep(a, f) + Keep(b, f)
  {
    if |a| > 0 {
      assert (a + b)[0] == a[0];
      assert (a + b)[1..] == a[1..] + b;
      KeepAppend(a[1..], b, f);
    } else {
      assert a + b == b;
    }
  }

  lemma {:induction false} KeepNone<T>(s: seq<T>, f: T -> bool)
    requires forall y | y in s :: !f(y)
    ensures Keep(s, f) == []
  {
    if |s| > 0 {
      assert s[0] in s;
      KeepNone(s[1..], f);
    }
  }

  /** The elements of `s` that tie with `p`, in their order in `s`. */
  function TiedWith<T>(s: seq<T>, p: T, cmp: (T, T) -> int): seq<T> {
    Keep(s, y => cmp(y, p) == 0)
  }

  lemma TiedWithAppend<T>(a: seq<T>, b: seq<T>, p: T, cmp: (T, T) -> int)
    ensures TiedWith(a + b, p, cmp) == TiedWith(a, p, cmp) + TiedWith(b, p, cmp)
  {
    KeepAppend(a, b, y => cmp(y, p) == 0);
  }

  lemma TiedWithNone<T>(s: seq<T>, p: T, cmp: (T, T) -> int)
    requires forall y | y in s :: cmp(y, p) != 0
    ensures TiedWith(s, p, cmp) == []
  {
    KeepNone(s, y => cmp(y, p) == 0);
  }

  lemma TiedWithSingle<T>(x: T, p: T, cmp: (T, T) -> int)
    ensures TiedWith([x], p, cmp) == if cmp(x, p) == 0 then [x] else []
  {
    var f := y => cmp(y, p) == 0;
    assert [x][1..] == [];
    assert Keep([x], f) == (if f(x) then [x] else []) + Keep([], f);
  }

  lemma OrderedTail<T>(s: seq<T>, cmp: (T, T) -> int)
    requires Ordered(s, cmp) && |s| > 0
    ensures Ordered(s[1..], cmp)
  {
    forall i, j | 0 <= i < j < |s| - 1
      ensures cmp(s[1..][i], s[1..][j]) <= 0
    {
      assert s[1..][i] == s[i + 1] && s[1..][j] == s[j + 1];
    }
  }

  /** Inserting `x` puts it after every element it ties with. */
  lemma {:induction false} InsertStable<T(!new)>(x: T, s: seq<T>, p: T, cmp: (T, T) -> int)
    requires IsPreorder(cmp) && Ordered(s, cmp)
    ensures TiedWith(Insert(x, s, cmp), p, cmp) == TiedWith(s, p, cmp) + TiedWith([x], p, cmp)
  {
    if |s| == 0 {
      assert s + [x] == [x];
      TiedWithAppend(s, [x], p, cmp);
    } else if cmp(s[0], x) <= 0 {
      OrderedTail(s, cmp);
      InsertStable(x, s[1..], p, cmp);
      assert Insert(x, s, cmp) == [s[0]] + Insert(x, s[1..], cmp);
      assert s == [s[0]] + s[1..];
      ConsKeepsTies(s[0], s[1..], Insert(x, s[1..], cmp), x, p, cmp);
    } else {
      InsertStableInFront(x, s, p, cmp);
    }
  }

  lemma ConsKeepsTies<T>(h: T, tail: seq<T>, rest: seq<T>, x: T, p: T, cmp: (T, T) -> int)
    requires TiedWith(rest, p, cmp) == TiedWith(tail, p, cmp) + TiedWith([x], p, cmp)
    ensures TiedWith([h] + rest, p, cmp) == TiedWith([h] + tail, p, cmp) + TiedWith([x], p, cmp)
  {
    TiedWithAppend([h], rest, p, cmp);
    TiedWithAppend([h], tail, p, cmp);
  }

  /** An element sorting strictly before the head of an ordered sequence
      ties with nothing in it that `p` ties with, when it ties with `p`. */
  lemma NoTieAfterStrictlyBelow<T(!new)>(x: T, s: seq<T>, p: T, cmp: (T, T) -> int)
    requires IsPreorder(cmp) && Ordered(s, cmp) && |s| > 0
    requires cmp(x, s[0]) < 0 && cmp(x, p) == 0
    ensures TiedWith(s, p, cmp) == []
  {
    BelowHeadBelowAll(x, s, cmp);
    forall y | y in s
      ensures cmp(y, p) != 0
    {
      assert cmp(x, y) < 0;
    }
    TiedWithNone(s, p, cmp);
  }

  /** An element sorting strictly before the head goes in front. */
  lemma InsertInFront<T(!new)>(x: T, s: seq<T>, cmp: (T, T) -> int)
    requires IsPreorder(cmp) && Ordered(s, cmp) && |s| > 0 && cmp(s[0], x) > 0
    ensures Insert(x, s, cmp) == [x] + s
  {
  }

  lemma InsertStableInFront<T(!new)>(x: T, s: seq<T>, p: T, cmp: (T, T) -> int)
    requires IsPreorder(cmp) && Ordered(s, cmp) && |s| > 0 && cmp(s[0], x) > 0
    ensures TiedWith(Insert(x, s, cmp), p, cmp) == TiedWith(s, p, cmp) + TiedWith([x], p, cmp)
  {
    InsertInFront(x, s, cmp);
    TiedWithAppend([x], s, p, cmp);
    TiedWithSingle(x, p, cmp);
    if cmp(x, p) == 0 {
      NoTieAfterStrictlyBelow(x, s, p, cmp);
    }
  }

  /** The sort is stable: the elements that tie with any `p` come out in
      the order they went in. */
  lemma {:induction false} SortStable<T(!new)>(s: seq<T>, p: T, cmp: (T, T) -> int)
    requires IsPreorder(cmp)
    ensures TiedWith(Sort(s, cmp), p, cmp) == TiedWith(s, p, cmp)
  {
    if |s| > 0 {
      var init := s[..|s| - 1];
      var last := s[|s| - 1];
      assert s == init + [last];
      SortStable(init, p, cmp);
      InsertStable(last, Sort(init, cmp), p, cmp);
      TiedWithAppend(init, [last], p, cmp);
      SortLast(s, cmp);
    }
  }

  /** Inserting an element that sorts no earlier than everything already
      there appends it. */
  lemma {:induction false} InsertAfterAll<T(!new)>(x: T, s: seq<T>, cmp: (T, T) -> int)
    requires IsPreorder(cmp) && Ordered(s, cmp)
    requires forall y | y in s :: cmp(y, x) <= 0
    ensures Insert(x, s, cmp) == s + [x]
  {
    if |s| > 0 {
      OrderedTail(s, cmp);
      AllBelowTail(x, s, cmp);
      InsertAfterAll(x, s[1..], cmp);
      InsertPastHead(x, s, cmp);
      ConsSnoc(s, x);
    }
  }

  lemma ConsSnoc<T>(s: seq<T>, x: T)
    requires |s| > 0
    ensures [s[0]] + (s[1..] + [x]) == s + [x]
  {
    assert s == [s[0]] + s[1..];
  }

  lemma AllBelowTail<T>(x: T, s: seq<T>, cmp: (T, T) -> int)
    requires |s| > 0 && forall y | y in s :: cmp(y, x) <= 0
    ensures cmp(s[0], x) <= 0 && forall y | y in s[1..] :: cmp(y, x) <= 0
  {
    assert s[0] in s;
    forall y | y in s[1..]
      ensures cmp(y, x) <= 0
    {
      assert y in s;
    }
  }

  /** An element sorting no earlier than the head is inserted into the tail. */
  lemma InsertPastHead<T(!new)>(x: T, s: seq<T>, cmp: (T, T) -> int)
    requires IsPreorder(cmp) && Ordered(s, cmp) && |s| > 0 && cmp(s[0], x) <= 0
    ensures Ordered(s[1..], cmp)
    ensures Insert(x, s, cmp) == [s[0]] + Insert(x, s[1..], cmp)
  {
    OrderedTail(s, cmp);
  }

  /** Dropping the last element of an ordered sequence keeps it ordered,
      and that element sorts no earlier than any of the others. */
  lemma OrderedInit<T>(init: seq<T>, last: T, cmp: (T, T) -> int)
    requires Ordered(init + [last], cmp)
    ensures Ordered(init, cmp)
    ensures forall y | y in init :: cmp(y, last) <= 0
  {
    var s := init + [last];
    forall i, j | 0 <= i < j < |init|
      ensures cmp(init[i], init[j]) <= 0
    {
      assert init[i] == s[i] && init[j] == s[j];
    }
    forall y | y in init
      ensures cmp(y, last) <= 0
    {
      var k :| 0 <= k < |init| && init[k] == y;
      assert init[k] == s[k] && last == s[|init|];
    }
  }

  /** Sorting a sequence that is already ordered leaves it as it is. */
  lemma {:induction false} SortOrderedIsIdentity<T(!new)>(s: seq<T>, cmp: (T, T) -> int)
    requires IsPreorder(cmp) && Ordered(s, cmp)
    ensures Sort(s, cmp) == s
  {
    if |s| > 0 {
      var init := s[..|s| - 1];
      var last := s[|s| - 1];
      assert s == init + [last];
      OrderedInit(init, last, cmp);
      SortOrderedIsIdentity(init, cmp);
      InsertAfterAll(last, init, cmp);
      SortLast(s, cmp);
      assert Sort(s, cmp) == Insert(last, init, cmp);
    }
  }

  /** The last element is inserted into the sorted rest. */
  lemma SortLast<T(!new)>(s: seq<T>, cmp: (T, T) -> int)
    requires IsPreorder(cmp) && |s| > 0
    ensures Sort(s, cmp) == Insert(s[|s| - 1], Sort(s[..|s| - 1], cmp), cmp)
  {
  }

  /** Sorting twice is sorting once. */
  lemma SortIdempotent<T(!new)>(s: seq<T>, cmp: (T, T) -> int)
    requires IsPreorder(cmp)
    ensures Sort(Sort(s, cmp), cmp) == Sort(s, cmp)
  {
    SortOrderedIsIdentity(Sort(s, cmp), cmp);
  }
}
