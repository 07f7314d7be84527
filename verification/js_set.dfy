/** JavaScript `Set` semantics over sequences: a set is a duplicate-free
    sequence in insertion order, `add` appends an element only when it is
    absent, and `new Set(xs)` adds the elements of `xs` from left to right. */
module JsSet {

  /** No element occurs twice. */
  ghost predicate NoDups<T>(s: seq<T>)
  {
    forall i, j :: 0 <= i < j < |s| ==> s[i] != s[j]
  }

  /** `set.add(x)`: keeps the existing order and appends `x` when it is new. */
  function Add<T(==,!new)>(s: seq<T>, x: T): (r: seq<T>)
    ensures NoDups(s) ==> NoDups(r)
    ensures forall y :: y in r <==> y in s || y == x
    ensures |s| <= |r| <= |s| + 1 && r[..|s|] == s
    ensures x in s <==> |r| == |s|
  {
    if x in s then s else s + [x]
  }

  /** `new Set(xs)`: the distinct elements of `xs`, in first-occurrence order. */
  function FromSeq<T(==,!new)>(xs: seq<T>): (r: seq<T>)
    ensures NoDups(r)
    ensures forall y :: y in r <==> y in xs
    ensures |r| <= |xs|
  {
    if |xs| == 0 then [] else Add(FromSeq(xs[..|xs| - 1]), xs[|xs| - 1])
  }

  /** Position of the first occurrence of `x` in `xs`; `|xs|` when absent. */
  function FirstIndex<T(==)>(xs: seq<T>, x: T): (i: nat)
    ensures i <= |xs|
    ensures i < |xs| <==> x in xs
    ensures i < |xs| ==> xs[i] == x
    ensures forall j :: 0 <= j < i ==> xs[j] != x
  {
    if |xs| == 0 then 0 else if xs[0] == x then 0 else 1 + FirstIndex(xs[1..], x)
  }

  /** The first index is the one position holding `x` with no `x` before
      it. */
  lemma FirstIndexUnique<T>(xs: seq<T>, x: T, i: nat)
    requires i < |xs| && xs[i] == x
    requires forall j :: 0 <= j < i ==> xs[j] != x
    ensures FirstIndex(xs, x) == i
  {
  }

  /** The elements of `new Set(xs)` appear in the order in which they first
      occur in `xs`. */
  lemma {:induction false} FromSeqFirstOccurrenceOrder<T(!new)>(xs: seq<T>)
    ensures forall i, j :: 0 <= i < j < |FromSeq(xs)| ==>
      FirstIndex(xs, FromSeq(xs)[i]) < FirstIndex(xs, FromSeq(xs)[j])
  {
    if |xs| > 0 {
      var n := |xs| - 1;
      FromSeqFirstOccurrenceOrder(xs[..n]);
      var r := FromSeq(xs);
      forall i, j | 0 <= i < j < |r|
        ensures FirstIndex(xs, r[i]) < FirstIndex(xs, r[j])
      {
        OrderAfterAdd(xs, FromSeq(xs[..n]), i, j);
      }
    }
  }

  /** One insertion step of `FromSeqFirstOccurrenceOrder`. */
  lemma OrderAfterAdd<T(!new)>(xs: seq<T>, prev: seq<T>, i: nat, j: nat)
    requires |xs| > 0 && prev == FromSeq(xs[..|xs| - 1])
    requires forall i, j :: 0 <= i < j < |prev| ==>
      FirstIndex(xs[..|xs| - 1], prev[i]) < FirstIndex(xs[..|xs| - 1], prev[j])
    requires i < j < |Add(prev, xs[|xs| - 1])|
    ensures FirstIndex(xs, Add(prev, xs[|xs| - 1])[i]) < FirstIndex(xs, Add(prev, xs[|xs| - 1])[j])
  {
    var n := |xs| - 1;
    var r := Add(prev, xs[n]);
    assert i < |prev| && r[i] == prev[i] by {
      assert r[..|prev|] == prev;
      assert r[..|prev|][i] == r[i];
    }
    KeptElementIndex(xs, prev[i]);
    if j < |prev| {
      assert r[j] == prev[j] by {
        assert r[..|prev|] == prev;
        assert r[..|prev|][j] == r[j];
      }
      KeptElementIndex(xs, prev[j]);
    } else {
      // r[j] is the newly added last element, absent from the prefix
      assert r[j] == xs[n] && xs[n] !in xs[..n] by {
        assert r == prev + [xs[n]];
      }
      FirstIndexOfFresh(xs);
    }
  }

  /** An element of the prefix keeps its first index, which lies inside
      the prefix. */
  lemma KeptElementIndex<T>(xs: seq<T>, x: T)
    requires |xs| > 0 && x in xs[..|xs| - 1]
    ensures FirstIndex(xs, x) == FirstIndex(xs[..|xs| - 1], x) < |xs| - 1
  {
    var init := xs[..|xs| - 1];
    var f := FirstIndex(init, x);
    assert xs[f] == init[f];
    forall j | 0 <= j < f
      ensures xs[j] != x
    {
      assert xs[j] == init[j];
    }
    FirstIndexUnique(xs, x, f);
  }

  /** An element absent from the prefix first occurs at the end. */
  lemma FirstIndexOfFresh<T>(xs: seq<T>)
    requires |xs| > 0 && xs[|xs| - 1] !in xs[..|xs| - 1]
    ensures FirstIndex(xs, xs[|xs| - 1]) == |xs| - 1
  {
    var n := |xs| - 1;
    forall j | 0 <= j < n
      ensures xs[j] != xs[n]
    {
      assert xs[j] == xs[..n][j];
    }
  }

  /** A sequence that is already duplicate-free is its own `Set`. */
  lemma {:induction false} FromSeqOfSet<T(!new)>(xs: seq<T>)
    requires NoDups(xs)
    ensures FromSeq(xs) == xs
  {
    if |xs| > 0 {
      var n := |xs| - 1;
      assert NoDups(xs[..n]);
      FromSeqOfSet(xs[..n]);
      assert xs[n] !in xs[..n];
      assert xs[..n] + [xs[n]] == xs;
    }
  }

  /** Adding one more element to the source list adds it to the set. */
  lemma FromSeqSnoc<T(!new)>(xs: seq<T>, x: T)
    ensures FromSeq(xs + [x]) == Add(FromSeq(xs), x)
  {
    assert (xs + [x])[..|xs|] == xs;
  }

  /** `new Set([...new Set(a), ...b])` equals `new Set([...a, ...b])`: folding
      with a set accumulator is the same as building one set from the
      concatenation. */
  lemma {:induction false} FromSeqAbsorbs<T(!new)>(a: seq<T>, b: seq<T>)
    ensures FromSeq(FromSeq(a) + b) == FromSeq(a + b)
  {
    if |b| == 0 {
      assert FromSeq(a) + b == FromSeq(a);
      assert a + b == a;
      FromSeqOfSet(FromSeq(a));
    } else {
      var m := |b| - 1;
      var left, right := FromSeq(a) + b[..m], a + b[..m];
      assert FromSeq(a) + b == left + [b[m]];
      assert a + b == right + [b[m]];
      calc {
        FromSeq(FromSeq(a) + b);
        FromSeq(left + [b[m]]);
        { FromSeqSnoc(left, b[m]); }
        Add(FromSeq(left), b[m]);
        { FromSeqAbsorbs(a, b[..m]); }
        Add(FromSeq(right), b[m]);
        { FromSeqSnoc(right, b[m]); }
        FromSeq(right + [b[m]]);
        FromSeq(a + b);
      }
    }
  }

  /** `new Set([...a, ...new Set(b)])` equals `new Set([...a, ...b])`: a
      repeat inside `b` changes nothing, since its first copy already
      follows `a`. */
  lemma {:induction false} FromSeqAbsorbsRight<T(!new)>(a: seq<T>, b: seq<T>)
    ensures FromSeq(a + FromSeq(b)) == FromSeq(a + b)
  {
    if |b| == 0 {
      assert FromSeq(b) == [] == b;
    } else {
      var m := |b| - 1;
      var init, x := b[..m], b[m];
      assert init + [x] == b;
      FromSeqAbsorbsRight(a, init);
      AbsorbsRightStep(a, init, x);
    }
  }

  /** The inductive step of `FromSeqAbsorbsRight`: one more element of `b`. */
  lemma AbsorbsRightStep<T(!new)>(a: seq<T>, init: seq<T>, x: T)
    requires FromSeq(a + FromSeq(init)) == FromSeq(a + init)
    ensures FromSeq(a + FromSeq(init + [x])) == FromSeq(a + (init + [x]))
  {
    assert a + (init + [x]) == (a + init) + [x];
    if x in init {
      AbsorbsRepeat(a, init, x);
    } else {
      AbsorbsFresh(a, init, x);
    }
  }

  /** A repeated element of `b` changes neither side. */
  lemma AbsorbsRepeat<T(!new)>(a: seq<T>, init: seq<T>, x: T)
    requires x in init
    requires FromSeq(a + FromSeq(init)) == FromSeq(a + init)
    ensures FromSeq(a + FromSeq(init + [x])) == FromSeq((a + init) + [x])
  {
    FromSeqSnoc(init, x);
    FromSeqSnoc(a + init, x);
  }

  /** A fresh element of `b` is appended on both sides. */
  lemma AbsorbsFresh<T(!new)>(a: seq<T>, init: seq<T>, x: T)
    requires x !in init
    requires FromSeq(a + FromSeq(init)) == FromSeq(a + init)
    ensures FromSeq(a + FromSeq(init + [x])) == FromSeq((a + init) + [x])
  {
    FreshIsAppended(init, x);
    SnocAfter(a, FromSeq(init), x);
    FromSeqSnoc(a + init, x);
  }

  /** A fresh element is appended to the set. */
  lemma FreshIsAppended<T(!new)>(xs: seq<T>, x: T)
    requires x !in xs
    ensures FromSeq(xs + [x]) == FromSeq(xs) + [x]
  {
    FromSeqSnoc(xs, x);
  }

  /** `FromSeqSnoc` for an element appended after two parts. */
  lemma SnocAfter<T(!new)>(a: seq<T>, s: seq<T>, x: T)
    ensures FromSeq(a + (s + [x])) == Add(FromSeq(a + s), x)
  {
    assert a + (s + [x]) == (a + s) + [x];
    FromSeqSnoc(a + s, x);
  }

  /** `new Set([...new Set(a), ...new Set(b)])` equals `new Set([...a, ...b])`. */
  lemma FromSeqUnion<T(!new)>(a: seq<T>, b: seq<T>)
    ensures FromSeq(FromSeq(a) + FromSeq(b)) == FromSeq(a + b)
  {
    FromSeqAbsorbs(a, FromSeq(b));
    FromSeqAbsorbsRight(a, b);
  }

  // ---------------------------------------------------------------------
  // A characterization of `new Set(xs)` independent of its construction

  /** The elements of `r` appear in the order of their first occurrence in
      `xs`, each once. */
  ghost predicate InFirstOccurrenceOrder<T>(r: seq<T>, xs: seq<T>)
  {
    forall i, j :: 0 <= i < j < |r| ==> FirstIndex(xs, r[i]) < FirstIndex(xs, r[j])
  }

  /** `r` is what `new Set(xs)` holds: exactly the elements of `xs`, in the
      order of their first occurrence. */
  ghost predicate IsSetOf<T(!new)>(r: seq<T>, xs: seq<T>)
  {
    (forall y :: y in r <==> y in xs) && InFirstOccurrenceOrder(r, xs)
  }

  /** The characterization fixes the `Set` uniquely: a sequence holds what
      `new Set(xs)` holds exactly when it is `new Set(xs)`. */
  lemma SetOfIsFromSeq<T(!new)>(r: seq<T>, xs: seq<T>)
    ensures IsSetOf(r, xs) <==> r == FromSeq(xs)
  {
    FromSeqFirstOccurrenceOrder(xs);
    if IsSetOf(r, xs) {
      OrderedUnique(r, FromSeq(xs), xs);
    }
  }

  /** Two sequences over elements of `xs` with the same members, both in
      first-occurrence order, are equal. */
  lemma {:induction false} OrderedUnique<T(!new)>(r: seq<T>, s: seq<T>, xs: seq<T>)
    requires InFirstOccurrenceOrder(r, xs) && InFirstOccurrenceOrder(s, xs)
    requires NoDups(r) && NoDups(s)
    requires forall y :: y in r <==> y in s
    requires forall y :: y in r ==> y in xs
    ensures r == s
    decreases |r|
  {
    SameMembersSameLength(r, s);
    if |r| > 0 {
      HeadsEqual(r, s, xs);
      forall y
        ensures y in r[1..] <==> y in s[1..]
      {
        TailMembers(r, xs, y);
        TailMembers(s, xs, y);
      }
      OrderedUnique(r[1..], s[1..], xs);
    }
  }

  /** Duplicate-free sequences with the same members have the same
      length. */
  lemma SameMembersSameLength<T>(r: seq<T>, s: seq<T>)
    requires NoDups(r) && NoDups(s)
    requires forall y :: y in r <==> y in s
    ensures |r| == |s|
  {
    CardOfNoDups(r);
    CardOfNoDups(s);
    assert (set y | y in r) == (set y | y in s);
  }

  /** Ordered sequences with the same members, over elements of `xs`,
      start with the same element: the one occurring first in `xs`. */
  lemma HeadsEqual<T(!new)>(r: seq<T>, s: seq<T>, xs: seq<T>)
    requires InFirstOccurrenceOrder(r, xs) && InFirstOccurrenceOrder(s, xs)
    requires |r| > 0 && |s| > 0
    requires forall y :: y in r <==> y in s
    requires forall y :: y in r ==> y in xs
    ensures r[0] == s[0]
  {
    var a, b := r[0], s[0];
    assert a in s && b in r;
    assert FirstIndex(xs, a) <= FirstIndex(xs, b) by {
      forall k | 0 <= k < |r| ensures FirstIndex(xs, a) <= FirstIndex(xs, r[k]) { }
    }
    assert FirstIndex(xs, b) <= FirstIndex(xs, a) by {
      forall k | 0 <= k < |s| ensures FirstIndex(xs, b) <= FirstIndex(xs, s[k]) { }
    }
    assert xs[FirstIndex(xs, a)] == a && xs[FirstIndex(xs, b)] == b;
  }

  /** A duplicate-free sequence has as many elements as its set of
      members. */
  lemma {:induction false} CardOfNoDups<T>(r: seq<T>)
    requires NoDups(r)
    ensures |set y | y in r| == |r|
  {
    if |r| > 0 {
      var n := |r| - 1;
      assert NoDups(r[..n]);
      CardOfNoDups(r[..n]);
      assert (set y | y in r) == (set y | y in r[..n]) + {r[n]};
      assert r[n] !in r[..n];
    }
  }

  /** The tail of an ordered sequence holds its members other than the
      head. */
  lemma TailMembers<T>(r: seq<T>, xs: seq<T>, y: T)
    requires |r| > 0 && InFirstOccurrenceOrder(r, xs)
    ensures y in r[1..] <==> y in r && y != r[0]
  {
    if y in r[1..] {
      var k :| 0 <= k < |r[1..]| && r[1..][k] == y;
      assert r[k + 1] == y;
    }
  }
}
