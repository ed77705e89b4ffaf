/** Finite sums over an interval of ticks and over a finite set, and the few laws
    the scoring proofs need: congruence, linearity, reindexing, exchange. */
module Sums {

  /** f(lo) + ... + f(hi - 1). */
  ghost function SumTo(f: int -> int, lo: int, hi: int): int
    decreases hi - lo
  {
    if lo >= hi then 0 else SumTo(f, lo, hi - 1) + f(hi - 1)
  }

  /** The sum of f over a finite set. */
  ghost function SumOver<T(!new)>(s: set<T>, f: T -> int): int {
    if s == {} then 0 else
    var x :| x in s;
    f(x) + SumOver(s - {x}, f)
  }

  // ----- sums over an interval

  lemma {:induction false} SumToCongruent(f: int -> int, g: int -> int, lo: int, hi: int)
    requires forall t :: lo <= t < hi ==> f(t) == g(t)
    ensures SumTo(f, lo, hi) == SumTo(g, lo, hi)
    decreases hi - lo
  {
    if lo < hi { SumToCongruent(f, g, lo, hi - 1); }
  }

  lemma {:induction false} SumToSplit(f: int -> int, lo: int, mid: int, hi: int)
    requires lo <= mid <= hi
    ensures SumTo(f, lo, hi) == SumTo(f, lo, mid) + SumTo(f, mid, hi)
    decreases hi - mid
  {
    if mid < hi { SumToSplit(f, lo, mid, hi - 1); }
  }

  lemma {:induction false} SumToConstant(f: int -> int, c: int, lo: int, hi: int)
    requires lo <= hi
    requires forall t :: lo <= t < hi ==> f(t) == c
    ensures SumTo(f, lo, hi) == c * (hi - lo)
    decreases hi - lo
  {
    if lo < hi {
      SumToConstant(f, c, lo, hi - 1);
      assert c * (hi - lo) == c * (hi - 1 - lo) + c;
    }
  }

  lemma {:induction false} SumToLinear(f: int -> int, g: int -> int, h: int -> int, lo: int, hi: int, k: int)
    requires forall t :: lo <= t < hi ==> h(t) == f(t) + k * g(t)
    ensures SumTo(h, lo, hi) == SumTo(f, lo, hi) + k * SumTo(g, lo, hi)
    decreases hi - lo
  {
    if lo < hi {
      SumToLinear(f, g, h, lo, hi - 1, k);
      assert k * (SumTo(g, lo, hi - 1) + g(hi - 1)) == k * SumTo(g, lo, hi - 1) + k * g(hi - 1);
    }
  }

  lemma {:induction false} SumToMonotone(f: int -> int, g: int -> int, lo: int, hi: int)
    requires forall t :: lo <= t < hi ==> f(t) <= g(t)
    ensures SumTo(f, lo, hi) <= SumTo(g, lo, hi)
    decreases hi - lo
  {
    if lo < hi { SumToMonotone(f, g, lo, hi - 1); }
  }

  /** A sum of nonnegative terms that is not positive has only zero terms. */
  lemma {:induction false} SumToZeroTerms(f: int -> int, lo: int, hi: int)
    requires forall t :: lo <= t < hi ==> f(t) >= 0
    ensures SumTo(f, lo, hi) >= 0
    ensures SumTo(f, lo, hi) == 0 ==> forall t :: lo <= t < hi ==> f(t) == 0
    decreases hi - lo
  {
    if lo < hi { SumToZeroTerms(f, lo, hi - 1); }
  }

  /** Two intervals that both contain the support of f give the same sum. */
  lemma SumToSupport(f: int -> int, lo: int, hi: int, a: int, b: int)
    requires lo <= hi && a <= b
    requires forall t :: !(lo <= t < hi) ==> f(t) == 0
    requires forall t :: !(a <= t < b) ==> f(t) == 0
    ensures SumTo(f, lo, hi) == SumTo(f, a, b)
  {
    var l := if lo < a then lo else a;
    var h := if hi > b then hi else b;
    SumToSplit(f, l, lo, h);
    SumToSplit(f, lo, hi, h);
    SumToSplit(f, l, a, h);
    SumToSplit(f, a, b, h);
    SumToConstant(f, 0, l, lo);
    SumToConstant(f, 0, hi, h);
    SumToConstant(f, 0, l, a);
    SumToConstant(f, 0, b, h);
  }

  // ----- sums over a set

  /** Any element may be taken out first. */
  lemma {:induction false} SumOverRemove<T(!new)>(s: set<T>, f: T -> int, x: T)
    requires x in s
    ensures SumOver(s, f) == f(x) + SumOver(s - {x}, f)
  {
    var y :| y in s && SumOver(s, f) == f(y) + SumOver(s - {y}, f);
    if y != x {
      SumOverRemove(s - {y}, f, x);
      SumOverRemove(s - {x}, f, y);
      assert s - {y} - {x} == s - {x} - {y};
    }
  }

  lemma SumOverAdd<T(!new)>(s: set<T>, f: T -> int, x: T)
    requires x !in s
    ensures SumOver(s + {x}, f) == f(x) + SumOver(s, f)
  {
    SumOverRemove(s + {x}, f, x);
    assert s + {x} - {x} == s;
  }

  lemma {:induction false} SumOverCongruent<T(!new)>(s: set<T>, f: T -> int, g: T -> int)
    requires forall x :: x in s ==> f(x) == g(x)
    ensures SumOver(s, f) == SumOver(s, g)
  {
    if s != {} {
      var x :| x in s;
      SumOverRemove(s, f, x);
      SumOverRemove(s, g, x);
      SumOverCongruent(s - {x}, f, g);
    }
  }

  lemma {:induction false} SumOverLinear<T(!new)>(s: set<T>, f: T -> int, g: T -> int, h: T -> int, k: int)
    requires forall x :: x in s ==> h(x) == f(x) + k * g(x)
    ensures SumOver(s, h) == SumOver(s, f) + k * SumOver(s, g)
  {
    if s != {} {
      var x :| x in s;
      SumOverRemove(s, f, x);
      SumOverRemove(s, g, x);
      SumOverRemove(s, h, x);
      SumOverLinear(s - {x}, f, g, h, k);
      assert k * (g(x) + SumOver(s - {x}, g)) == k * g(x) + k * SumOver(s - {x}, g);
    }
  }

  lemma {:induction false} SumOverMonotone<T(!new)>(s: set<T>, f: T -> int, g: T -> int)
    requires forall x :: x in s ==> f(x) <= g(x)
    ensures SumOver(s, f) <= SumOver(s, g)
  {
    if s != {} {
      var x :| x in s;
      SumOverRemove(s, f, x);
      SumOverRemove(s, g, x);
      SumOverMonotone(s - {x}, f, g);
    }
  }

  lemma {:induction false} SumOverZeroTerms<T(!new)>(s: set<T>, f: T -> int)
    requires forall x :: x in s ==> f(x) >= 0
    ensures SumOver(s, f) >= 0
    ensures SumOver(s, f) == 0 ==> forall x :: x in s ==> f(x) == 0
  {
    if s != {} {
      var x :| x in s;
      SumOverRemove(s, f, x);
      SumOverZeroTerms(s - {x}, f);
    }
  }

  ghost function Selected<T(!new)>(s: set<T>, p: T -> bool): set<T> { set x | x in s && p(x) }

  /** The sum of an indicator is the number of elements it selects. */
  lemma {:induction false} SumOverIndicator<T(!new)>(s: set<T>, f: T -> int, p: T -> bool)
    requires forall x :: x in s ==> f(x) == if p(x) then 1 else 0
    ensures SumOver(s, f) == |Selected(s, p)|
  {
    if s == {} {
      assert Selected(s, p) == {};
    } else {
      var x :| x in s;
      SumOverRemove(s, f, x);
      SumOverIndicator(s - {x}, f, p);
      var rest := Selected(s - {x}, p);
      assert Selected(s, p) == if p(x) then rest + {x} else rest;
    }
  }

  ghost predicate InjectiveOn<A(!new), B(!new)>(s: set<A>, g: A -> B) {
    forall x, y :: x in s && y in s && g(x) == g(y) ==> x == y
  }

  /** The image of a set under a function. */
  ghost function Image<A(!new), B(!new)>(s: set<A>, g: A -> B): set<B> {
    set x | x in s :: g(x)
  }

  lemma {:induction false} ImageSize<A(!new), B(!new)>(s: set<A>, g: A -> B)
    requires InjectiveOn(s, g)
    ensures |Image(s, g)| == |s|
  {
    if s != {} {
      var x :| x in s;
      ImageSize(s - {x}, g);
      assert Image(s, g) == Image(s - {x}, g) + {g(x)};
      assert g(x) !in Image(s - {x}, g);
    }
  }

  /** Reindexing a sum along an injective function. */
  lemma {:induction false} SumOverImage<A(!new), B(!new)>(s: set<A>, g: A -> B, f: B -> int, h: A -> int)
    requires InjectiveOn(s, g)
    requires forall x :: x in s ==> h(x) == f(g(x))
    ensures SumOver(Image(s, g), f) == SumOver(s, h)
  {
    if s != {} {
      var x :| x in s;
      SumOverImage(s - {x}, g, f, h);
      SumOverRemove(s, h, x);
      assert g(x) !in Image(s - {x}, g);
      assert Image(s, g) == Image(s - {x}, g) + {g(x)};
      SumOverAdd(Image(s - {x}, g), f, g(x));
    }
  }

  /** A subset of the same size is the whole set. */
  lemma SubsetSameSize<T>(a: set<T>, b: set<T>)
    requires a <= b && |a| >= |b|
    ensures a == b
  {
    if a != b {
      var x :| x in b && x !in a;
      SubsetSize(a, b - {x});
    }
  }

  lemma {:induction false} SubsetSize<T>(a: set<T>, b: set<T>)
    requires a <= b
    ensures |a| <= |b|
  {
    if a != {} {
      var x :| x in a;
      SubsetSize(a - {x}, b - {x});
    }
  }

  /** The larger set has an element the smaller one lacks. */
  lemma Spare<T(!new)>(a: set<T>, b: set<T>)
    requires |a| < |b|
    ensures exists x :: x in b && x !in a
  {
    if forall x :: x in b ==> x in a { SubsetSize(b, a); }
  }

  // ----- exchanging the two sums

  ghost function Row<T(!new)>(f: (T, int) -> int, x: T): int -> int { t => f(x, t) }

  ghost function Column<T(!new)>(f: (T, int) -> int, t: int): T -> int { x => f(x, t) }

  ghost function RowSums<T(!new)>(f: (T, int) -> int, lo: int, hi: int): T -> int {
    x => SumTo(Row(f, x), lo, hi)
  }

  ghost function ColumnSums<T(!new)>(f: (T, int) -> int, s: set<T>): int -> int {
    t => SumOver(s, Column(f, t))
  }

  lemma {:induction false} Exchange<T(!new)>(f: (T, int) -> int, s: set<T>, lo: int, hi: int)
    ensures SumTo(ColumnSums(f, s), lo, hi) == SumOver(s, RowSums(f, lo, hi))
    decreases hi - lo
  {
    if lo >= hi {
      SumOverZero(s, RowSums(f, lo, hi));
    } else {
      Exchange(f, s, lo, hi - 1);
      SumOverLinear(s, RowSums(f, lo, hi - 1), Column(f, hi - 1), RowSums(f, lo, hi), 1);
    }
  }

  lemma {:induction false} SumOverZero<T(!new)>(s: set<T>, f: T -> int)
    requires forall x :: x in s ==> f(x) == 0
    ensures SumOver(s, f) == 0
  {
    if s != {} {
      var x :| x in s;
      SumOverRemove(s, f, x);
      SumOverZero(s - {x}, f);
    }
  }
}
