/** Cardinalities of finite sets of table indices, and sums of equal steps. */
module Counting {

  function Range(lo: int, hi: int): (r: set<int>)
    ensures forall x :: x in r <==> lo <= x < hi
    decreases hi - lo
  {
    if lo >= hi then {} else Range(lo, hi - 1) + {hi - 1}
  }

  lemma {:induction false} RangeSize(lo: int, hi: int)
    requires lo <= hi
    ensures |Range(lo, hi)| == hi - lo
    decreases hi - lo
  {
    if lo < hi {
      RangeSize(lo, hi - 1);
      assert Range(lo, hi) == Range(lo, hi - 1) + {hi - 1};
    }
  }

  lemma SubsetSize<T>(a: set<T>, b: set<T>)
    requires a <= b
    ensures |a| <= |b|
  {
    assert b == a + (b - a);
  }

  predicate InjectiveMod(s: set<int>, c: int)
    requires c > 0
  {
    forall i, j :: i in s && j in s && i != j ==> i % c != j % c
  }

  function Slots(s: set<int>, c: int): set<int>
    requires c > 0
  {
    set i | i in s :: i % c
  }

  /** Pigeonhole: indices that fall into pairwise different slots are no more than the slots. */
  lemma Pigeonhole(s: set<int>, c: int)
    requires c > 0 && InjectiveMod(s, c)
    ensures |s| <= c
  {
    SlotsSize(s, c);
    assert Slots(s, c) <= Range(0, c);
    SubsetSize(Slots(s, c), Range(0, c));
    RangeSize(0, c);
  }

  lemma {:induction false} SlotsSize(s: set<int>, c: int)
    requires c > 0 && InjectiveMod(s, c)
    ensures |Slots(s, c)| == |s|
    decreases s
  {
    if s != {} {
      var x := Pick(s);
      var rest := s - {x};
      SlotsSize(rest, c);
      assert x % c !in Slots(rest, c);
      assert Slots(s, c) == Slots(rest, c) + {x % c} by {
        forall y | y in Slots(s, c)
          ensures y in Slots(rest, c) + {x % c}
        {
          var i :| i in s && i % c == y;
          assert i == x || i in rest;
        }
        assert x in s;
      }
    }
  }

  lemma Pick<T>(s: set<T>) returns (x: T)
    requires s != {}
    ensures x in s
  {
    x :| x in s;
  }

  /** A set that maps into another without two elements meeting is no larger. */
  lemma {:induction false} InjectionSize(s: set<int>, t: set<int>, f: map<int, int>)
    requires forall i :: i in s ==> i in f && f[i] in t
    requires forall i, j :: i in s && j in s && i != j ==> f[i] != f[j]
    ensures |s| <= |t|
    decreases s
  {
    if s != {} {
      var x := Pick(s);
      InjectionSize(s - {x}, t - {f[x]}, f);
    }
  }

  /** The length of `n` steps of length `step`. */
  function Times(n: nat, step: nat): nat {
    if n == 0 then 0 else Times(n - 1, step) + step
  }

  lemma TimesMonotone(m: nat, n: nat, step: nat)
    requires m <= n
    ensures Times(m, step) <= Times(n, step)
  {
  }

  lemma TimesIsProduct(n: nat, step: nat)
    ensures Times(n, step) == n * step
  {
  }
}
