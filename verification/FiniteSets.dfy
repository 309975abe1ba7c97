/** Finite sets. */
module FiniteSets {

  lemma Some<T>(s: set<T>) returns (x: T)
    requires s != {}
    ensures x in s
  {
    x :| x in s;
  }

  lemma {:induction false} SubsetCard<T>(a: set<T>, b: set<T>)
    requires a <= b
    ensures |a| <= |b|
    decreases a
  {
    if a != {} {
      var x := Some(a);
      SubsetCard(a - {x}, b - {x});
    }
  }

  /** A set with an injection into the naturals below `n` has at most `n` elements. */
  lemma {:induction false} InjectionBound<T>(s: set<T>, f: T --> int, n: nat)
    requires forall x :: x in s ==> f.requires(x) && 0 <= f(x) < n
    requires forall x, y :: x in s && y in s && f(x) == f(y) ==> x == y
    ensures |s| <= n
    decreases n
  {
    if n == 0 {
      if s != {} {
        var x := Some(s);
        assert false;
      }
    } else if x :| x in s && f(x) == n - 1 {
      InjectionBound(s - {x}, f, n - 1);
      assert s == s - {x} + {x};
    } else {
      InjectionBound(s, f, n - 1);
    }
  }
}
