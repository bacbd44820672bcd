/** Key sequences by length, and among those of one length in the order of a dictionary. */
module Shortlex {

  /** A total order without equals, as keys of an ordered map have. */
  ghost predicate StrictOrder<T(!new)>(less: (T, T) -> bool) {
    && (forall a :: !less(a, a))
    && (forall a, b :: a != b ==> less(a, b) || less(b, a))
    && (forall a, b, c :: less(a, b) && less(b, c) ==> less(a, c))
  }

  /** Dictionary order on sequences of one length: the fronts decide, and between equal fronts the last keys. */
  ghost predicate Lex<T>(less: (T, T) -> bool, p: seq<T>, q: seq<T>)
    requires |p| == |q|
  {
    p != [] && var n := |p| - 1; Lex(less, p[..n], q[..n]) || (p[..n] == q[..n] && less(p[n], q[n]))
  }

  ghost predicate Before<T>(less: (T, T) -> bool, p: seq<T>, q: seq<T>) {
    |p| < |q| || (|p| == |q| && Lex(less, p, q))
  }

  ghost predicate AtMost<T>(less: (T, T) -> bool, p: seq<T>, q: seq<T>) {
    p == q || Before(less, p, q)
  }

  lemma {:induction false} LexIrreflexive<T(!new)>(less: (T, T) -> bool, p: seq<T>)
    requires StrictOrder(less)
    ensures !Lex(less, p, p)
  {
    if p != [] {
      LexIrreflexive(less, p[..|p| - 1]);
    }
  }

  lemma {:induction false} LexTransitive<T(!new)>(less: (T, T) -> bool, p: seq<T>, q: seq<T>, r: seq<T>)
    requires StrictOrder(less) && |p| == |q| == |r| && Lex(less, p, q) && Lex(less, q, r)
    ensures Lex(less, p, r)
  {
    var n := |p| - 1;
    if Lex(less, p[..n], q[..n]) && Lex(less, q[..n], r[..n]) {
      LexTransitive(less, p[..n], q[..n], r[..n]);
    }
  }

  lemma {:induction false} LexTotal<T(!new)>(less: (T, T) -> bool, p: seq<T>, q: seq<T>)
    requires StrictOrder(less) && |p| == |q|
    ensures p == q || Lex(less, p, q) || Lex(less, q, p)
  {
    if p != [] {
      var n := |p| - 1;
      LexTotal(less, p[..n], q[..n]);
      if p[..n] == q[..n] && p[n] == q[n] {
        assert p == p[..n] + [p[n]] && q == q[..n] + [q[n]];
      }
    }
  }

  lemma BeforeIrreflexive<T(!new)>(less: (T, T) -> bool, p: seq<T>)
    requires StrictOrder(less)
    ensures !Before(less, p, p)
  {
    LexIrreflexive(less, p);
  }

  lemma BeforeTransitive<T(!new)>(less: (T, T) -> bool, p: seq<T>, q: seq<T>, r: seq<T>)
    requires StrictOrder(less) && AtMost(less, p, q) && AtMost(less, q, r)
    ensures AtMost(less, p, r)
    ensures Before(less, p, q) || Before(less, q, r) ==> Before(less, p, r)
  {
    if |p| == |q| == |r| && Before(less, p, q) && Before(less, q, r) {
      LexTransitive(less, p, q, r);
    }
  }

  lemma BeforeTotal<T(!new)>(less: (T, T) -> bool, p: seq<T>, q: seq<T>)
    requires StrictOrder(less)
    ensures AtMost(less, p, q) || Before(less, q, p)
  {
    if |p| == |q| {
      LexTotal(less, p, q);
    }
  }

  /** Of two sequences only one comes before the other. */
  lemma BeforeAsymmetric<T(!new)>(less: (T, T) -> bool, p: seq<T>, q: seq<T>)
    requires StrictOrder(less) && AtMost(less, p, q)
    ensures !Before(less, q, p)
  {
    if Before(less, q, p) {
      BeforeTransitive(less, q, p, q);
      BeforeIrreflexive(less, q);
    }
  }

  /** Sequences that are one key longer: again the fronts decide, then the last keys. */
  lemma BeforeLonger<T>(less: (T, T) -> bool, p: seq<T>, x: T, q: seq<T>, y: T)
    ensures Before(less, p + [x], q + [y]) <==> Before(less, p, q) || (p == q && less(x, y))
  {
    var p', q' := p + [x], q + [y];
    assert p'[..|p|] == p && q'[..|q|] == q;
  }

  /** A finite set has a least key. */
  lemma {:induction false} LeastOf<T(!new)>(less: (T, T) -> bool, s: set<T>) returns (least: T)
    requires StrictOrder(less) && s != {}
    ensures least in s && forall x <- s :: x == least || less(least, x)
  {
    least :| least in s;
    if s != {least} {
      var rest := s - {least};
      assert s == rest + {least};
      assert rest != {};
      var other := LeastOf(less, rest);
      if less(other, least) {
        least := other;
      }
    }
  }
}
