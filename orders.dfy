/**
  The key orders the count tables are sorted by: numbers ascending, strings
  by Python's comparison (code point by code point, a proper prefix first),
  and pairs lexicographically, as pandas sorts a two-column group key.
*/
module Orders {

  ghost predicate StrictTotalOrder<T(!new)>(lt: (T, T) -> bool) {
    && (forall a :: !lt(a, a))
    && (forall a, b, c :: lt(a, b) && lt(b, c) ==> lt(a, c))
    && (forall a, b :: a != b ==> lt(a, b) || lt(b, a))
  }

  function NatLess(a: nat, b: nat): bool {
    a < b
  }

  /** Python's `a < b` on str. */
  function StringLess(a: string, b: string): bool {
    if |b| == 0 then false
    else if |a| == 0 then true
    else if a[0] != b[0] then a[0] < b[0]
    else StringLess(a[1..], b[1..])
  }

  /** Order pairs by their first component, then by their second. */
  function Lex<A(==), B>(ltA: (A, A) -> bool, ltB: (B, B) -> bool): ((A, B), (A, B)) -> bool {
    (p: (A, B), q: (A, B)) => ltA(p.0, q.0) || (p.0 == q.0 && ltB(p.1, q.1))
  }

  lemma NatLessIsStrictTotal()
    ensures StrictTotalOrder(NatLess)
  {
  }

  lemma {:induction false} StringLessIrreflexive(a: string)
    ensures !StringLess(a, a)
  {
    if |a| > 0 {
      StringLessIrreflexive(a[1..]);
    }
  }

  lemma {:induction false} StringLessTransitive(a: string, b: string, c: string)
    requires StringLess(a, b) && StringLess(b, c)
    ensures StringLess(a, c)
  {
    if |a| > 0 && a[0] == b[0] && b[0] == c[0] {
      StringLessTransitive(a[1..], b[1..], c[1..]);
    }
  }

  lemma {:induction false} StringLessTotal(a: string, b: string)
    requires a != b
    ensures StringLess(a, b) || StringLess(b, a)
  {
    if |a| > 0 && |b| > 0 && a[0] == b[0] {
      assert a == [a[0]] + a[1..] && b == [b[0]] + b[1..];
      StringLessTotal(a[1..], b[1..]);
    }
  }

  lemma StringLessIsStrictTotal()
    ensures StrictTotalOrder(StringLess)
  {
    forall a: string ensures !StringLess(a, a) {
      StringLessIrreflexive(a);
    }
    forall a: string, b: string, c: string | StringLess(a, b) && StringLess(b, c)
      ensures StringLess(a, c)
    {
      StringLessTransitive(a, b, c);
    }
    forall a: string, b: string | a != b ensures StringLess(a, b) || StringLess(b, a) {
      StringLessTotal(a, b);
    }
  }

  lemma LexIsStrictTotal<A(!new), B(!new)>(ltA: (A, A) -> bool, ltB: (B, B) -> bool)
    requires StrictTotalOrder(ltA) && StrictTotalOrder(ltB)
    ensures StrictTotalOrder(Lex(ltA, ltB))
  {
    var lt := Lex(ltA, ltB);
    forall p: (A, B) ensures !lt(p, p) {
      assert !ltA(p.0, p.0) && !ltB(p.1, p.1);
    }
    forall p: (A, B), q: (A, B), r: (A, B) | lt(p, q) && lt(q, r) ensures lt(p, r) {
      if ltA(p.0, q.0) && ltA(q.0, r.0) {
        assert ltA(p.0, r.0);
      } else if p.0 == q.0 && q.0 == r.0 {
        assert ltB(p.1, q.1) && ltB(q.1, r.1);
      }
    }
    forall p: (A, B), q: (A, B) | p != q ensures lt(p, q) || lt(q, p) {
      if p.0 == q.0 {
        assert p.1 != q.1;
      }
    }
  }
}
