/** Bit masks as numbers: or, and, shift and truncation, and the set of bits they mean. */
module Bits {
  import opened Basics

  function Shift(v: nat): (r: nat)
    ensures r > 0
  {
    if v == 0 then 1 else 2 * Shift(v - 1)
  }

  function Or(a: nat, b: nat): nat {
    if a == 0 && b == 0 then 0 else 2 * Or(a / 2, b / 2) + if a % 2 == 1 || b % 2 == 1 then 1 else 0
  }

  function And(a: nat, b: nat): nat {
    if a == 0 || b == 0 then 0 else 2 * And(a / 2, b / 2) + if a % 2 == 1 && b % 2 == 1 then 1 else 0
  }

  /** Whether bit `v` is set. */
  predicate Bit(m: nat, v: nat)
    decreases v
  {
    if v == 0 then m % 2 == 1 else Bit(m / 2, v - 1)
  }

  lemma {:induction false} ZeroBit(v: nat)
    ensures !Bit(0, v)
  {
    if v > 0 {
      ZeroBit(v - 1);
    }
  }

  lemma {:induction false} OrBit(a: nat, b: nat, v: nat)
    ensures Bit(Or(a, b), v) <==> Bit(a, v) || Bit(b, v)
    decreases v
  {
    if a == 0 && b == 0 {
      ZeroBit(v);
    } else if v > 0 {
      OrBit(a / 2, b / 2, v - 1);
    }
  }

  lemma {:induction false} AndBit(a: nat, b: nat, v: nat)
    ensures Bit(And(a, b), v) <==> Bit(a, v) && Bit(b, v)
    decreases v
  {
    if a == 0 || b == 0 {
      ZeroBit(v);
    } else if v > 0 {
      AndBit(a / 2, b / 2, v - 1);
    }
  }

  lemma {:induction false} ShiftBit(v: nat, u: nat)
    ensures Bit(Shift(v), u) <==> u == v
    decreases v
  {
    if v == 0 {
      if u > 0 {
        ZeroBit(u - 1);
      }
    } else if u > 0 {
      ShiftBit(v - 1, u - 1);
    }
  }

  /** One less than a power of two has every bit below set. */
  lemma {:induction false} OnesBit(k: nat, v: nat)
    ensures Bit(Shift(k) - 1, v) <==> v < k
  {
    if k == 0 {
      ZeroBit(v);
    } else if v > 0 {
      assert (Shift(k) - 1) / 2 == Shift(k - 1) - 1;
      OnesBit(k - 1, v - 1);
    }
  }

  /** Masks with the same bits are equal. */
  lemma {:induction false} SameBits(a: nat, b: nat)
    requires forall v: nat :: Bit(a, v) <==> Bit(b, v)
    ensures a == b
    decreases a + b
  {
    assert Bit(a, 0) <==> Bit(b, 0);
    if a + b > 0 {
      forall v: nat
        ensures Bit(a / 2, v) <==> Bit(b / 2, v)
      {
        assert Bit(a, v + 1) <==> Bit(b, v + 1);
      }
      SameBits(a / 2, b / 2);
    }
  }

  /** Testing a bit the way the code does. */
  lemma TestBit(m: nat, v: nat)
    ensures And(m, Shift(v)) != 0 <==> Bit(m, v)
  {
    var r := And(m, Shift(v));
    if Bit(m, v) {
      AndBit(m, Shift(v), v);
      ShiftBit(v, v);
      ZeroBit(v);
    } else {
      forall u: nat
        ensures Bit(r, u) <==> Bit(0, u)
      {
        AndBit(m, Shift(v), u);
        ShiftBit(v, u);
        ZeroBit(u);
      }
      SameBits(r, 0);
    }
  }

  lemma HalfMod(m: nat, p: nat)
    requires p > 0
    ensures m % (2 * p) / 2 == (m / 2) % p && m % (2 * p) % 2 == m % 2
  {
    var h := m / 2;
    var q := h / p;
    assert m == (2 * p) * q + (2 * (h % p) + m % 2);
    Quotient(2 * p, q, m);
  }

  /** Cutting a mask down to `k` bits keeps the bits below `k`. */
  lemma {:induction false} LowBits(m: nat, k: nat, v: nat)
    ensures Bit(m % Shift(k), v) <==> v < k && Bit(m, v)
    decreases k
  {
    if k == 0 {
      ZeroBit(v);
    } else {
      var p := Shift(k - 1);
      var low := m % Shift(k);
      HalfMod(m, p);
      assert low / 2 == (m / 2) % p && low % 2 == m % 2;
      if v > 0 {
        LowBits(m / 2, k - 1, v - 1);
      }
    }
  }

  /** The mask holds exactly the bits of a set. */
  ghost predicate Holds(m: nat, s: set<int>) {
    (forall v: nat :: Bit(m, v) <==> v in s) && forall v | v in s :: v >= 0
  }

  lemma HoldsNothing()
    ensures Holds(0, {})
  {
    forall v: nat
      ensures !Bit(0, v)
    {
      ZeroBit(v);
    }
  }

  lemma HoldsMore(m: nat, s: set<int>, v: nat)
    requires Holds(m, s)
    ensures Holds(Or(m, Shift(v)), s + {v})
  {
    forall u: nat
      ensures Bit(Or(m, Shift(v)), u) <==> u in s + {v}
    {
      OrBit(m, Shift(v), u);
      ShiftBit(v, u);
    }
  }

  /** Cutting to `k` bits loses nothing from a set below `k`. */
  lemma HoldsNarrow(m: nat, s: set<int>, k: nat)
    requires Holds(m, s) && forall v | v in s :: v < k
    ensures Holds(m % Shift(k), s)
  {
    forall v: nat
      ensures Bit(m % Shift(k), v) <==> v in s
    {
      LowBits(m, k, v);
    }
  }

  /** Equal masks mean equal sets, and the other way round. */
  lemma HoldsEqual(m: nat, s: set<int>, n: nat, t: set<int>)
    requires Holds(m, s) && Holds(n, t)
    ensures m == n <==> s == t
  {
    if m == n {
      forall v: int
        ensures v in s <==> v in t
      {
        if v >= 0 {
          assert Bit(m, v) <==> Bit(n, v);
        }
      }
    }
    if s == t {
      SameBits(m, n);
    }
  }
}
