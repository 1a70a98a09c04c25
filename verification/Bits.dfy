/** Bitwise operators on natural numbers, and the bit tricks the program builds on them. */
module Bits {

  function Pow2(n: nat): (r: nat)
    ensures r >= 1
  {
    if n == 0 then 1 else 2 * Pow2(n - 1)
  }

  ghost predicate IsPow2(x: nat) {
    exists n: nat :: x == Pow2(n)
  }

  function And(a: nat, b: nat): (r: nat)
    ensures r <= b
  {
    if a == 0 || b == 0 then 0 else 2 * And(a / 2, b / 2) + (if a % 2 == 1 && b % 2 == 1 then 1 else 0)
  }

  function Or(a: nat, b: nat): nat {
    if a == 0 then b else if b == 0 then a
    else 2 * Or(a / 2, b / 2) + (if a % 2 == 1 || b % 2 == 1 then 1 else 0)
  }

  function Shr(x: nat, k: nat): nat {
    if k == 0 then x else Shr(x / 2, k - 1)
  }

  /** Number of binary digits: 64 minus the count of leading zeros of a 64-bit word. */
  function BitLen(v: nat): (n: nat) {
    if v == 0 then 0 else 1 + BitLen(v / 2)
  }

  lemma {:induction false} Pow2Add(a: nat, b: nat)
    ensures Pow2(a + b) == Pow2(a) * Pow2(b)
  {
    if a > 0 {
      Pow2Add(a - 1, b);
      assert a + b - 1 == (a - 1) + b;
    }
  }

  lemma {:induction false} Pow2Monotone(a: nat, b: nat)
    requires a <= b
    ensures Pow2(a) <= Pow2(b)
    ensures a < b ==> 2 * Pow2(a) <= Pow2(b)
  {
    if a < b {
      Pow2Monotone(a, b - 1);
    }
  }

  lemma {:induction false} BitLenBounds(v: nat)
    ensures v < Pow2(BitLen(v))
    ensures v > 0 ==> BitLen(v) > 0 && Pow2(BitLen(v) - 1) <= v
  {
    if v > 0 {
      BitLenBounds(v / 2);
    }
  }

  lemma {:induction false} BitLenUnique(v: nat, n: nat)
    requires n > 0 && Pow2(n - 1) <= v < Pow2(n)
    ensures BitLen(v) == n
  {
    BitLenBounds(v);
    if BitLen(v) < n {
      Pow2Monotone(BitLen(v), n - 1);
    } else if BitLen(v) > n {
      Pow2Monotone(n, BitLen(v) - 1);
    }
  }

  lemma MulDistance(a: int, b: int, d: nat)
    requires a > b
    ensures a * d >= b * d + d
  {
    var e := a - b - 1;
    assert a == b + 1 + e;
    assert (b + 1 + e) * d == b * d + d + e * d;
    assert e * d >= 0;
  }

  lemma DivModUnique(x: int, d: nat, q: int, r: int)
    requires d > 0 && x == q * d + r && 0 <= r < d
    ensures x / d == q && x % d == r
  {
    var q' := x / d;
    var r' := x % d;
    assert x == q' * d + r' && 0 <= r' < d;
    if q > q' {
      MulDistance(q, q', d);
    } else if q < q' {
      MulDistance(q', q, d);
    }
  }

  lemma ModDouble(x: nat, p: nat)
    requires p > 0
    ensures x % (2 * p) == 2 * ((x / 2) % p) + x % 2
  {
    var h := x / 2;
    var q, r := h / p, h % p;
    assert h == q * p + r;
    assert q * (2 * p) == 2 * (q * p);
    DivModUnique(x, 2 * p, q, 2 * r + x % 2);
  }

  /** Masking with a power of two minus one is the remainder. */
  lemma {:induction false} AndMask(x: nat, k: nat)
    ensures And(x, Pow2(k) - 1) == x % Pow2(k)
  {
    hide And;
    AndNothing(x, Pow2(k) - 1);
    if k > 0 && x > 0 {
      AndMask(x / 2, k - 1);
      AndMaskDouble(x, Pow2(k - 1));
    } else if x == 0 {
      DivModUnique(0, Pow2(k), 0, 0);
    }
  }

  lemma AndMaskDouble(x: nat, p: nat)
    requires x > 0 && p > 0 && And(x / 2, p - 1) == (x / 2) % p
    ensures And(x, 2 * p - 1) == x % (2 * p)
  {
    hide And;
    ModDouble(x, p);
    AndHalves(x, p);
  }

  lemma AndNothing(x: nat, b: nat)
    ensures And(x, 0) == 0 && And(0, b) == 0
  {
  }

  lemma AndHalves(x: nat, p: nat)
    requires x > 0 && p > 0
    ensures And(x, 2 * p - 1) == 2 * And(x / 2, p - 1) + x % 2
  {
    assert (2 * p - 1) / 2 == p - 1 && (2 * p - 1) % 2 == 1;
  }

  /** Two right shifts compose. */
  lemma DivDiv(x: nat, a: nat, b: nat)
    requires a > 0 && b > 0
    ensures (x / a) / b == x / (a * b)
  {
    var y := x / a;
    var q := y / b;
    var r := (y % b) * a + x % a;
    assert x == (q * b + y % b) * a + x % a;
    assert x == q * (a * b) + r by {
      assert (q * b + y % b) * a == q * b * a + (y % b) * a;
      assert q * b * a == q * (a * b);
    }
    MulDistance(b, y % b, a);
    DivModUnique(x, a * b, q, r);
  }

  // ---------- Or ----------

  lemma {:induction false} OrZero(a: nat, b: nat)
    ensures Or(a, b) / 2 == Or(a / 2, b / 2)
    ensures Or(a, b) == 0 <==> a == 0 && b == 0
  {
    if a > 0 && b > 0 {
      OrZero(a / 2, b / 2);
    }
  }

  lemma {:induction false} OrShr(a: nat, b: nat, k: nat)
    ensures Shr(Or(a, b), k) == Or(Shr(a, k), Shr(b, k))
  {
    if k > 0 {
      OrZero(a, b);
      OrShr(a / 2, b / 2, k - 1);
    }
  }

  /** The longer operand decides the length of a bitwise or. */
  lemma {:induction false} OrBitLen(a: nat, b: nat)
    ensures BitLen(Or(a, b)) == if BitLen(a) >= BitLen(b) then BitLen(a) else BitLen(b)
  {
    if a > 0 && b > 0 {
      OrZero(a, b);
      OrBitLen(a / 2, b / 2);
    }
  }

  lemma {:induction false} ShrShr(x: nat, a: nat, b: nat)
    ensures Shr(Shr(x, a), b) == Shr(x, a + b)
  {
    if a > 0 {
      ShrShr(x / 2, a - 1, b);
    }
  }

  lemma {:induction false} ShrBitLen(v: nat, w: nat)
    ensures BitLen(Shr(v, w)) == if w <= BitLen(v) then BitLen(v) - w else 0
  {
    if w > 0 {
      ShrBitLen(v / 2, w - 1);
    }
  }

  lemma {:induction false} OnesShr(w: nat, k: nat)
    requires k <= w
    ensures Shr(Pow2(w) - 1, k) == Pow2(w - k) - 1
  {
    if k > 0 {
      OnesShr(w - 1, k - 1);
      assert (Pow2(w) - 1) / 2 == Pow2(w - 1) - 1;
    }
  }

  lemma {:induction false} OrOnes(x: nat, w: nat, s: nat)
    requires Shr(x, s) == Pow2(w) - 1
    ensures Or(x, Pow2(s) - 1) == Pow2(w + s) - 1
  {
    if s > 0 {
      OrOnes(x / 2, w, s - 1);
      var y := Pow2(s) - 1;
      assert y / 2 == Pow2(s - 1) - 1 && y % 2 == 1;
    }
  }

  // ---------- Rounding up to a power of two ----------

  /** The leading w bits of v, or all of them, are ones. */
  ghost predicate LeadingOnes(v: nat, w: nat) {
    var n := BitLen(v);
    if w <= n then Shr(v, n - w) == Pow2(w) - 1 else v == Pow2(n) - 1
  }

  function Smear(v: nat, w: nat): nat {
    Or(v, Shr(v, w))
  }

  /** One smearing step doubles the run of leading ones. */
  lemma SmearDoubles(v: nat, w: nat)
    requires v > 0 && LeadingOnes(v, w)
    ensures BitLen(Smear(v, w)) == BitLen(v) && LeadingOnes(Smear(v, w), 2 * w)
  {
    var n := BitLen(v);
    ShrBitLen(v, w);
    OrBitLen(v, Shr(v, w));
    if w < n {
      SmearTop(v, w, if 2 * w <= n then w else n - w);
    }
  }

  lemma SmearTop(v: nat, w: nat, s: nat)
    requires s <= w && w + s <= BitLen(v) && LeadingOnes(v, w)
    ensures Shr(Smear(v, w), BitLen(v) - w - s) == Pow2(w + s) - 1
  {
    hide Or, Pow2;
    var n, k := BitLen(v), BitLen(v) - w - s;
    OrShr(v, Shr(v, w), k);
    ShrShr(v, k, s);
    ShrShr(v, w, k);
    ShrShr(v, n - w, w - s);
    OnesShr(w, w - s);
    OrOnes(Shr(v, k), w, s);
  }

  /** Smears by w, 2w, 4w and so on while the shift is less than the word width. */
  function SmearFrom(v: nat, w: nat, width: nat): nat
    requires w > 0
    decreases width - w
  {
    if w < width then SmearFrom(Smear(v, w), 2 * w, width) else v
  }

  /** Rounding up in words of the given width, where the final increment can wrap. */
  function NextPow2(n: nat, width: nat): nat {
    if n < 2 then 1 else (SmearFrom(n - 1, 1, width) + 1) % Pow2(width)
  }

  lemma {:induction false} SmearFromOnes(v: nat, w: nat, width: nat)
    requires w > 0 && v > 0 && BitLen(v) <= width && LeadingOnes(v, w)
    ensures SmearFrom(v, w, width) == Pow2(BitLen(v)) - 1
    decreases width - w
  {
    if w < width {
      SmearDoubles(v, w);
      SmearFromOnes(Smear(v, w), 2 * w, width);
    }
  }

  lemma SmearOnes(v: nat, width: nat)
    requires v > 0 && BitLen(v) <= width
    ensures SmearFrom(v, 1, width) == Pow2(BitLen(v)) - 1
  {
    var top := Shr(v, BitLen(v) - 1);
    ShrBitLen(v, BitLen(v) - 1);
    BitLenBounds(top);
    assert Pow2(1) == 2;
    SmearFromOnes(v, 1, width);
  }

  lemma BitLenRange(v: nat, n: nat)
    requires n > 0
    ensures v < Pow2(n) ==> BitLen(v) <= n
    ensures v >= Pow2(n - 1) ==> BitLen(v) >= n
  {
    BitLenBounds(v);
    if BitLen(v) > n {
      Pow2Monotone(n, BitLen(v) - 1);
    } else if BitLen(v) < n {
      Pow2Monotone(BitLen(v), n - 1);
    }
  }

  /** In words of any width, a requested size is rounded to the least power of two that holds it
      exactly when that power of two fits the word; beyond, the result wraps to zero. */
  lemma NextPow2Least(n: nat, width: nat)
    requires 0 < width && n < Pow2(width)
    ensures n <= Pow2(width - 1) <==> IsPow2(NextPow2(n, width))
    ensures n <= Pow2(width - 1) ==>
              NextPow2(n, width) >= n && (NextPow2(n, width) == 1 || NextPow2(n, width) < 2 * n)
    ensures n > Pow2(width - 1) ==> NextPow2(n, width) == 0
  {
    if n < 2 {
      assert Pow2(0) == 1;
    } else {
      var l, p := BitLen(n - 1), Pow2(width);
      BitLenBounds(n - 1);
      BitLenRange(n - 1, width);
      SmearOnes(n - 1, width);
      if n <= Pow2(width - 1) {
        if width > 1 {
          BitLenRange(n - 1, width - 1);
        }
        Pow2Monotone(l, width - 1);
        DivModUnique(Pow2(l), p, 0, Pow2(l));
      } else {
        DivModUnique(p, p, 1, 0);
      }
    }
  }
}
