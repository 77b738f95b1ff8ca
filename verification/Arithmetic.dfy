/** Powers of two and right shifts, in the form the level-by-level loops use them. */
module Arithmetic {

  // A `u8`.
  type Byte = n: nat | n < 256

  function Pow2(n: nat): (r: nat)
    ensures r >= 1
  {
    if n == 0 then 1 else 2 * Pow2(n - 1)
  }

  // `value >> places`.
  function Shr(value: nat, places: nat): nat
  {
    if places == 0 then value else Shr(value, places - 1) / 2
  }

  // The `places` low bits of `value`.
  function Low(value: nat, places: nat): nat
  {
    if places == 0 then 0
    else Low(value, places - 1) + if Shr(value, places - 1) % 2 == 1 then Pow2(places - 1) else 0
  }

  lemma {:induction false} ShrHalf(value: nat, places: nat)
    ensures Shr(value / 2, places) == Shr(value, places + 1)
  {
    if places > 0 {
      ShrHalf(value, places - 1);
    }
  }

  lemma Distribute(a: int, b: int, n: int)
    ensures (a + b) * n == a * n + b * n
  {
  }

  lemma TimesMonotonic(a: nat, b: nat, n: nat)
    requires a <= b
    ensures a * n <= b * n
  {
  }

  lemma HalveTimes(s: nat, p: nat)
    ensures s * p == (s / 2) * (2 * p) + (s % 2) * p
  {
  }

  lemma {:induction false} SplitBits(value: nat, places: nat)
    ensures value == Low(value, places) + Shr(value, places) * Pow2(places)
    ensures Low(value, places) < Pow2(places)
  {
    if places > 0 {
      SplitBits(value, places - 1);
      var s, p := Shr(value, places - 1), Pow2(places - 1);
      HalveTimes(s, p);
      assert Shr(value, places) == s / 2 && Pow2(places) == 2 * p;
    }
  }

  // The shift test is the range test.
  lemma {:induction false} ShrZero(value: nat, places: nat)
    ensures Shr(value, places) == 0 <==> value < Pow2(places)
    ensures Shr(value, places) == 0 ==> Low(value, places) == value
  {
    SplitBits(value, places);
    var s, p := Shr(value, places), Pow2(places);
    if s > 0 {
      TimesMonotonic(1, s, p);
    }
  }

  lemma MultipleBounds(d: nat, x: int)
    requires d > 0
    ensures x > 0 ==> d * x >= d
    ensures x < 0 ==> d * x + d <= 0
  {
  }

  lemma DivModUnique(n: int, d: nat, q: int, r: int)
    requires d > 0 && n == d * q + r && 0 <= r < d
    ensures n / d == q && n % d == r
  {
    var x := n / d - q;
    Distribute(d, n / d, q);
    MultipleBounds(d, x);
  }
}
