// Powers of two and four.
//
// The grid of the space-filling index has 2^k columns and rows, its curve 4^k positions. This
// module has the few facts about halving, shifting and reflecting coordinates that the index
// needs: products and quotients of powers, remainders of reflected coordinates, and a shift
// written as repeated halving. Everything else about the grid is in Hilbert, Keys and Placement.
// Division and remainder only ever have a positive divisor here, so Dafny's Euclidean operators
// agree with the floor division of Python and the shifts of Rust.
module Powers {
  function Pow2(k: nat): (p: nat)
    ensures p >= 1
  {
    if k == 0 then 1 else 2 * Pow2(k - 1)
  }

  function Pow4(k: nat): (p: nat)
    ensures p >= 1
  {
    if k == 0 then 1 else 4 * Pow4(k - 1)
  }

  // A position of the grid with 2^k columns and rows.
  predicate OnGrid(k: nat, x: nat, y: nat) {
    x < Pow2(k) && y < Pow2(k)
  }

  lemma {:induction false} SquareIsPow4(k: nat)
    ensures Pow2(k) * Pow2(k) == Pow4(k)
  {
    if k > 0 {
      SquareIsPow4(k - 1);
      var h := Pow2(k - 1);
      assert (2 * h) * (2 * h) == 4 * (h * h);
    }
  }

  lemma {:induction false} Pow2Sum(a: nat, b: nat)
    ensures Pow2(a + b) == Pow2(a) * Pow2(b)
  {
    if a > 0 {
      Pow2Sum(a - 1, b);
      assert (2 * Pow2(a - 1)) * Pow2(b) == 2 * (Pow2(a - 1) * Pow2(b));
    }
  }

  lemma {:induction false} Pow2Monotone(a: nat, b: nat)
    requires a <= b
    ensures Pow2(a) <= Pow2(b)
  {
    if a < b { Pow2Monotone(a, b - 1); }
  }

  lemma MulMonotone(a: int, b: int, m: int)
    requires a <= b && m >= 0
    ensures a * m <= b * m
  {
  }

  // The quotient is the only q with q * m <= x < q * m + m.
  lemma QuotientUnique(x: int, m: int, q: int)
    requires m > 0 && q * m <= x < q * m + m
    ensures x / m == q && x % m == x - q * m
  {
    var p, r := x / m, x % m;
    assert x == m * p + r;
    var d := p - q;
    assert m * p == d * m + q * m;
    if d >= 1 {
      MulMonotone(1, d, m);
    } else if d <= -1 {
      MulMonotone(d, -1, m);
    }
  }

  lemma DivMonotone(x: int, y: int, m: int)
    requires m > 0 && x <= y
    ensures x / m <= y / m
  {
    var p, q := x / m, y / m;
    assert x == m * p + x % m && y == m * q + y % m;
    if p > q { MulMonotone(q + 1, p, m); }
  }

  // Reflecting a coordinate in a grid whose side is a multiple of m reflects it modulo m.
  lemma ReflectMod(n: nat, m: nat, c: nat, x: nat)
    requires m > 0 && n == c * m && x < n
    ensures (n - 1 - x) % m == m - 1 - x % m
  {
    var q := x / m;
    assert x == m * q + x % m;
    assert c * m - m * q == (c - q) * m;
    assert (c - q) * m == (c - 1 - q) * m + m;
    QuotientUnique(n - 1 - x, m, c - 1 - q);
  }

  // One more bit: x mod 2m is x mod m plus m when bit m of x is set.
  lemma ModDouble(x: nat, m: nat)
    requires m > 0
    ensures x % (2 * m) == (if (x / m) % 2 == 1 then m + x % m else x % m)
  {
    var q := x / m;
    var h := q / 2;
    assert x == m * q + x % m;
    assert q == 2 * h + q % 2;
    if q % 2 == 1 {
      assert m * (2 * h + 1) == h * (2 * m) + m;
    } else {
      assert m * (2 * h) == h * (2 * m);
    }
    QuotientUnique(x, 2 * m, h);
  }

  // x >> i.
  function ShiftRight(x: nat, i: nat): nat {
    if i == 0 then x else ShiftRight(x / 2, i - 1)
  }

  lemma Doubled(q: nat, m: nat, h: nat)
    requires q * m <= h < q * m + m
    ensures q * (2 * m) <= 2 * h && 2 * h + 1 < q * (2 * m) + 2 * m
  {
    assert q * (2 * m) == 2 * (q * m);
  }

  lemma {:induction false} ShiftRightBounds(x: nat, i: nat)
    ensures ShiftRight(x, i) * Pow2(i) <= x < ShiftRight(x, i) * Pow2(i) + Pow2(i)
  {
    if i > 0 {
      ShiftRightBounds(x / 2, i - 1);
      var q, m := ShiftRight(x, i), Pow2(i - 1);
      Doubled(q, m, x / 2);
    }
  }

  lemma ShiftIsQuotient(x: nat, i: nat)
    ensures ShiftRight(x, i) == x / Pow2(i)
  {
    ShiftRightBounds(x, i);
    QuotientUnique(x, Pow2(i), ShiftRight(x, i));
  }

  lemma {:induction false} ShiftRightBelow(x: nat, i: nat, j: nat)
    requires x < Pow2(i + j)
    ensures ShiftRight(x, i) < Pow2(j)
  {
    if i > 0 {
      assert Pow2(i + j) == 2 * Pow2(i - 1 + j);
      ShiftRightBelow(x / 2, i - 1, j);
    }
  }

  lemma {:induction false} ShiftRightMonotone(x: nat, y: nat, i: nat)
    requires x <= y
    ensures ShiftRight(x, i) <= ShiftRight(y, i)
  {
    if i > 0 { ShiftRightMonotone(x / 2, y / 2, i - 1); }
  }

  lemma {:induction false} ShiftRightOne(x: nat, i: nat)
    ensures ShiftRight(x, i) / 2 == ShiftRight(x, i + 1)
  {
    if i > 0 { ShiftRightOne(x / 2, i - 1); }
  }

  // The bits of n - 1 - y, for n a power of two, are the inverted bits of y.
  lemma {:induction false} InvertedShift(i: nat, j: nat, y: nat)
    requires y < Pow2(i + j)
    ensures ShiftRight(Pow2(i + j) - 1 - y, i) == Pow2(j) - 1 - ShiftRight(y, i)
  {
    if i > 0 {
      assert Pow2(i + j) == 2 * Pow2(i - 1 + j);
      InvertedShift(i - 1, j, y / 2);
      assert (Pow2(i + j) - 1 - y) / 2 == Pow2(i - 1 + j) - 1 - y / 2;
    }
  }
}
