/** The left-over milliseconds of a period so long that its sum with the tick length overflows
    32 bits: which of them keep a timer at its tick, in src/Timer.cpp.

    With ticks of p ms, a period of 2^32 - s ms and m == 2^32 % p, refiring takes the remainder r
    to Next(p, s, m, r) and moves the timer on exactly when r >= p - s. */
module Remainders {
  import opened Integers

  // ----- the greatest common divisor

  function Gcd(a: nat, b: nat): nat
    decreases b
  {
    if b == 0 then a else Gcd(b, a % b)
  }

  ghost predicate Divides(g: int, x: int) {
    exists k :: x == k * g
  }

  lemma DividesSum(g: int, x: int, y: int)
    requires Divides(g, x) && Divides(g, y)
    ensures Divides(g, x + y) && Divides(g, x - y)
  {
    var j :| x == j * g;
    var k :| y == k * g;
    assert x + y == (j + k) * g;
    assert x - y == (j - k) * g;
  }

  lemma DividesProduct(g: int, x: int, n: int)
    requires Divides(g, x)
    ensures Divides(g, n * x)
  {
    var k :| x == k * g;
    assert n * (k * g) == (n * k) * g;
  }

  /** A multiple of g below another is below it by g or more. */
  lemma DividesGap(g: int, x: int, y: int)
    requires g > 0 && Divides(g, x) && Divides(g, y) && x < y
    ensures x <= y - g
  {
    var j :| x == j * g;
    var k :| y == k * g;
    if j >= k {
      MulMonotone(k, j, g);
    } else {
      MulMonotone(j + 1, k, g);
    }
  }

  lemma {:induction false} GcdDivides(a: nat, b: nat)
    ensures Divides(Gcd(a, b), a) && Divides(Gcd(a, b), b)
    ensures a + b > 0 ==> Gcd(a, b) > 0
    decreases b
  {
    if b == 0 {
      assert a == 1 * a && 0 == 0 * a;
    } else {
      var g := Gcd(a, b);
      GcdDivides(b, a % b);
      DividesProduct(g, b, a / b);
      assert a == a / b * b + a % b;
      DividesSum(g, a / b * b, a % b);
    }
  }

  lemma {:induction false} Bezout(a: nat, b: nat) returns (x: int, y: int)
    ensures x * a + y * b == Gcd(a, b)
    decreases b
  {
    if b == 0 {
      x, y := 1, 0;
    } else {
      var x1, y1 := Bezout(b, a % b);
      x, y := y1, x1 - a / b * y1;
      Substituted(a, b, a / b, a % b, x1, y1);
    }
  }

  lemma Substituted(a: int, b: int, q: int, c: int, x: int, y: int)
    requires a == q * b + c
    ensures y * a + (x - q * y) * b == x * b + y * c
  {
    assert y * a == y * (q * b) + y * c;
    assert y * (q * b) == (q * y) * b;
    assert (x - q * y) * b == x * b - (q * y) * b;
  }

  // ----- the remainders

  function Next(p: int, s: int, m: int, r: int): int {
    if r >= s then r - s else if r + m >= s then r + m - s else r + m - s + p
  }

  predicate Sizes(p: int, s: int, m: int) {
    0 < s < p && 0 <= m < p
  }

  /** k refirings at the same tick lead to one that moves the timer on. */
  predicate MovesAfter(p: int, s: int, m: int, r: int, k: nat)
    decreases k
  {
    if k == 0 then r >= p - s else MovesAfter(p, s, m, Next(p, s, m, r), k - 1)
  }

  ghost predicate EverMoves(p: int, s: int, m: int, r: int) {
    exists k: nat :: MovesAfter(p, s, m, r, k)
  }

  /** The condition under which no remainder keeps the timer for ever. */
  predicate Frees(p: int, s: int, m: nat)
    requires s > 0
  {
    m < s || m + s - Gcd(m, s) >= p
  }

  /** With m below s, the remainders fall until one moves the timer on. */
  lemma {:induction false} Falling(p: int, s: int, m: int, r: nat) returns (k: nat)
    requires Sizes(p, s, m) && r < p && m < s
    ensures MovesAfter(p, s, m, r, k)
    decreases r
  {
    if r >= p - s {
      k := 0;
    } else if r + m < s {
      assert Next(p, s, m, r) >= p - s;
      assert MovesAfter(p, s, m, Next(p, s, m, r), 0);
      k := 1;
    } else {
      var k1 := Falling(p, s, m, Next(p, s, m, r));
      k := k1 + 1;
    }
  }

  /** Subtracting s leads from r to its residue modulo s, if nothing moves before. */
  lemma {:induction false} ToResidue(p: int, s: int, m: int, r: nat, b: nat, u: nat, k: nat) returns (k': nat)
    requires Sizes(p, s, m) && r < p && r == b + u * s && MovesAfter(p, s, m, b, k)
    ensures MovesAfter(p, s, m, r, k')
    decreases u
  {
    if u == 0 {
      k' := k;
    } else {
      assert u * s == (u - 1) * s + s;
      MulMonotone(0, u - 1, s);
      var k1 := ToResidue(p, s, m, r - s, b, u - 1, k);
      k' := k1 + 1;
    }
  }

  /** From residue b, adding m modulo s t times leads to residue c, if nothing moves before. */
  lemma {:induction false} ByAdding(p: int, s: int, m: int, b: nat, t: nat, u: int, c: nat, k: nat) returns (k': nat)
    requires Sizes(p, s, m) && s <= m && b < s && c < s
    requires b + t * m == c + u * s && MovesAfter(p, s, m, c, k)
    ensures MovesAfter(p, s, m, b, k')
    decreases t
  {
    if t == 0 {
      SameResidue(s, b, c, u);
      k' := k;
    } else if b + m >= p {
      assert Next(p, s, m, b) >= p - s;
      assert MovesAfter(p, s, m, Next(p, s, m, b), 0);
      k' := 1;
    } else {
      var v, b1 := (b + m) / s, (b + m) % s;
      OneAdded(s, m, b, t, u, c, v, b1);
      var k1 := ByAdding(p, s, m, b1, t - 1, u - v, c, k);
      var k2 := ToResidue(p, s, m, b + m - s, b1, v - 1, k1);
      k' := k2 + 1;
    }
  }

  lemma OneAdded(s: int, m: int, b: nat, t: nat, u: int, c: int, v: int, b1: int)
    requires 0 < s <= m && v == (b + m) / s && b1 == (b + m) % s
    requires b + t * m == c + u * s
    ensures 1 <= v && b + m - s == b1 + (v - 1) * s && b1 + (t - 1) * m == c + (u - v) * s
  {
    assert b + m == v * s + b1;
    assert (t - 1) * m == t * m - m;
    assert (u - v) * s == u * s - v * s;
    assert (v - 1) * s == v * s - s;
    if v <= 0 {
      MulMonotone(v, 0, s);
    }
  }

  lemma SameResidue(s: int, b: int, c: int, u: int)
    requires 0 <= b < s && 0 <= c < s && b == c + u * s
    ensures b == c
  {
    if u >= 1 {
      MulMonotone(1, u, s);
    } else if u <= -1 {
      MulMonotone(u, -1, s);
    }
  }

  /** Adding m often enough adds the greatest common divisor. */
  lemma Steps(s: nat, m: nat) returns (t: nat, u: int)
    requires s > 0
    ensures t * m == Gcd(m, s) + u * s
  {
    var x, y := Bezout(m, s);
    var n := if x < 0 then -x else 0;
    MulMonotone(1, s, n);
    t, u := x + n * s, n * m - y;
    assert t * m == x * m + (n * s) * m;
    assert u * s == (n * m) * s - y * s;
    assert (n * s) * m == (n * m) * s;
  }

  /** With m at least s, the residues climb by the divisor until one is high enough. */
  lemma {:induction false} Climbing(p: int, s: int, m: int, b: nat) returns (k: nat)
    requires Sizes(p, s, m) && s <= m && m + s - Gcd(m, s) >= p && b < s
    ensures MovesAfter(p, s, m, b, k)
    decreases s - b
  {
    var g := Gcd(m, s);
    GcdDivides(m, s);
    if b >= s - g {
      if b >= p - s {
        k := 0;
      } else {
        assert Next(p, s, m, b) >= p - s;
        assert MovesAfter(p, s, m, Next(p, s, m, b), 0);
        k := 1;
      }
    } else {
      var k1 := Climbing(p, s, m, b + g);
      var t, u := Steps(s, m);
      k := ByAdding(p, s, m, b, t, u, b + g, k1);
    }
  }

  lemma EveryRemainderMoves(p: int, s: int, m: int, r: nat) returns (k: nat)
    requires Sizes(p, s, m) && r < p && Frees(p, s, m)
    ensures MovesAfter(p, s, m, r, k)
  {
    if m < s {
      k := Falling(p, s, m, r);
    } else {
      var k1 := Climbing(p, s, m, r % s);
      k := ToResidue(p, s, m, r, r % s, r / s, k1);
    }
  }

  /** Otherwise a multiple of the divisor that keeps the timer leads to another such. */
  lemma NextStays(p: int, s: int, m: int, r: nat)
    requires Sizes(p, s, m) && !Frees(p, s, m) && r < p - s && Divides(Gcd(m, s), r)
    ensures 0 <= Next(p, s, m, r) < p - s && Divides(Gcd(m, s), Next(p, s, m, r))
  {
    var g := Gcd(m, s);
    GcdDivides(m, s);
    DividesSum(g, r, s);
    DividesSum(g, r, m);
    DividesSum(g, r + m, s);
    if r < s {
      DividesGap(g, r, s);
    }
  }

  lemma {:induction false} NeverMoves(p: int, s: int, m: int, r: nat, k: nat)
    requires Sizes(p, s, m) && !Frees(p, s, m) && r < p - s && Divides(Gcd(m, s), r)
    ensures !MovesAfter(p, s, m, r, k)
    decreases k
  {
    if k > 0 {
      NextStays(p, s, m, r);
      NeverMoves(p, s, m, Next(p, s, m, r), k - 1);
    }
  }

  /** The condition is exact, for the remainder 0 of a new timer and for all remainders alike. */
  lemma FreesIff(p: int, s: int, m: int)
    requires Sizes(p, s, m)
    ensures Frees(p, s, m) <==> EverMoves(p, s, m, 0)
    ensures Frees(p, s, m) <==> forall r: nat :: r < p ==> EverMoves(p, s, m, r)
  {
    if Frees(p, s, m) {
      forall r: nat | r < p ensures EverMoves(p, s, m, r) {
        var k := EveryRemainderMoves(p, s, m, r);
      }
    } else {
      assert 0 == 0 * Gcd(m, s);
      forall k: nat ensures !MovesAfter(p, s, m, 0, k) {
        NeverMoves(p, s, m, 0, k);
      }
      assert !EverMoves(p, s, m, 0);
    }
  }
}
