/** The 16-bit storage words of a Bitmap, as numbers, with the bit operations the
    source applies to them. Bit 15 marks a run-length word, bit 14 holds the run's
    value, the 14 low bits are the payload. */
module Words {
  import opened Powers

  type Word = n: int | 0 <= n < 0x10000

  const VALUE_SIZE: nat := 14
  const COUNT_MASK: Word := 0x3FFF

  // w & COUNT_MASK
  function Payload(w: Word): Word { w % 0x4000 }

  // w & COMPRESS_MASK
  predicate Marked(w: Word) { w >= 0x8000 }

  // w & VALUE_MASK
  predicate ValueBit(w: Word) { (w / 0x4000) % 2 == 1 }

  // Both tag bits are clear.
  predicate SpareClear(w: Word) { w < 0x4000 }

  // COMPRESS_MASK | (v ? VALUE_MASK : 0) | digit
  function Tag(v: bool, digit: Word): Word
    requires digit < 0x4000
  {
    if v then 0xC000 + digit else 0x8000 + digit
  }

  // The payload of a word all of whose payload bits equal v.
  function Fill(v: bool): Word { if v then COUNT_MASK else 0 }

  // ~w
  function Not(w: Word): Word { 0xFFFF - w }

  // n & (1 << i)
  predicate Bit(n: nat, i: nat) { ShiftRight(n, i) % 2 == 1 }

  // n >> i
  function ShiftRight(n: nat, i: nat): nat
  {
    if i == 0 then n else ShiftRight(n / 2, i - 1)
  }

  function And(a: nat, b: nat): (r: nat)
    ensures r <= a && r <= b
  {
    if a == 0 || b == 0 then 0
    else 2 * And(a / 2, b / 2) + (if a % 2 == 1 && b % 2 == 1 then 1 else 0)
  }

  function Or(a: nat, b: nat): (r: nat)
    ensures a <= r <= a + b && b <= r
  {
    if a == 0 then b else if b == 0 then a
    else 2 * Or(a / 2, b / 2) + (if a % 2 == 1 || b % 2 == 1 then 1 else 0)
  }

  // The number of set bits among the k lowest.
  function CountBits(n: nat, k: nat): (c: nat)
    ensures c <= k
  {
    if k == 0 then 0 else n % 2 + CountBits(n / 2, k - 1)
  }

  /* ---------- bits determine words ---------- */

  lemma Pos14()
    ensures Pow2(14) == 0x4000 && Pow2(16) == 0x10000
  {
    assert Pow2(4) == 16;
    assert Pow2(8) == 256;
    assert Pow2(12) == 4096;
  }

  lemma {:induction false} HalfMod(n: nat, m: nat)
    requires m > 0
    ensures (n % (2 * m)) % 2 == n % 2
    ensures (n % (2 * m)) / 2 == (n / 2) % m
  {
    var q, r := (n / 2) / m, (n / 2) % m;
    var p := m * q;
    assert n / 2 == p + r;
    var t := 2 * r + n % 2;
    assert n == (2 * m) * q + t by { MulAssoc(2, m, q); }
    ModOfSum(q, t, 2 * m);
  }

  lemma MulAssoc(a: int, b: int, c: int)
    ensures (a * b) * c == a * (b * c)
  {
  }

  lemma SameHalves(x: nat, y: nat)
    requires x / 2 == y / 2 && x % 2 == y % 2
    ensures x == y
  {
  }

  lemma ModOfSum(q: nat, r: nat, m: nat)
    requires r < m
    ensures (m * q + r) % m == r && (m * q + r) / m == q
  {
    var x := m * q + r;
    var d := x / m - q;
    assert x == m * (x / m) + x % m;
    assert m * d == r - x % m;
    MulStep(m, d);
  }

  lemma MulStep(m: int, d: int)
    requires m > 0
    ensures d >= 1 ==> m * d >= m
    ensures d <= -1 ==> m * d <= -m
  {
  }

  lemma DivTwice(v: nat, a: nat, b: nat)
    requires a > 0 && b > 0
    ensures a * b > 0 && v / (a * b) == (v / a) / b
  {
    var q, r := v / a, v % a;
    var p, s := q / b, q % b;
    DivMod(v, a);
    DivMod(q, b);
    Spread(a, b, p, s);
    Below(a, s, b, r);
    Merged(a * b, p, a * s + r, v);
  }

  lemma DivMod(v: nat, a: nat)
    requires a > 0
    ensures v == a * (v / a) + v % a
  {
  }

  lemma Merged(m: nat, p: nat, t: nat, v: nat)
    requires t < m && v == m * p + t
    ensures v / m == p
  {
    ModOfSum(p, t, m);
  }

  lemma Spread(a: nat, b: nat, p: nat, s: nat)
    ensures a * (b * p + s) == (a * b) * p + a * s
  {
  }

  lemma Below(a: nat, s: nat, b: nat, r: nat)
    requires s < b && r < a
    ensures 0 <= a * s + r < a * b
  {
    assert a * (s + 1) <= a * b;
  }

  lemma {:induction false} AndMod(a: nat, b: nat, k: nat)
    ensures And(a, b) % Pow2(k) == And(a % Pow2(k), b % Pow2(k))
  {
    if k > 0 {
      var m := Pow2(k - 1);
      HalfMod(a, m);
      HalfMod(b, m);
      HalfMod(And(a, b), m);
      AndMod(a / 2, b / 2, k - 1);
      AndHalf(a, b);
      AndHalf(a % (2 * m), b % (2 * m));
      SameHalves(And(a, b) % (2 * m), And(a % (2 * m), b % (2 * m)));
    }
  }

  lemma {:induction false} OrMod(a: nat, b: nat, k: nat)
    ensures Or(a, b) % Pow2(k) == Or(a % Pow2(k), b % Pow2(k))
  {
    if k > 0 {
      var m := Pow2(k - 1);
      HalfMod(a, m);
      HalfMod(b, m);
      HalfMod(Or(a, b), m);
      OrMod(a / 2, b / 2, k - 1);
      OrHalf(a, b);
      OrHalf(a % (2 * m), b % (2 * m));
      SameHalves(Or(a, b) % (2 * m), Or(a % (2 * m), b % (2 * m)));
    }
  }

  lemma OrHalf(a: nat, b: nat)
    ensures Or(a, b) / 2 == Or(a / 2, b / 2)
    ensures Or(a, b) % 2 == (if a % 2 == 1 || b % 2 == 1 then 1 else 0)
  {
  }

  lemma AndHalf(a: nat, b: nat)
    ensures And(a, b) / 2 == And(a / 2, b / 2)
    ensures And(a, b) % 2 == (if a % 2 == 1 && b % 2 == 1 then 1 else 0)
  {
  }

  lemma {:induction false} OrBound(a: nat, b: nat, k: nat)
    requires a < Pow2(k) && b < Pow2(k)
    ensures Or(a, b) < Pow2(k)
  {
    if k > 0 && a != 0 && b != 0 {
      OrBound(a / 2, b / 2, k - 1);
    }
  }

  // Words are closed under |.
  lemma OrWord(a: Word, b: Word)
    ensures Or(a, b) < 0x10000
    ensures SpareClear(a) && SpareClear(b) ==> SpareClear(Or(a, b))
  {
    Pos14();
    OrBound(a, b, 16);
    if SpareClear(a) && SpareClear(b) { OrBound(a, b, 14); }
  }

  lemma {:induction false} AndOnes(a: nat, k: nat)
    requires a < Pow2(k)
    ensures And(a, Pow2(k) - 1) == a
  {
    if k > 0 && a != 0 {
      AndOnes(a / 2, k - 1);
    }
  }

  lemma {:induction false} OrOnes(a: nat, k: nat)
    requires a < Pow2(k)
    ensures Or(a, Pow2(k) - 1) == Pow2(k) - 1
  {
    if k > 0 && a != 0 {
      OrOnes(a / 2, k - 1);
    }
  }

  lemma {:induction false} AndBit(a: nat, b: nat, i: nat)
    ensures Bit(And(a, b), i) == (Bit(a, i) && Bit(b, i))
  {
    AndHalf(a, b);
    if i > 0 { AndBit(a / 2, b / 2, i - 1); }
  }

  lemma {:induction false} OrBit(a: nat, b: nat, i: nat)
    ensures Bit(Or(a, b), i) == (Bit(a, i) || Bit(b, i))
  {
    OrHalf(a, b);
    if i > 0 { OrBit(a / 2, b / 2, i - 1); }
  }

  lemma {:induction false} PosBit(i: nat, j: nat)
    ensures Bit(Pow2(i), j) == (i == j)
  {
    if j == 0 {
    } else if i == 0 {
      ZeroBits(j - 1);
    } else {
      PosBit(i - 1, j - 1);
    }
  }

  lemma {:induction false} ZeroBits(j: nat)
    ensures !Bit(0, j)
  {
    if j > 0 { ZeroBits(j - 1); }
  }

  lemma {:induction false} ComplementBit(n: nat, k: nat, i: nat)
    requires n < Pow2(k) && i < k
    ensures Bit(Pow2(k) - 1 - n, i) == !Bit(n, i)
  {
    if i > 0 {
      assert (Pow2(k) - 1 - n) / 2 == Pow2(k - 1) - 1 - n / 2;
      ComplementBit(n / 2, k - 1, i - 1);
    }
  }

  lemma {:induction false} PayloadBit(n: nat, k: nat, i: nat)
    requires i < k
    ensures Bit(n % Pow2(k), i) == Bit(n, i)
  {
    HalfMod(n, Pow2(k - 1));
    if i > 0 { PayloadBit(n / 2, k - 1, i - 1); }
  }

  // A number below 2^k is zero exactly when its k low bits are.
  lemma {:induction false} NonzeroHasBit(n: nat, k: nat)
    requires n < Pow2(k)
    ensures n != 0 <==> exists i: nat :: i < k && Bit(n, i)
  {
    if n == 0 {
      forall i: nat | i < k ensures !Bit(n, i) { ZeroBits(i); }
    } else {
      var j: nat := 0;
      if n % 2 == 0 {
        NonzeroHasBit(n / 2, k - 1);
        var i: nat :| i < k - 1 && Bit(n / 2, i);
        j := i + 1;
      }
      assert j < k && Bit(n, j);
    }
  }

  lemma {:induction false} CountBitsExtremes(n: nat, k: nat)
    requires n < Pow2(k)
    ensures CountBits(n, k) == 0 <==> n == 0
    ensures CountBits(n, k) == k <==> n == Pow2(k) - 1
  {
    if k > 0 { CountBitsExtremes(n / 2, k - 1); }
  }

  /* ---------- facts about payloads ---------- */

  lemma PayloadAnd(a: Word, b: Word)
    ensures Payload(And(a, b)) == And(Payload(a), Payload(b))
  {
    Pos14();
    AndMod(a, b, 14);
  }

  lemma PayloadOr(a: Word, b: Word)
    ensures Or(a, b) < 0x10000
    ensures Payload(Or(a, b)) == Or(Payload(a), Payload(b))
  {
    Pos14();
    OrWord(a, b);
    OrMod(a, b, 14);
  }

  lemma FillIsUnit(a: Word)
    requires SpareClear(a)
    ensures And(a, COUNT_MASK) == a && And(a, 0) == 0
    ensures Or(a, COUNT_MASK) == COUNT_MASK && Or(a, 0) == a
  {
    Pos14();
    AndOnes(a, 14);
    OrOnes(a, 14);
  }

  // Two payloads meet exactly when they have a set bit in common.
  lemma CommonBit(a: Word, b: Word)
    ensures And(Payload(a), Payload(b)) != 0 <==> exists i: nat :: i < 14 && Bit(a, i) && Bit(b, i)
  {
    Pos14();
    var x, y := Payload(a), Payload(b);
    NonzeroHasBit(And(x, y), 14);
    forall i: nat | i < 14 ensures Bit(And(x, y), i) == (Bit(a, i) && Bit(b, i)) {
      AndBit(x, y, i);
      PayloadBit(a, 14, i);
      PayloadBit(b, 14, i);
    }
    if And(x, y) != 0 {
      var i: nat :| i < 14 && Bit(And(x, y), i);
      assert Bit(a, i) && Bit(b, i);
    }
  }

  // count_bits tells the all-zero and the all-one payloads apart from the rest.
  lemma CountBitsOfPayload(w: Word)
    ensures CountBits(Payload(w), 14) == 0 <==> Payload(w) == 0
    ensures CountBits(Payload(w), 14) == 14 <==> Payload(w) == COUNT_MASK
  {
    Pos14();
    CountBitsExtremes(Payload(w), 14);
  }
}
