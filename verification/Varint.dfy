/** Variable-length integers (unsigned LEB128, section 7.6 of DWARF Version 4) and the
    zigzag mapping of signed integers, as value functions. */
module Varint {
  import opened Chunks
  import opened Options
  import opened Powers

  // The bytes writeUint32/writeUint64 put out.
  function Encode(v: nat): (bs: seq<Byte>)
    ensures bs != []
  {
    if v < 0x80 then [v] else [v % 0x80 + 0x80] + Encode(v / 0x80)
  }

  // What groups of seven bits stand for, least significant first.
  function Value(bs: seq<Byte>): nat
  {
    if bs == [] then 0 else bs[0] % 0x80 + 0x80 * Value(bs[1..])
  }

  // How many bytes a read takes: up to the first byte below 0x80, at most max;
  // None if the input ends before that.
  function End(s: seq<Byte>, max: nat): (n: Option<nat>)
    ensures n.Some? ==> n.value <= |s| && n.value <= max
  {
    if max == 0 then Some(0)
    else if s == [] then None
    else if s[0] < 0x80 then Some(1)
    else
      var n := End(s[1..], max - 1);
      if n.Some? then Some(n.value + 1) else None
  }

  // ceil(bits / 7): the number of rounds of the reading loop, and the size of tmp.
  function MaxBytes(bits: nat): nat { (bits + 6) / 7 }

  lemma {:induction false} ValueOfEncode(v: nat)
    ensures Value(Encode(v)) == v
  {
    if v >= 0x80 {
      ValueOfEncode(v / 0x80);
      assert Encode(v)[1..] == Encode(v / 0x80);
    }
  }

  // A read stops exactly behind what was written, whatever follows.
  lemma {:induction false} EndOfEncode(v: nat, rest: seq<Byte>, max: nat)
    requires |Encode(v)| <= max
    ensures End(Encode(v) + rest, max) == Some(|Encode(v)|)
  {
    if v >= 0x80 {
      EndOfEncode(v / 0x80, rest, max - 1);
      assert (Encode(v) + rest)[1..] == Encode(v / 0x80) + rest;
    }
  }

  // The encoding is minimal: n bytes exactly for the values that need n groups of seven bits.
  lemma {:induction false} EncodeLength(v: nat, n: nat)
    requires n > 0
    ensures |Encode(v)| <= n <==> v < Pow2(7 * n)
  {
    Pow2Seven(n - 1);
    if v < 0x80 {
      assert Pow2(7 * (n - 1)) >= 1;
    } else if n == 1 {
      assert Pow2(0) == 1;
    } else {
      EncodeLength(v / 0x80, n - 1);
    }
  }

  lemma Pow2Seven(n: nat)
    ensures Pow2(7 * (n + 1)) == 0x80 * Pow2(7 * n)
  {
    var k := 7 * n;
    assert Pow2(k + 7) == 2 * Pow2(k + 6);
    assert Pow2(k + 6) == 2 * Pow2(k + 5);
    assert Pow2(k + 5) == 2 * Pow2(k + 4);
    assert Pow2(k + 4) == 2 * Pow2(k + 3);
    assert Pow2(k + 3) == 2 * Pow2(k + 2);
    assert Pow2(k + 2) == 2 * Pow2(k + 1);
  }

  lemma {:induction false} Pow2Mono(m: nat, n: nat)
    requires m <= n
    ensures Pow2(m) <= Pow2(n)
  {
    if m < n { Pow2Mono(m, n - 1); }
  }

  // A value of the given width never overruns tmp.
  lemma EncodeFits(v: nat, bits: nat)
    requires bits > 0 && v < Pow2(bits)
    ensures |Encode(v)| <= MaxBytes(bits)
  {
    Pow2Mono(bits, 7 * MaxBytes(bits));
    EncodeLength(v, MaxBytes(bits));
  }

  // Writing then reading a value gives it back, and takes exactly its bytes.
  lemma RoundTrip(v: nat, bits: nat, rest: seq<Byte>)
    requires bits > 0 && v < Pow2(bits)
    ensures End(Encode(v) + rest, MaxBytes(bits)) == Some(|Encode(v)|)
    ensures Value(Encode(v)) % Pow2(bits) == v
  {
    hide Encode, End, Value, Pow2;
    EncodeFits(v, bits);
    EndOfEncode(v, rest, MaxBytes(bits));
    ValueOfEncode(v);
    ModSmall(v, Pow2(bits));
  }

  /* ---------- zigzag ---------- */

  predicate Signed(v: int, bits: nat)
    requires bits > 0
  {
    0 - Pow2(bits - 1) <= v < Pow2(bits - 1)
  }

  // EncodeZigzag32/64, with the wrap-around of the machine's arithmetic.
  function EncodeZigzag(v: int, bits: nat): nat
    requires bits > 0
  {
    var m := Pow2(bits);
    if v < 0 then (((-v) % m) * 2 - 1) % m else (v * 2) % m
  }

  // DecodeZigzag32/64: (u >> 1) ^ -(u & 1), read as a signed integer.
  function DecodeZigzag(u: nat, bits: nat): int
    requires bits > 0
  {
    var m := Pow2(bits);
    var x := if u % 2 == 1 then m - 1 - u / 2 else u / 2;
    if x >= Pow2(bits - 1) then x - m else x
  }

  lemma ModSmall(a: int, m: nat)
    requires 0 <= a < m
    ensures a % m == a
  {
  }

  // The encoder in closed form, the minimum integer included.
  lemma EncodeZigzagValue(v: int, bits: nat)
    requires bits > 0 && Signed(v, bits)
    ensures EncodeZigzag(v, bits) == if v < 0 then -2 * v - 1 else 2 * v
    ensures EncodeZigzag(v, bits) < Pow2(bits)
  {
    assert Pow2(bits) == 2 * Pow2(bits - 1);
    hide Pow2;
    ZigzagMod(v, Pow2(bits), Pow2(bits - 1));
  }

  lemma ZigzagMod(v: int, m: nat, half: nat)
    requires m == 2 * half && 0 - half <= v < half
    ensures if v < 0 then ((-v) % m * 2 - 1) % m == -2 * v - 1 else (v * 2) % m == 2 * v
  {
    if v < 0 {
      ModSmall(-v, m);
      ModSmall((-v) * 2 - 1, m);
    } else {
      ModSmall(v * 2, m);
    }
  }

  lemma ZigzagRoundTrip(v: int, bits: nat)
    requires bits > 0 && Signed(v, bits)
    ensures DecodeZigzag(EncodeZigzag(v, bits), bits) == v
  {
    EncodeZigzagValue(v, bits);
  }

  // ... and the other way round: zigzag is a bijection.
  lemma ZigzagOnto(u: nat, bits: nat)
    requires bits > 0 && u < Pow2(bits)
    ensures Signed(DecodeZigzag(u, bits), bits)
    ensures EncodeZigzag(DecodeZigzag(u, bits), bits) == u
  {
    assert Pow2(bits) == 2 * Pow2(bits - 1);
    EncodeZigzagValue(DecodeZigzag(u, bits), bits);
  }

  /* ---------- fixed width ---------- */

  function LittleEndian(v: nat, n: nat): (bs: seq<Byte>)
    ensures |bs| == n
  {
    if n == 0 then [] else [v % 0x100] + LittleEndian(v / 0x100, n - 1)
  }

  function FromLittleEndian(bs: seq<Byte>): nat
  {
    if bs == [] then 0 else bs[0] + 0x100 * FromLittleEndian(bs[1..])
  }

  function Reversed(bs: seq<Byte>): (r: seq<Byte>)
    ensures |r| == |bs| && forall i :: 0 <= i < |bs| ==> r[i] == bs[|bs| - 1 - i]
  {
    seq(|bs|, i requires 0 <= i < |bs| => bs[|bs| - 1 - i])
  }

  // The bytes of a fixed-width integer on a little-endian host: swapped for a big-endian buffer.
  function Fixed(v: nat, n: nat, little: bool): (bs: seq<Byte>)
    ensures |bs| == n
  {
    if little then LittleEndian(v, n) else Reversed(LittleEndian(v, n))
  }

  function FromFixed(bs: seq<Byte>, little: bool): nat
  {
    FromLittleEndian(if little then bs else Reversed(bs))
  }

  lemma {:induction false} LittleEndianRoundTrip(v: nat, n: nat)
    requires v < Pow2(8 * n)
    ensures FromLittleEndian(LittleEndian(v, n)) == v
  {
    if n > 0 {
      Pow2Eight(n - 1);
      LittleEndianRoundTrip(v / 0x100, n - 1);
      assert LittleEndian(v, n)[1..] == LittleEndian(v / 0x100, n - 1);
    }
  }

  lemma Pow2Eight(n: nat)
    ensures Pow2(8 * (n + 1)) == 0x100 * Pow2(8 * n)
  {
    var k := 8 * n;
    assert Pow2(k + 8) == 2 * Pow2(k + 7);
    assert Pow2(k + 7) == 2 * Pow2(k + 6);
    assert Pow2(k + 6) == 2 * Pow2(k + 5);
    assert Pow2(k + 5) == 2 * Pow2(k + 4);
    assert Pow2(k + 4) == 2 * Pow2(k + 3);
    assert Pow2(k + 3) == 2 * Pow2(k + 2);
    assert Pow2(k + 2) == 2 * Pow2(k + 1);
  }

  // Reading with the byte order used for writing gives the value back.
  lemma FixedRoundTrip(v: nat, n: nat, little: bool)
    requires v < Pow2(8 * n)
    ensures FromFixed(Fixed(v, n, little), little) == v
  {
    LittleEndianRoundTrip(v, n);
    assert Reversed(Reversed(LittleEndian(v, n))) == LittleEndian(v, n);
  }

  lemma Widths()
    ensures Pow2(8) == 0x100 && Pow2(16) == 0x1_0000 && Pow2(32) == 0x1_0000_0000 && Pow2(64) == 0x1_0000_0000_0000_0000
    ensures MaxBytes(32) == 5 && MaxBytes(64) == 10
  {
    assert Pow2(0) == 1;
    Pow2Eight(0);
    Pow2Eight(1);
    Pow2Eight(2);
    Pow2Eight(3);
    Pow2Eight(4);
    Pow2Eight(5);
    Pow2Eight(6);
    Pow2Eight(7);
  }
}
