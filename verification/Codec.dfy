/** The integer and string codecs of ByteArray, on top of its write and read. */
module Codec {
  import Words
  import opened ByteArrays
  import opened Chunks
  import opened Options
  import opened Powers
  import opened Varint

  // The unread data.
  function Rest(s: Snapshot): seq<Byte>
    requires s.pos <= s.size <= |s.mem|
  {
    s.mem[s.pos..s.size]
  }

  // What reading a varint of the given width yields, and how far it moves the cursor. When
  // the data end in the middle, the exception leaves the bytes seen so far consumed.
  function VarintOutcome(s: Snapshot, bits: nat): (Option<nat>, nat)
    requires s.pos <= s.size <= |s.mem|
  {
    var rest := Rest(s);
    var n := End(rest, MaxBytes(bits));
    if n.Some? then (Some(Value(rest[..n.value]) % Pow2(bits)), n.value) else (None, |rest|)
  }

  // writeUint32 and writeUint64: tmp has 5 or 10 bytes and is never overrun.
  method WriteUint(ba: ByteArray, value: nat, bits: nat)
    requires ba.Valid() && (bits == 32 || bits == 64) && value < Pow2(bits)
    modifies ba.Repr
    ensures ba.Valid() && fresh(ba.Repr - old(ba.Repr))
    ensures Wrote(ba.State(), old(ba.State()), Encode(value))
  {
    hide ByteArray.Valid, Wrote, Encode, Pow2;
    var tmp, i := EncodeTmp(value, bits);
    ba.Write(tmp[..i]);
  }

  // The loop that fills tmp.
  method EncodeTmp(value: nat, bits: nat) returns (tmp: array<Byte>, i: nat)
    requires bits > 0 && value < Pow2(bits)
    ensures fresh(tmp) && i <= tmp.Length == MaxBytes(bits) && tmp[..i] == Encode(value)
  {
    hide Pow2, MaxBytes;
    tmp := new Byte[MaxBytes(bits)];
    i := 0;
    var v := value;
    EncodeFits(value, bits);
    while v >= 0x80
      invariant i + |Encode(v)| <= tmp.Length
      invariant tmp[..i] + Encode(v) == Encode(value)
      decreases v
    {
      ghost var done := tmp[..i];
      assert done + ([v % 0x80 + 0x80] + Encode(v / 0x80)) == (done + [v % 0x80 + 0x80]) + Encode(v / 0x80);
      tmp[i] := v % 0x80 + 0x80;
      i := i + 1;
      assert tmp[..i] == done + [v % 0x80 + 0x80];
      v := v / 0x80;
    }
    ghost var done := tmp[..i];
    tmp[i] := v;
    i := i + 1;
    assert tmp[..i] == done + [v];
  }

  // readFuint8
  method ReadByte(ba: ByteArray) returns (b: Option<Byte>)
    requires ba.Valid()
    modifies ba`position, ba`cur, ba`curIndex
    ensures ba.Valid()
    ensures var s := old(ba.State()); var rest := Rest(s);
      b == (if rest == [] then None else Some(rest[0])) && Took(ba.State(), s, if rest == [] then 0 else 1)
  {
    var r := ba.Read(1);
    b := if r.Bytes? then Some(r.bytes[0]) else None;
  }

  // readUint32 and readUint64
  method ReadUint(ba: ByteArray, bits: nat) returns (r: Option<nat>)
    requires ba.Valid() && (bits == 32 || bits == 64)
    modifies ba`position, ba`cur, ba`curIndex
    ensures ba.Valid()
    ensures r == VarintOutcome(old(ba.State()), bits).0
    ensures Took(ba.State(), old(ba.State()), VarintOutcome(old(ba.State()), bits).1)
  {
    hide Pow2, ByteArray.Valid, Value, End, Took, Rest;
    ghost var s0 := ba.State();
    ghost var rest := Rest(s0);
    var result: nat := 0;
    var i: nat := 0;
    ghost var n: nat := 0;
    ReadNothing(rest);
    TookNothing(s0);
    while i < bits
      invariant ba.Valid() && Took(ba.State(), s0, n) && n <= |rest| && i == 7 * n && n <= MaxBytes(bits)
      invariant result == Value(rest[..n]) % Pow2(bits)
      invariant forall k :: 0 <= k < n ==> rest[k] >= 0x80
      decreases bits - i
    {
      ghost var s1 := ba.State();
      TookRest(s1, s0, n);
      var b := ReadByte(ba);
      if b.None? {
        TookMore(ba.State(), s1, s0, n, 0);
        Truncated(rest, MaxBytes(bits));
        return None;
      }
      TookMore(ba.State(), s1, s0, n, 1);
      ReadDigit(rest, n, bits);
      // result |= (b & 0x7f) << i
      result := (result + (b.value % 0x80) * Pow2(i)) % Pow2(bits);
      n := n + 1;
      if b.value < 0x80 {
        Stopped(rest, n, MaxBytes(bits));
        return Some(result);
      }
      i := i + 7;
    }
    Exhausted(rest, n, MaxBytes(bits));
    r := Some(result);
  }

  lemma TookNothing(s: Snapshot)
    ensures Took(s, s, 0)
  {
  }

  lemma TookIs(s: Snapshot, s0: Snapshot, n: nat)
    requires Took(s, s0, n)
    ensures s == s0.(pos := s0.pos + n)
  {
  }

  lemma TookRest(s: Snapshot, s0: Snapshot, n: nat)
    requires s.Ok() && s0.Ok() && Took(s, s0, n)
    ensures n <= |Rest(s0)| && Rest(s) == Rest(s0)[n..]
  {
  }

  lemma TookMore(s: Snapshot, s1: Snapshot, s0: Snapshot, n: nat, m: nat)
    requires Took(s1, s0, n) && Took(s, s1, m)
    ensures Took(s, s0, n + m)
  {
  }

  lemma ReadNothing(rest: seq<Byte>)
    ensures Value(rest[..0]) == 0 && forall m: nat :: 0 % Pow2(m) == 0
  {
  }

  lemma {:induction false} ValueSnoc(bs: seq<Byte>, b: Byte)
    ensures Value(bs + [b]) == Value(bs) + (b % 0x80) * Pow2(7 * |bs|)
  {
    if bs == [] {
      assert bs + [b] == [b];
      assert Value([b]) == b % 0x80;
    } else {
      assert (bs + [b])[1..] == bs[1..] + [b];
      ValueSnoc(bs[1..], b);
      Pow2Seven(|bs| - 1);
      MulScale(0x80, b % 0x80, Pow2(7 * (|bs| - 1)));
    }
  }

  lemma ModSum(a: nat, b: nat, m: nat)
    requires m > 0
    ensures (a % m + b) % m == (a + b) % m
  {
    var q := a / m;
    assert a == m * q + a % m;
    ModShift(a % m + b, q, m);
  }

  lemma {:induction false} ModShift(x: nat, q: nat, m: nat)
    requires m > 0
    ensures (m * q + x) % m == x % m
  {
    var y := x / m;
    assert x == m * y + x % m;
    assert m * q + x == m * (q + y) + x % m by { Distribute(m, q, y); }
    Words.ModOfSum(q + y, x % m, m);
  }

  lemma Distribute(m: int, a: int, b: int)
    ensures m * (a + b) == m * a + m * b
  {
  }

  lemma ReadDigit(rest: seq<Byte>, n: nat, bits: nat)
    requires n < |rest|
    ensures (Value(rest[..n]) % Pow2(bits) + (rest[n] % 0x80) * Pow2(7 * n)) % Pow2(bits) == Value(rest[..n + 1]) % Pow2(bits)
  {
    hide Pow2, Value;
    assert rest[..n + 1] == rest[..n] + [rest[n]];
    ValueSnoc(rest[..n], rest[n]);
    ModSum(Value(rest[..n]), (rest[n] % 0x80) * Pow2(7 * n), Pow2(bits));
  }

  lemma {:induction false} Truncated(rest: seq<Byte>, max: nat)
    requires |rest| < max && forall k :: 0 <= k < |rest| ==> rest[k] >= 0x80
    ensures End(rest, max) == None
  {
    if rest != [] { Truncated(rest[1..], max - 1); }
  }

  lemma {:induction false} Stopped(rest: seq<Byte>, n: nat, max: nat)
    requires 0 < n <= |rest| && n <= max && rest[n - 1] < 0x80
    requires forall k :: 0 <= k < n - 1 ==> rest[k] >= 0x80
    ensures End(rest, max) == Some(n)
  {
    if n > 1 { Stopped(rest[1..], n - 1, max - 1); }
  }

  lemma {:induction false} Exhausted(rest: seq<Byte>, n: nat, max: nat)
    requires n == max <= |rest| && forall k :: 0 <= k < n ==> rest[k] >= 0x80
    ensures End(rest, max) == Some(n)
  {
    if n > 0 { Exhausted(rest[1..], n - 1, max - 1); }
  }

  /* ---------- fixed width ---------- */

  // writeFuint8 .. writeFuint64: n bytes in the buffer's byte order.
  method WriteFixed(ba: ByteArray, value: nat, n: nat)
    requires ba.Valid() && value < Pow2(8 * n)
    modifies ba.Repr
    ensures ba.Valid() && fresh(ba.Repr - old(ba.Repr))
    ensures Wrote(ba.State(), old(ba.State()), Fixed(value, n, old(ba.littleEndian)))
  {
    hide ByteArray.Valid;
    var bytes := Fixed(value, n, ba.littleEndian);
    ba.Write(bytes);
  }

  method ReadFixed(ba: ByteArray, n: nat) returns (r: Option<nat>)
    requires ba.Valid() && n > 0
    modifies ba`position, ba`cur, ba`curIndex
    ensures ba.Valid()
    ensures var s := old(ba.State());
      && r == FixedOutcome(s, n)
      && Took(ba.State(), s, if r.Some? then n else 0)
  {
    hide ByteArray.Valid, FromFixed, ReadOutcome;
    ghost var s := ba.State();
    var b := ba.Read(n);
    if b.Bytes? { assert b.bytes == s.mem[s.pos..s.pos + n]; }
    r := if b.Bytes? then Some(FromFixed(b.bytes, ba.littleEndian)) else None;
  }

  function FixedOutcome(s: Snapshot, n: nat): Option<nat>
    requires s.pos <= s.size <= |s.mem|
  {
    if n > s.size - s.pos then None else Some(FromFixed(s.mem[s.pos..s.pos + n], s.little))
  }

  /* ---------- strings ---------- */

  // writeStringVint
  method WriteStringVint(ba: ByteArray, str: seq<Byte>)
    requires ba.Valid() && |str| < Pow2(64)
    modifies ba.Repr
    ensures ba.Valid() && fresh(ba.Repr - old(ba.Repr))
    ensures Wrote(ba.State(), old(ba.State()), Encode(|str|) + str)
  {
    hide ByteArray.Valid, Wrote, Encode, Pow2;
    ghost var s0 := ba.State();
    WriteUint(ba, |str|, 64);
    ghost var s1 := ba.State();
    ba.Write(str);
    WroteMore(ba.State(), s1, s0, Encode(|str|), str);
  }

  // readStringVint: the length, then that many bytes.
  method ReadStringVint(ba: ByteArray) returns (r: ReadResult)
    requires ba.Valid()
    modifies ba`position, ba`cur, ba`curIndex
    ensures ba.Valid()
    ensures var s := old(ba.State()); var (len, used) := VarintOutcome(s, 64);
      && used <= s.size - s.pos
      && var s1 := s.(pos := s.pos + used);
      && r == (if len.None? then OutOfRange else ReadOutcome(s1, len.value))
      && Took(ba.State(), s1, if r.Bytes? then len.value else 0)
  {
    hide ByteArray.Valid;
    var len := ReadUint(ba, 64);
    if len.None? { return OutOfRange; }
    r := ba.Read(len.value);
  }

  // writeStringF16/F32/F64: the length in n bytes, cut off to that width, then the bytes.
  method WriteStringF(ba: ByteArray, str: seq<Byte>, n: nat)
    requires ba.Valid() && n > 0
    modifies ba.Repr
    ensures ba.Valid() && fresh(ba.Repr - old(ba.Repr))
    ensures Wrote(ba.State(), old(ba.State()), StringF(str, n, old(ba.littleEndian)))
  {
    hide ByteArray.Valid, Wrote, Pow2;
    ghost var s0 := ba.State();
    WriteFixed(ba, |str| % Pow2(8 * n), n);
    ghost var s1 := ba.State();
    ba.Write(str);
    WroteMore(ba.State(), s1, s0, Fixed(|str| % Pow2(8 * n), n, s0.little), str);
  }

  function StringF(str: seq<Byte>, n: nat, little: bool): seq<Byte>
  {
    Fixed(|str| % Pow2(8 * n), n, little) + str
  }

  // readStringF16/F32/F64
  method ReadStringF(ba: ByteArray, n: nat) returns (r: ReadResult)
    requires ba.Valid() && n > 0
    modifies ba`position, ba`cur, ba`curIndex
    ensures ba.Valid()
    ensures r == StringFOutcome(old(ba.State()), n)
    ensures var s := old(ba.State());
      Took(ba.State(), s, (if FixedOutcome(s, n).Some? then n else 0) + (if r.Bytes? then |r.bytes| else 0))
  {
    hide ByteArray.Valid;
    var len := ReadFixed(ba, n);
    if len.None? { return OutOfRange; }
    r := ba.Read(len.value);
  }

  function StringFOutcome(s: Snapshot, n: nat): ReadResult
    requires s.pos <= s.size <= |s.mem|
  {
    var len := FixedOutcome(s, n);
    if len.None? then OutOfRange else ReadOutcome(s.(pos := s.pos + n), len.value)
  }

  // A string with a fixed-width length comes back exactly when its size fits the width
  // and it is not empty at the very end of the memory.
  lemma StringFRoundTripExactly(s: Snapshot, s0: Snapshot, str: seq<Byte>, n: nat)
    requires n > 0 && s0.Ok() && s.Ok() && Wrote(s, s0, StringF(str, n, s0.little))
    ensures StringFOutcome(s.(pos := s0.pos), n) == Bytes(str) <==>
      |str| < Pow2(8 * n) && (str != [] || s0.pos + n < |s.mem|)
  {
    hide Pow2, Fixed, FromFixed, StringF, Wrote;
    var m := |str| % Pow2(8 * n);
    FixedRoundTrip(m, n, s0.little);
    StringFSlices(s, s0, str, n);
    if |str| < Pow2(8 * n) { ModSmall(|str|, Pow2(8 * n)); }
  }

  lemma StringFSlices(s: Snapshot, s0: Snapshot, str: seq<Byte>, n: nat)
    requires s0.Ok() && s.Ok() && Wrote(s, s0, StringF(str, n, s0.little))
    ensures s.little == s0.little && s0.pos + n + |str| <= s.size
    ensures s.mem[s0.pos..s0.pos + n] == Fixed(|str| % Pow2(8 * n), n, s0.little)
    ensures s.mem[s0.pos + n..s0.pos + n + |str|] == str
  {
    hide Pow2, Fixed;
    var all := StringF(str, n, s0.little);
    WroteReadable(s, s0, all);
    SubSlice(s.mem, s0.pos, |all|, 0, n);
    SubSlice(s.mem, s0.pos, |all|, n, |str|);
    assert all[n..n + |str|] == str;
  }

  /* ---------- streams of integers ---------- */

  // Which of the read and write functions: readInt64 and the like.
  datatype Kind = IntKind(signed: bool, wide: bool) {
    function Bits(): nat { if wide then 64 else 32 }
  }

  datatype Number = U32(u: nat) | U64(u: nat) | S32(i: int) | S64(i: int) {
    predicate InRange()
    {
      match this
      case U32(u) => u < Pow2(32)
      case U64(u) => u < Pow2(64)
      case S32(i) => Signed(i, 32)
      case S64(i) => Signed(i, 64)
    }

    function Kind(): Kind
    {
      match this
      case U32(_) => IntKind(false, false)
      case U64(_) => IntKind(false, true)
      case S32(_) => IntKind(true, false)
      case S64(_) => IntKind(true, true)
    }

    // The unsigned value that is put on the wire.
    function Wire(): nat
    {
      if U32? || U64? then u else EncodeZigzag(i, Kind().Bits())
    }
  }

  // The number of this kind that a wire value stands for.
  function Unwire(kind: Kind, w: nat): Number
  {
    if kind.signed
    then if kind.wide then S64(DecodeZigzag(w, 64)) else S32(DecodeZigzag(w, 32))
    else if kind.wide then U64(w) else U32(w)
  }

  function Kinds(ns: seq<Number>): (ks: seq<Kind>)
    ensures |ks| == |ns|
  {
    if ns == [] then [] else [ns[0].Kind()] + Kinds(ns[1..])
  }

  function EncodeAll(ns: seq<Number>): seq<Byte>
  {
    if ns == [] then [] else Encode(ns[0].Wire()) + EncodeAll(ns[1..])
  }

  lemma WireFits(n: Number)
    requires n.InRange()
    ensures n.Wire() < Pow2(n.Kind().Bits()) && Unwire(n.Kind(), n.Wire()) == n
  {
    hide Pow2, EncodeZigzag, DecodeZigzag;
    if n.S32? || n.S64? {
      EncodeZigzagValue(n.i, n.Kind().Bits());
      ZigzagRoundTrip(n.i, n.Kind().Bits());
    }
  }

  method WriteAll(ba: ByteArray, ns: seq<Number>)
    requires ba.Valid() && forall n :: n in ns ==> n.InRange()
    modifies ba.Repr
    ensures ba.Valid() && fresh(ba.Repr - old(ba.Repr))
    ensures Wrote(ba.State(), old(ba.State()), EncodeAll(ns))
  {
    hide ByteArray.Valid, Wrote, Encode, Pow2, EncodeZigzag;
    ghost var s0 := ba.State();
    WroteNothing(s0);
    assert ns[..0] == [];
    for k := 0 to |ns|
      invariant ba.Valid() && fresh(ba.Repr - old(ba.Repr)) && Wrote(ba.State(), s0, EncodeAll(ns[..k]))
    {
      WireFits(ns[k]);
      ghost var s1 := ba.State();
      WriteUint(ba, ns[k].Wire(), ns[k].Kind().Bits());
      WroteMore(ba.State(), s1, s0, EncodeAll(ns[..k]), Encode(ns[k].Wire()));
      assert ns[..k + 1] == ns[..k] + [ns[k]];
      EncodeAllSnoc(ns[..k], ns[k]);
    }
    assert ns[..|ns|] == ns;
  }

  lemma WroteNothing(s: Snapshot)
    requires s.Ok()
    ensures Wrote(s, s, [])
  {
  }

  lemma {:induction false} EncodeAllSnoc(ns: seq<Number>, n: Number)
    ensures EncodeAll(ns + [n]) == EncodeAll(ns) + Encode(n.Wire())
  {
    hide Encode;
    if ns == [] {
      assert ns + [n] == [n];
      assert EncodeAll([n]) == Encode(n.Wire()) + EncodeAll([]);
    } else {
      assert (ns + [n])[1..] == ns[1..] + [n];
      EncodeAllSnoc(ns[1..], n);
    }
  }

  // What reading one number of each kind in turn yields, for any bytes, and how far it moves.
  function NumbersOutcome(s: Snapshot, kinds: seq<Kind>): (r: (Option<seq<Number>>, nat))
    requires s.pos <= s.size <= |s.mem|
    ensures r.1 <= s.size - s.pos
    decreases |kinds|
  {
    if kinds == [] then (Some([]), 0)
    else
      var (w, used) := VarintOutcome(s, kinds[0].Bits());
      if w.None? then (None, used)
      else
        var (rest, more) := NumbersOutcome(s.(pos := s.pos + used), kinds[1..]);
        (if rest.None? then None else Some([Unwire(kinds[0], w.value)] + rest.value), used + more)
  }

  // Reads until one of them throws.
  method ReadAll(ba: ByteArray, kinds: seq<Kind>) returns (back: Option<seq<Number>>)
    requires ba.Valid()
    modifies ba`position, ba`cur, ba`curIndex
    ensures ba.Valid()
    ensures back == NumbersOutcome(old(ba.State()), kinds).0
    ensures Took(ba.State(), old(ba.State()), NumbersOutcome(old(ba.State()), kinds).1)
  {
    hide ByteArray.Valid, VarintOutcome, Unwire, NumbersOutcome, Took;
    ghost var s0 := ba.State();
    ghost var all := NumbersOutcome(s0, kinds);
    var ns: seq<Number> := [];
    ghost var used: nat := 0;
    assert kinds[0..] == kinds;
    TookNothing(s0);
    assert all.0.Some? ==> ns + all.0.value == all.0.value;
    for k := 0 to |kinds|
      invariant ba.Valid() && Took(ba.State(), s0, used)
      invariant var (rest, more) := NumbersOutcome(ba.State(), kinds[k..]);
        all == (if rest.None? then None else Some(ns + rest.value), used + more)
    {
      ghost var s := ba.State();
      NumbersStep(s, kinds[k..]);
      assert kinds[k..][1..] == kinds[k + 1..];
      var w := ReadUint(ba, kinds[k].Bits());
      ghost var step := VarintOutcome(s, kinds[k].Bits()).1;
      assert ba.State() == s.(pos := s.pos + step) by { TookIs(ba.State(), s, step); }
      TookMore(ba.State(), s, s0, used, step);
      used := used + step;
      if w.None? {
        return None;
      }
      ghost var rest := NumbersOutcome(ba.State(), kinds[k + 1..]).0;
      if rest.Some? { assert ns + ([Unwire(kinds[k], w.value)] + rest.value) == (ns + [Unwire(kinds[k], w.value)]) + rest.value; }
      ns := ns + [Unwire(kinds[k], w.value)];
    }
    assert kinds[|kinds|..] == [] && ns + [] == ns;
    NumbersDone(ba.State());
    back := Some(ns);
  }

  lemma NumbersDone(s: Snapshot)
    requires s.Ok()
    ensures NumbersOutcome(s, []) == (Some([]), 0)
  {
  }

  lemma NumbersStep(s: Snapshot, kinds: seq<Kind>)
    requires s.Ok() && kinds != []
    ensures var (w, used) := VarintOutcome(s, kinds[0].Bits());
      && used <= s.size - s.pos
      && var (rest, more) := NumbersOutcome(s.(pos := s.pos + used), kinds[1..]);
      NumbersOutcome(s, kinds) == if w.None? then (None, used)
        else (if rest.None? then None else Some([Unwire(kinds[0], w.value)] + rest.value), used + more)
  {
  }

  // Any numbers, encoded back to back in front of anything, are what their kinds read.
  lemma {:induction false} NumbersReadBack(s: Snapshot, ns: seq<Number>, more: seq<Byte>)
    requires s.Ok() && (forall n :: n in ns ==> n.InRange()) && EncodeAll(ns) + more <= Rest(s)
    ensures NumbersOutcome(s, Kinds(ns)) == (Some(ns), |EncodeAll(ns)|)
    decreases |ns|
  {
    hide Encode, Pow2, EncodeZigzag, DecodeZigzag, VarintOutcome, Rest;
    if ns != [] {
      var n, tail, e := ns[0], EncodeAll(ns[1..]), Encode(ns[0].Wire());
      WireFits(n);
      assert EncodeAll(ns) + more == e + (tail + more);
      ReadNext(s, n.Wire(), n.Kind().Bits(), tail + more);
      NumbersReadBack(s.(pos := s.pos + |e|), ns[1..], more);
      assert Kinds(ns)[1..] == Kinds(ns[1..]) && ns == [n] + ns[1..];
      NumbersStep(s, Kinds(ns));
    }
  }

  // A varint at the cursor is read back whole, and what followed it is next.
  lemma ReadNext(s: Snapshot, v: nat, bits: nat, more: seq<Byte>)
    requires s.Ok() && (bits == 32 || bits == 64) && v < Pow2(bits)
    requires Encode(v) + more <= Rest(s)
    ensures VarintOutcome(s, bits) == (Some(v), |Encode(v)|)
    ensures s.pos + |Encode(v)| <= s.size
    ensures more <= Rest(s.(pos := s.pos + |Encode(v)|))
  {
    hide Pow2, Encode, End, Value;
    var rest, e := Rest(s), Encode(v);
    assert rest == e + rest[|e|..] by { assert rest[..|e|] == (e + more)[..|e|] == e; }
    RoundTrip(v, bits, rest[|e|..]);
    assert rest[..|e|] == e;
    assert rest[|e|..] == Rest(s.(pos := s.pos + |e|));
    assert rest[..|e + more|][|e|..] == more;
  }

  // Any numbers written back to back at any place are read back in order: the bytes are theirs,
  // and those bytes are read as them.
  method StreamRoundTrip(ba: ByteArray, ns: seq<Number>) returns (back: Option<seq<Number>>)
    requires ba.Valid() && forall n :: n in ns ==> n.InRange()
    modifies ba.Repr
    ensures ba.Valid() && fresh(ba.Repr - old(ba.Repr))
    ensures Wrote(ba.State(), old(ba.State()), EncodeAll(ns))
    ensures var s := ba.State().(pos := old(ba.position));
      s.Ok() && NumbersOutcome(s, Kinds(ns)) == (back, |EncodeAll(ns)|)
    ensures back == Some(ns)
  {
    hide ByteArray.Valid, Wrote, EncodeAll, Number.InRange, NumbersOutcome;
    var start := ba.position;
    ghost var s0 := ba.State();
    WriteAll(ba, ns);
    ghost var s1, e := ba.State(), EncodeAll(ns);
    WroteReadable(s1, s0, e);
    WroteEnd(s1, s0, e);
    var ok := ba.SetPosition(start);
    ghost var s2 := s1.(pos := start);
    assert ba.State() == s2;
    assert Rest(s2)[..|e|] == e && e + [] == e;
    NumbersReadBack(s2, ns, []);
    back := ReadAll(ba, Kinds(ns));
    assert ba.State() == s1;
  }

  lemma WroteEnd(s: Snapshot, s0: Snapshot, bytes: seq<Byte>)
    requires Wrote(s, s0, bytes)
    ensures s.pos == s0.pos + |bytes|
  {
  }
}
