/** The bytes on the wire one by one: which byte holds what, and what a read makes of too few. */
module WireLaws {
  import opened ByteArrays
  import opened Chunks
  import opened Codec
  import opened Messages
  import opened Options
  import opened Powers
  import opened Varint
  import opened Words

  /* ---------- varints ---------- */

  // Groups of seven bits, the least significant first; only the last byte is below 0x80, and it
  // is not zero unless it is the only one.
  lemma {:induction false} EncodeExactly(v: nat, k: nat)
    requires k < |Encode(v)|
    ensures Encode(v)[k] % 0x80 == (v / Pow2(7 * k)) % 0x80
    ensures Encode(v)[k] < 0x80 <==> k == |Encode(v)| - 1
    ensures v > 0 ==> Encode(v)[|Encode(v)| - 1] != 0
    decreases k
  {
    EncodeEnds(v);
    if k == 0 {
      assert Pow2(0) == 1;
    } else {
      hide Pow2;
      EncodeExactly(v / 0x80, k - 1);
      assert Encode(v)[1..] == Encode(v / 0x80);
      Pow2Seven(k - 1);
      DivTwice(v, 0x80, Pow2(7 * (k - 1)));
    }
  }

  lemma {:induction false} EncodeEnds(v: nat)
    ensures v > 0 ==> Encode(v)[|Encode(v)| - 1] != 0
  {
    if v >= 0x80 { EncodeEnds(v / 0x80); }
  }

  // A value is built from its groups, those behind weighing more.
  lemma {:induction false} ValueAppend(a: seq<Byte>, b: seq<Byte>)
    ensures Value(a + b) == Value(a) + Pow2(7 * |a|) * Value(b)
  {
    if a == [] {
      assert a + b == b && Pow2(0) == 1;
    } else {
      assert (a + b)[1..] == a[1..] + b;
      ValueAppend(a[1..], b);
      hide Pow2, Value;
      Pow2Seven(|a| - 1);
      MulAssoc(0x80, Pow2(7 * (|a| - 1)), Value(b));
      assert Value(a) == a[0] % 0x80 + 0x80 * Value(a[1..]) && Value(a + b) == a[0] % 0x80 + 0x80 * Value(a[1..] + b) by { ValueFirst(a); ValueFirst(a + b); }
    }
  }

  lemma ValueFirst(a: seq<Byte>)
    requires a != []
    ensures Value(a) == a[0] % 0x80 + 0x80 * Value(a[1..])
  {
  }

  ghost predicate AllContinue(s: seq<Byte>, n: nat)
    requires n <= |s|
  {
    forall k :: 0 <= k < n ==> s[k] >= 0x80
  }

  // What a read takes: everything up to the first byte below 0x80; max bytes if none of those is;
  // nothing when the data end before.
  lemma EndExactly(s: seq<Byte>, max: nat, n: nat)
    requires n <= |s|
    ensures End(s, max) == Some(n) <==>
      n <= max && if n > 0 && s[n - 1] < 0x80 then AllContinue(s, n - 1) else n == max && AllContinue(s, n)
    ensures End(s, max) == None <==> |s| < max && AllContinue(s, |s|)
  {
    if |s| < max && AllContinue(s, |s|) {
      Truncated(s, max);
    } else if max <= |s| && AllContinue(s, max) {
      Exhausted(s, max, max);
    } else {
      var k := FirstLast(s);
      Stopped(s, k + 1, max);
    }
  }

  lemma FirstLast(s: seq<Byte>) returns (k: nat)
    requires !AllContinue(s, |s|)
    ensures k < |s| && s[k] < 0x80 && AllContinue(s, k)
  {
    k := 0;
    while s[k] >= 0x80
      invariant k < |s| && AllContinue(s, k)
      decreases |s| - k
    {
      k := k + 1;
    }
  }

  // A read that meets the end of the data takes all of them and throws.
  lemma ReadCut(s: Snapshot, bits: nat)
    requires s.Ok()
    ensures var rest := s.mem[s.pos..s.size];
      VarintOutcome(s, bits).0.None? <==> |rest| < MaxBytes(bits) && AllContinue(rest, |rest|)
    ensures VarintOutcome(s, bits).0.None? ==> VarintOutcome(s, bits).1 == s.size - s.pos
  {
    hide Pow2, End, Value, MaxBytes;
    EndExactly(Rest(s), MaxBytes(bits), 0);
  }

  /* ---------- fixed widths ---------- */

  // Byte k of a little-endian number is its k-th group of eight bits; a big-endian one is
  // the same the other way round.
  lemma FixedExactly(v: nat, n: nat, k: nat)
    requires k < n
    ensures Fixed(v, n, true)[k] == (v / Pow2(8 * k)) % 0x100
    ensures Fixed(v, n, false)[n - 1 - k] == (v / Pow2(8 * k)) % 0x100
  {
    LittleEndianExactly(v, n, k);
  }

  lemma {:induction false} LittleEndianExactly(v: nat, n: nat, k: nat)
    requires k < n
    ensures LittleEndian(v, n)[k] == (v / Pow2(8 * k)) % 0x100
    decreases k
  {
    if k == 0 {
      assert Pow2(0) == 1;
    } else {
      hide Pow2;
      LittleEndianExactly(v / 0x100, n - 1, k - 1);
      Pow2Eight(k - 1);
      DivTwice(v, 0x100, Pow2(8 * (k - 1)));
    }
  }

  // Any n bytes are those of the number they are read as.
  lemma FixedOnto(bs: seq<Byte>, little: bool)
    ensures FromFixed(bs, little) < Pow2(8 * |bs|) && Fixed(FromFixed(bs, little), |bs|, little) == bs
  {
    hide Pow2;
    LittleEndianOnto(if little then bs else Reversed(bs));
    assert Reversed(Reversed(bs)) == bs;
  }

  lemma {:induction false} LittleEndianOnto(bs: seq<Byte>)
    ensures FromLittleEndian(bs) < Pow2(8 * |bs|) && LittleEndian(FromLittleEndian(bs), |bs|) == bs
  {
    if bs == [] {
      assert Pow2(0) == 1;
    } else {
      hide Pow2;
      LittleEndianOnto(bs[1..]);
      Pow2Eight(|bs| - 1);
      assert bs == [bs[0]] + bs[1..];
    }
  }

  // Unsigned numbers go out as they are, signed ones in zigzag, each one behind the other.
  lemma NumbersExactly(ns: seq<Number>, n: Number)
    requires n.InRange()
    ensures EncodeAll([]) == [] && EncodeAll(ns + [n]) == EncodeAll(ns) + Encode(n.Wire())
    ensures n.Wire() == match n
      case U32(u) => u
      case U64(u) => u
      case S32(i) => if i < 0 then -2 * i - 1 else 2 * i
      case S64(i) => if i < 0 then -2 * i - 1 else 2 * i
  {
    hide Pow2, EncodeZigzag, Encode;
    EncodeAllSnoc(ns, n);
    if n.S32? || n.S64? { EncodeZigzagValue(n.i, n.Kind().Bits()); }
  }

  /* ---------- messages ---------- */

  // The order of the fields behind the type byte, on numbers small enough for one byte each.
  lemma SmallMessages(a: nat, b: nat, c: nat, t: Byte)
    requires a < 0x80 && b < 0x80 && c < 0x80
    ensures Request(a, b).Wire() == [1, a, b]
    ensures Response(a, b, c, [t]).Wire() == [2, a, b, c, 1, t]
    ensures Notify(a).Wire() == [3, a]
  {
  }

  // A varint cut short does not end.
  lemma {:induction false} EncodeCut(v: nat, p: seq<Byte>, max: nat)
    requires p < Encode(v) && |Encode(v)| <= max
    ensures End(p, max) == None
  {
    if p != [] {
      assert Encode(v)[1..] == Encode(v / 0x80) && p[1..] <= Encode(v)[1..] && p[0] == Encode(v)[0];
      EncodeCut(v / 0x80, p[1..], max - 1);
    }
  }

  lemma FieldCut(s: Snapshot, v: nat)
    requires s.Ok() && v < Pow2(32) && Rest(s) < Encode(v)
    ensures ReadField(s) == (None, Advance(s, s.size - s.pos))
  {
    hide Pow2, Encode, End, Value;
    EncodeFits(v, 32);
    EncodeCut(v, Rest(s), MaxBytes(32));
  }

  lemma LongCut(s: Snapshot, v: nat)
    requires s.Ok() && v < Pow2(64) && Rest(s) < Encode(v)
    ensures VarintOutcome(s, 64) == (None, s.size - s.pos)
  {
    hide Pow2, Encode, End, Value;
    EncodeFits(v, 64);
    EncodeCut(v, Rest(s), MaxBytes(64));
  }

  // Either the first part is cut short, or it is whole and what is left is cut short.
  lemma CutIn(a: seq<Byte>, b: seq<Byte>, p: seq<Byte>)
    requires p < a + b
    ensures |p| < |a| ==> p < a
    ensures |p| >= |a| ==> a <= p && p[|a|..] < b && a + p[|a|..] == p
  {
    if |p| < |a| { assert (a + b)[..|p|] == a[..|p|]; } else { assert (a + b)[|a|..][..|p| - |a|] == p[|a|..]; assert (a + b)[..|a|] == a; }
  }

  // One field of a message of which only a part has arrived.
  lemma FieldOrCut(s: Snapshot, v: nat, tail: seq<Byte>)
    requires s.Ok() && v < Pow2(32) && Rest(s) < Encode(v) + tail
    ensures |Rest(s)| < |Encode(v)| ==> ReadField(s).0 == None
    ensures |Rest(s)| >= |Encode(v)| ==>
      var s1 := Advance(s, |Encode(v)|);
      s1.Ok() && ReadField(s) == (Some(v), s1) && Rest(s1) < tail && |Rest(s1)| == |Rest(s)| - |Encode(v)|
  {
    hide Pow2, Encode, ReadField, Rest;
    CutIn(Encode(v), tail, Rest(s));
    if |Rest(s)| < |Encode(v)| {
      FieldCut(s, v);
    } else {
      var more := Rest(s)[|Encode(v)|..];
      FieldRoundTrip(s, v, more);
      RestAfter(s, |Encode(v)|);
    }
  }

  lemma RestAfter(s: Snapshot, n: nat)
    requires s.Ok() && s.pos + n <= s.size
    ensures Advance(s, n).Ok() && Rest(Advance(s, n)) == Rest(s)[n..]
  {
  }

  lemma StrCut(s: Snapshot, str: seq<Byte>)
    requires s.Ok() && |str| < Pow2(64) && Rest(s) < Encode(|str|) + str
    ensures ReadStr(s).0 == OutOfRange
  {
    hide Pow2, Encode, VarintOutcome, Rest;
    CutIn(Encode(|str|), str, Rest(s));
    if |Rest(s)| < |Encode(|str|)| {
      LongCut(s, |str|);
    } else {
      var e := |Encode(|str|)|;
      ReadNext(s, |str|, 64, Rest(s)[e..]);
      RestLength(s);
    }
  }

  lemma RestLength(s: Snapshot)
    requires s.Ok()
    ensures |Rest(s)| == s.size - s.pos
  {
  }

  // A message of which only a part has arrived is refused with an exception. The fields whose
  // bytes are all there have been assigned; the others are as they were.
  lemma ParseCut(m0: Msg, m: Msg, s: Snapshot)
    requires s.Ok() && m0.SameKind(m) && m.InRange() && Rest(s) < m.Body()
    ensures Parse(m0, s).0 == Threw
    ensures var r, n := Parse(m0, s).1, s.size - s.pos;
      match m
      case Notify(_) => r == m0
      case Request(a, _) => r == Request(if n >= |Encode(a)| then a else m0.sn, m0.cmd)
      case Response(a, b, c, _) =>
        var na := |Encode(a)|; var nb := na + |Encode(b)|; var nc := nb + |Encode(c)|;
        r == Response(if n >= na then a else m0.sn, if n >= nb then b else m0.cmd, if n >= nc then c else m0.result, m0.str)
  {
    hide Pow2, Encode, ReadField, ReadStr, Rest;
    RestLength(s);
    match m
    case Notify(a) => FieldCut(s, a);
    case Request(a, b) =>
      FieldOrCut(s, a, Encode(b));
      if |Rest(s)| >= |Encode(a)| { FieldCut(Advance(s, |Encode(a)|), b); }
    case Response(_, _, _, _) => ResponseCut(m0, m, s);
  }

  lemma ResponseCut(m0: Msg, m: Msg, s: Snapshot)
    requires s.Ok() && m0.Response? && m.Response? && m.InRange() && Rest(s) < m.Body()
    ensures var r, n := Parse(m0, s).1, s.size - s.pos;
      var na := |Encode(m.sn)|; var nb := na + |Encode(m.cmd)|; var nc := nb + |Encode(m.result)|;
      && Parse(m0, s).0 == Threw
      && r == Response(if n >= na then m.sn else m0.sn, if n >= nb then m.cmd else m0.cmd, if n >= nc then m.result else m0.result, m0.str)
  {
    hide Pow2, Encode, ReadField, ReadStr, Rest;
    RestLength(s);
    var a, b, c, str := m.sn, m.cmd, m.result, m.str;
    var t := Encode(|str|) + str;
    FieldOrCut(s, a, Encode(b) + (Encode(c) + t));
    if |Rest(s)| >= |Encode(a)| {
      var s1 := Advance(s, |Encode(a)|);
      FieldOrCut(s1, b, Encode(c) + t);
      if |Rest(s1)| >= |Encode(b)| {
        var s2 := Advance(s1, |Encode(b)|);
        FieldOrCut(s2, c, t);
        if |Rest(s2)| >= |Encode(c)| { StrCut(Advance(s2, |Encode(c)|), str); }
      }
    }
  }

  /* ---------- bitmaps ---------- */

  // The flag, then size and count in four bytes each, then the words, low byte first.
  lemma BitmapWireExactly(compressed: bool, size: nat, ws: seq<Word>, little: bool)
    ensures var w := BitmapWire(compressed, size, ws, little);
      && |w| == 9 + 2 * |ws|
      && w[0] == (if compressed then 1 else 0)
      && w[1..5] == Fixed(size, 4, little) && w[5..9] == Fixed(|ws|, 4, little)
      && forall k :: 0 <= k < |ws| ==> w[9 + 2 * k] == ws[k] % 0x100 && w[10 + 2 * k] == ws[k] / 0x100
  {
    hide Fixed, WordBytes;
    forall k | 0 <= k < |ws| ensures WordBytes(ws)[2 * k] == ws[k] % 0x100 && WordBytes(ws)[2 * k + 1] == ws[k] / 0x100 {
      WordBytesExactly(ws, k);
    }
  }

  lemma {:induction false} WordBytesExactly(ws: seq<Word>, k: nat)
    requires k < |ws|
    ensures WordBytes(ws)[2 * k] == ws[k] % 0x100 && WordBytes(ws)[2 * k + 1] == ws[k] / 0x100
    decreases k
  {
    if k > 0 { WordBytesExactly(ws[1..], k - 1); }
  }

  // How far the header gets with the bytes there are, and what it makes of them.
  lemma HeaderExactly(s: Snapshot)
    requires s.Ok()
    ensures var (f, n, d, used) := BitmapHeader(s);
      var k := s.size - s.pos;
      && (f.Some? <==> k >= 1) && (n.Some? <==> k >= 5) && (d.Some? <==> k >= 9)
      && used == (if k < 1 then 0 else if k < 5 then 1 else if k < 9 then 5 else 9)
      && (f.Some? ==> f.value == (s.mem[s.pos] != 0))
      && (n.Some? ==> n.value == FromFixed(s.mem[s.pos + 1..s.pos + 5], s.little))
      && (d.Some? ==> d.value == FromFixed(s.mem[s.pos + 5..s.pos + 9], s.little))
  {
    if s.size - s.pos >= 1 { FlagByte(s.mem, s.pos, s.little); }
    hide FromFixed;
  }

  lemma FlagByte(mem: seq<Byte>, p: nat, little: bool)
    requires p < |mem|
    ensures FromFixed(mem[p..p + 1], little) == mem[p]
  {
    var bs := mem[p..p + 1];
    assert Reversed(bs) == bs && bs[1..] == [];
    assert FromLittleEndian(bs) == bs[0] + 0x100 * FromLittleEndian([]);
  }

  // A bitmap whose words are cut short is refused with an exception behind its header.
  lemma BitmapCut(s: Snapshot)
    requires s.Ok() && s.size - s.pos >= 9
    requires 2 * FromFixed(s.mem[s.pos + 5..s.pos + 9], s.little) > s.size - s.pos - 9
    ensures BitmapOutcome(s).0 == Threw && BitmapOutcome(s).2 == s.(pos := s.pos + 9)
  {
    HeaderExactly(s);
    hide BitmapHeader, FromFixed;
  }
}
