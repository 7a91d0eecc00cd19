/** The messages of the protocol, and Bitmap's own serialization, on a ByteArray. */
module Messages {
  import opened Bitmaps
  import opened ByteArrays
  import opened Chunks
  import opened Codec
  import opened Options
  import opened Powers
  import opened Varint
  import opened Words

  // What a parse comes to: done, an exception of one of its reads, or a zero-length read
  // at the end of the memory.
  datatype Status = Parsed | Threw | Crashed

  // The fields of Request, Response and Notify; the numbers are 32-bit.
  datatype Msg =
    | Request(sn: nat, cmd: nat)
    | Response(sn: nat, cmd: nat, result: nat, str: seq<Byte>)
    | Notify(notify: nat)
  {
    predicate InRange()
    {
      match this
      case Request(a, b) => a < Pow2(32) && b < Pow2(32)
      case Response(a, b, c, s) => a < Pow2(32) && b < Pow2(32) && c < Pow2(32) && |s| < Pow2(64)
      case Notify(a) => a < Pow2(32)
    }

    function Type(): Byte
    {
      match this
      case Request(_, _) => 1
      case Response(_, _, _, _) => 2
      case Notify(_) => 3
    }

    predicate SameKind(m: Msg) { Type() == m.Type() }

    // What follows the type byte.
    function Body(): seq<Byte>
    {
      match this
      case Request(a, b) => Encode(a) + Encode(b)
      case Response(a, b, c, s) => Encode(a) + (Encode(b) + (Encode(c) + (Encode(|s|) + s)))
      case Notify(a) => Encode(a)
    }

    function Wire(): seq<Byte> { [Type()] + Body() }
  }

  function Advance(s: Snapshot, n: nat): Snapshot { s.(pos := s.pos + n) }

  // m_x = bytearray->readUint32()
  function ReadField(s: Snapshot): (r: (Option<nat>, Snapshot))
    requires s.pos <= s.size <= |s.mem|
    ensures r.1.pos <= r.1.size <= |r.1.mem|
  {
    var (v, n) := VarintOutcome(s, 32);
    (v, Advance(s, n))
  }

  // m_resultStr = bytearray->readStringVint()
  function ReadStr(s: Snapshot): (r: (ReadResult, Snapshot))
    requires s.pos <= s.size <= |s.mem|
    ensures r.1.pos <= r.1.size <= |r.1.mem|
  {
    var (len, n) := VarintOutcome(s, 64);
    var s1 := Advance(s, n);
    if len.None? then (OutOfRange, s1)
    else
      var r := ReadOutcome(s1, len.value);
      (r, if r.Bytes? then Advance(s1, len.value) else s1)
  }

  // parseFromByteArray on an object that holds m: fields are assigned one by one, so an
  // exception leaves the earlier ones changed.
  function Parse(m: Msg, s: Snapshot): (r: (Status, Msg, Snapshot))
    requires s.pos <= s.size <= |s.mem|
    ensures r.2.pos <= r.2.size <= |r.2.mem| && r.1.SameKind(m)
  {
    match m
    case Notify(_) =>
      var (a, s1) := ReadField(s);
      if a.None? then (Threw, m, s1) else (Parsed, Notify(a.value), s1)
    case Request(_, cmd) =>
      var (a, s1) := ReadField(s);
      if a.None? then (Threw, m, s1)
      else
        var (b, s2) := ReadField(s1);
        if b.None? then (Threw, Request(a.value, cmd), s2) else (Parsed, Request(a.value, b.value), s2)
    case Response(_, cmd, result, str) =>
      var (a, s1) := ReadField(s);
      if a.None? then (Threw, m, s1)
      else
        var (b, s2) := ReadField(s1);
        if b.None? then (Threw, Response(a.value, cmd, result, str), s2)
        else
          var (c, s3) := ReadField(s2);
          if c.None? then (Threw, Response(a.value, b.value, result, str), s3)
          else
            var (t, s4) := ReadStr(s3);
            match t
            case Bytes(bytes) => (Parsed, Response(a.value, b.value, c.value, bytes), s4)
            case OutOfRange => (Threw, Response(a.value, b.value, c.value, str), s4)
            case NullCursor => (Crashed, Response(a.value, b.value, c.value, str), s4)
  }

  method ReadU32(ba: ByteArray) returns (r: Option<nat>)
    requires ba.Valid()
    modifies ba`position, ba`cur, ba`curIndex
    ensures ba.Valid() && (r, ba.State()) == ReadField(old(ba.State()))
  {
    hide ByteArray.Valid, VarintOutcome;
    r := ReadUint(ba, 32);
  }

  method ReadText(ba: ByteArray) returns (r: ReadResult)
    requires ba.Valid()
    modifies ba`position, ba`cur, ba`curIndex
    ensures ba.Valid() && (r, ba.State()) == ReadStr(old(ba.State()))
  {
    hide ByteArray.Valid, VarintOutcome;
    r := ReadStringVint(ba);
  }

  // A message object: serialize writes its fields, parse overwrites them.
  class Message {
    var fields: Msg

    constructor (m: Msg)
      ensures fields == m
    {
      fields := m;
    }

    method Serialize(ba: ByteArray)
      requires ba.Valid() && fields.InRange()
      modifies ba.Repr - {this}
      requires this !in ba.Repr
      ensures ba.Valid() && fresh(ba.Repr - old(ba.Repr)) && fields == old(fields)
      ensures Wrote(ba.State(), old(ba.State()), fields.Wire())
    {
      SerializeFields(ba, fields);
    }

    method ParseFrom(ba: ByteArray) returns (st: Status)
      requires ba.Valid() && this !in ba.Repr
      modifies this, ba`position, ba`cur, ba`curIndex
      ensures ba.Valid()
      ensures (st, fields, ba.State()) == Parse(old(fields), old(ba.State()))
    {
      if fields.Notify? { st := ParseNotify(ba); }
      else if fields.Request? { st := ParseRequest(ba); }
      else { st := ParseResponse(ba); }
    }

    method ParseNotify(ba: ByteArray) returns (st: Status)
      requires ba.Valid() && this !in ba.Repr && fields.Notify?
      modifies this, ba`position, ba`cur, ba`curIndex
      ensures ba.Valid()
      ensures (st, fields, ba.State()) == Parse(old(fields), old(ba.State()))
    {
      hide ByteArray.Valid, ReadField;
      var a := ReadU32(ba);
      if a.None? { return Threw; }
      fields := Notify(a.value);
      st := Parsed;
    }

    method ParseRequest(ba: ByteArray) returns (st: Status)
      requires ba.Valid() && this !in ba.Repr && fields.Request?
      modifies this, ba`position, ba`cur, ba`curIndex
      ensures ba.Valid()
      ensures (st, fields, ba.State()) == Parse(old(fields), old(ba.State()))
    {
      hide ByteArray.Valid, ReadField;
      var a := ReadU32(ba);
      if a.None? { return Threw; }
      fields := Request(a.value, fields.cmd);
      var b := ReadU32(ba);
      if b.None? { return Threw; }
      fields := Request(fields.sn, b.value);
      st := Parsed;
    }

    method ParseResponse(ba: ByteArray) returns (st: Status)
      requires ba.Valid() && this !in ba.Repr && fields.Response?
      modifies this, ba`position, ba`cur, ba`curIndex
      ensures ba.Valid()
      ensures (st, fields, ba.State()) == Parse(old(fields), old(ba.State()))
    {
      hide ByteArray.Valid, ReadField, ReadStr;
      var a := ReadU32(ba);
      if a.None? { return Threw; }
      fields := Response(a.value, fields.cmd, fields.result, fields.str);
      var b := ReadU32(ba);
      if b.None? { return Threw; }
      fields := Response(fields.sn, b.value, fields.result, fields.str);
      var c := ReadU32(ba);
      if c.None? { return Threw; }
      fields := Response(fields.sn, fields.cmd, c.value, fields.str);
      var t := ReadText(ba);
      if t.OutOfRange? { return Threw; }
      if t.NullCursor? { return Crashed; }
      fields := Response(fields.sn, fields.cmd, fields.result, t.bytes);
      st := Parsed;
    }
  }

  method SerializeFields(ba: ByteArray, m: Msg)
    requires ba.Valid() && m.InRange()
    modifies ba.Repr
    ensures ba.Valid() && fresh(ba.Repr - old(ba.Repr))
    ensures Wrote(ba.State(), old(ba.State()), m.Wire())
  {
    hide ByteArray.Valid, Wrote, Encode, Pow2;
    ghost var s0 := ba.State();
    ba.Write([m.Type()]);
    match m
    case Request(a, b) =>
      var w := WriteField(ba, s0, [m.Type()], a);
      w := WriteField(ba, s0, w, b);
      assert w == m.Wire();
    case Notify(a) =>
      var w := WriteField(ba, s0, [m.Type()], a);
      assert w == m.Wire();
    case Response(a, b, c, str) =>
      var w := WriteField(ba, s0, [m.Type()], a);
      w := WriteField(ba, s0, w, b);
      w := WriteField(ba, s0, w, c);
      ghost var s1 := ba.State();
      WriteStringVint(ba, str);
      WroteMore(ba.State(), s1, s0, w, Encode(|str|) + str);
      assert w + (Encode(|str|) + str) == m.Wire();
  }

  // writeUint32 after `before` has been written since s0.
  method WriteField(ba: ByteArray, ghost s0: Snapshot, ghost before: seq<Byte>, v: nat) returns (ghost after: seq<Byte>)
    requires ba.Valid() && v < Pow2(32) && Wrote(ba.State(), s0, before)
    modifies ba.Repr
    ensures ba.Valid() && fresh(ba.Repr - old(ba.Repr))
    ensures after == before + Encode(v) && Wrote(ba.State(), s0, after)
  {
    hide ByteArray.Valid, Wrote, Encode, Pow2;
    ghost var s1 := ba.State();
    WriteUint(ba, v, 32);
    after := before + Encode(v);
    WroteMore(ba.State(), s1, s0, before, Encode(v));
  }

  /* ---------- round trips ---------- */

  lemma FieldRoundTrip(s: Snapshot, v: nat, more: seq<Byte>)
    requires s.Ok() && v < Pow2(32) && Encode(v) + more <= Rest(s)
    ensures s.pos + |Encode(v)| <= s.size
    ensures ReadField(s) == (Some(v), Advance(s, |Encode(v)|))
    ensures more <= Rest(Advance(s, |Encode(v)|))
  {
    hide Pow2, VarintOutcome;
    ReadNext(s, v, 32, more);
  }

  lemma StrRoundTrip(s: Snapshot, str: seq<Byte>, more: seq<Byte>)
    requires s.Ok() && |str| < Pow2(64) && Encode(|str|) + str + more <= Rest(s)
    ensures var n := |Encode(|str|) + str|;
      && s.pos + n <= s.size
      && ReadStr(s) == (if str == [] && s.pos + n == |s.mem| then (NullCursor, Advance(s, n)) else (Bytes(str), Advance(s, n)))
  {
    hide Pow2, VarintOutcome, Encode, ReadOutcome;
    var e := Encode(|str|);
    Prefixes(e, str, more, Rest(s));
    ReadNext(s, |str|, 64, str + more);
    ReadBytes(Advance(s, |e|), str, more);
  }

  lemma ReadBytes(s: Snapshot, bytes: seq<Byte>, more: seq<Byte>)
    requires s.Ok() && bytes + more <= Rest(s)
    ensures s.pos + |bytes| <= s.size
    ensures ReadOutcome(s, |bytes|) == if bytes == [] && s.pos == |s.mem| then NullCursor else Bytes(bytes)
  {
    assert Rest(s)[..|bytes|] == (bytes + more)[..|bytes|] == bytes;
    SubSlice(s.mem, s.pos, s.size - s.pos, 0, |bytes|);
  }

  // Bytes that begin with a + (b + c) also begin with a + d when b + c does so with d.
  lemma Prefixes(a: seq<Byte>, b: seq<Byte>, more: seq<Byte>, rest: seq<Byte>)
    requires a + b + more <= rest
    ensures a + (b + more) <= rest
  {
    assert a + b + more == a + (b + more);
  }

  // A response with an empty text whose last byte is the last of the allocated memory.
  predicate EmptyAtEnd(m: Msg, end: nat, s: Snapshot) { m.Response? && m.str == [] && end == |s.mem| }

  // Parsing what was serialized gives the same fields and stops right behind them; only the
  // zero-length read at the end of the memory spoils it.
  lemma ParseBody(m0: Msg, m: Msg, s: Snapshot, more: seq<Byte>)
    requires s.Ok() && m0.SameKind(m) && m.InRange() && m.Body() + more <= Rest(s)
    ensures var end := s.pos + |m.Body()|;
      && end <= s.size
      && (EmptyAtEnd(m, end, s) ==> Parse(m0, s).0 == Crashed)
      && (!EmptyAtEnd(m, end, s) ==> Parse(m0, s) == (Parsed, m, Advance(s, |m.Body()|)))
  {
    hide Pow2, Encode, ReadField, ReadStr, VarintOutcome, Rest;
    match m
    case Notify(a) =>
      FieldRoundTrip(s, a, more);
    case Request(a, b) =>
      Prefixes(Encode(a), Encode(b), more, Rest(s));
      FieldRoundTrip(s, a, Encode(b) + more);
      FieldRoundTrip(Advance(s, |Encode(a)|), b, more);
    case Response(a, b, c, str) => ParseResponseBody(m0, m, s, more);
  }

  lemma ParseResponseBody(m0: Msg, m: Msg, s: Snapshot, more: seq<Byte>)
    requires s.Ok() && m0.Response? && m.Response? && m.InRange() && m.Body() + more <= Rest(s)
    ensures var end := s.pos + |m.Body()|;
      && end <= s.size
      && (EmptyAtEnd(m, end, s) ==> Parse(m0, s).0 == Crashed)
      && (!EmptyAtEnd(m, end, s) ==> Parse(m0, s) == (Parsed, m, Advance(s, |m.Body()|)))
  {
    hide Pow2, Encode, ReadField, ReadStr, VarintOutcome, Rest;
    var a, b, c, str := m.sn, m.cmd, m.result, m.str;
    var t := Encode(|str|) + str;
    Prefixes(Encode(a), Encode(b) + (Encode(c) + t), more, Rest(s));
    FieldRoundTrip(s, a, Encode(b) + (Encode(c) + t) + more);
    var s1 := Advance(s, |Encode(a)|);
    Prefixes(Encode(b), Encode(c) + t, more, Rest(s1));
    FieldRoundTrip(s1, b, Encode(c) + t + more);
    var s2 := Advance(s1, |Encode(b)|);
    Prefixes(Encode(c), t, more, Rest(s2));
    FieldRoundTrip(s2, c, t + more);
    StrRoundTrip(Advance(s2, |Encode(c)|), str, more);
  }

  function WireAll(ms: seq<Msg>): seq<Byte>
  {
    if ms == [] then [] else ms[0].Wire() + WireAll(ms[1..])
  }

  // Takes a type byte and parses into an object of that kind, for each object in turn.
  function ParseAll(objects: seq<Msg>, s: Snapshot): (r: (Status, seq<Msg>, Snapshot))
    requires s.pos <= s.size <= |s.mem|
    decreases |objects|
  {
    if objects == [] then (Parsed, [], s)
    else if s.pos == s.size || s.mem[s.pos] != objects[0].Type() then (Threw, objects, s)
    else
      var (st, m, s1) := Parse(objects[0], Advance(s, 1));
      if st != Parsed then (st, [m] + objects[1..], s1)
      else
        var (st', ms, s2) := ParseAll(objects[1..], s1);
        (st', [m] + ms, s2)
  }

  predicate SameKinds(a: seq<Msg>, b: seq<Msg>)
  {
    |a| == |b| && forall k :: 0 <= k < |a| ==> a[k].SameKind(b[k])
  }

  // Messages written back to back all come back, each ending where its write ended, exactly
  // unless the last one is an empty-text response that fills the memory to its last byte.
  lemma {:induction false} ParseAllExactly(objects: seq<Msg>, ms: seq<Msg>, s: Snapshot, more: seq<Byte>)
    requires s.Ok() && SameKinds(objects, ms) && (forall m :: m in ms ==> m.InRange())
    requires WireAll(ms) + more <= Rest(s)
    ensures s.pos + |WireAll(ms)| <= s.size
    ensures ParseAll(objects, s) == (Parsed, ms, Advance(s, |WireAll(ms)|)) <==>
      !(ms != [] && EmptyAtEnd(ms[|ms| - 1], s.pos + |WireAll(ms)|, s))
    decreases |ms|
  {
    hide Pow2, Encode, Parse, Msg.Body, Msg.InRange, Msg.Type, Rest, EmptyAtEnd;
    if ms != [] {
      ParseFirst(objects, ms, s, more);
      var s2 := Advance(s, |ms[0].Wire()|);
      ParseAllExactly(objects[1..], ms[1..], s2, more);
      if |ms| > 1 {
        assert ms[1..][|ms| - 2] == ms[|ms| - 1];
        EndOfMemory(ms[|ms| - 1], s2.pos + |WireAll(ms[1..])|, s2, s);
      }
      ParseAllSteps(objects, s);
      ConsSame(ms[0], ParseAll(objects[1..], s2).1, ms);
    }
  }

  lemma ParseAllSteps(objects: seq<Msg>, s: Snapshot)
    requires s.Ok() && objects != [] && s.pos < s.size && s.mem[s.pos] == objects[0].Type()
    ensures var (st, m, s1) := Parse(objects[0], Advance(s, 1));
      && (st != Parsed ==> ParseAll(objects, s).0 == st)
      && (st == Parsed ==>
          var rest := ParseAll(objects[1..], s1);
          ParseAll(objects, s) == (rest.0, [m] + rest.1, rest.2))
  {
    hide Parse;
  }

  lemma ConsSame(m: Msg, rest: seq<Msg>, ms: seq<Msg>)
    requires ms != [] && m == ms[0]
    ensures [m] + rest == ms <==> rest == ms[1..]
  {
    assert ([m] + rest)[1..] == rest;
    if rest == ms[1..] { assert ms == [m] + rest; }
  }

  // The first message of a sequence, with its type byte.
  lemma ParseFirst(objects: seq<Msg>, ms: seq<Msg>, s: Snapshot, more: seq<Byte>)
    requires s.Ok() && SameKinds(objects, ms) && ms != [] && ms[0].InRange()
    requires WireAll(ms) + more <= Rest(s)
    ensures s.pos + |ms[0].Wire()| <= s.size && s.mem[s.pos] == objects[0].Type()
    ensures var m := ms[0]; var s2 := Advance(s, |m.Wire()|);
      && WireAll(ms[1..]) + more <= Rest(s2)
      && (EmptyAtEnd(m, s2.pos, s) ==> |ms| == 1 && Parse(objects[0], Advance(s, 1)).0 == Crashed)
      && (!EmptyAtEnd(m, s2.pos, s) ==> Parse(objects[0], Advance(s, 1)) == (Parsed, m, s2))
  {
    hide Pow2, Encode, Parse, Msg.Body, Msg.InRange, Msg.Type, Rest, EmptyAtEnd;
    var m, tail := ms[0], WireAll(ms[1..]) + more;
    var s1 := Advance(s, 1);
    WireSplits(ms, more);
    Dropped([m.Type()], m.Body() + tail, s);
    ParseBody(objects[0], m, s1, tail);
    Dropped(m.Body(), tail, s1);
    var s2 := Advance(s1, |m.Body()|);
    assert s2 == Advance(s, |m.Wire()|);
    EndOfMemory(m, s2.pos, s1, s);
    if |ms| > 1 { NotAtEnd(ms[1..], more, s2); }
  }

  lemma EndOfMemory(m: Msg, end: nat, s1: Snapshot, s: Snapshot)
    requires s1.mem == s.mem
    ensures EmptyAtEnd(m, end, s) <==> EmptyAtEnd(m, end, s1)
    ensures EmptyAtEnd(m, end, s) ==> end == |s.mem|
  {
  }

  lemma WireSplits(ms: seq<Msg>, more: seq<Byte>)
    requires ms != []
    ensures WireAll(ms) + more == [ms[0].Type()] + (ms[0].Body() + (WireAll(ms[1..]) + more))
  {
  }

  // With another message still to come the end of the memory is not reached.
  lemma NotAtEnd(ms: seq<Msg>, more: seq<Byte>, s: Snapshot)
    requires s.Ok() && WireAll(ms) + more <= Rest(s) && ms != []
    ensures s.pos < |s.mem|
  {
    WireSplits(ms, more);
  }

  // Behind a prefix of the unread data.
  lemma Dropped(a: seq<Byte>, b: seq<Byte>, s: Snapshot)
    requires s.Ok() && a + b <= Rest(s)
    ensures s.pos + |a| <= s.size && b <= Rest(Advance(s, |a|))
    ensures |a| > 0 ==> s.mem[s.pos] == a[0]
  {
    assert Rest(Advance(s, |a|)) == Rest(s)[|a|..];
    assert (a + b)[|a|..] == b;
    if |a| > 0 { assert Rest(s)[0] == (a + b)[0]; }
  }

  // Serializing one message after the other.
  method WriteMessages(ba: ByteArray, ms: seq<Msg>)
    requires ba.Valid() && forall m :: m in ms ==> m.InRange()
    modifies ba.Repr
    ensures ba.Valid() && fresh(ba.Repr - old(ba.Repr))
    ensures Wrote(ba.State(), old(ba.State()), WireAll(ms))
  {
    hide ByteArray.Valid, Wrote, Msg.InRange, Msg.Wire;
    ghost var s0 := ba.State();
    WroteNothing(s0);
    assert ms[..0] == [];
    for k := 0 to |ms|
      invariant ba.Valid() && fresh(ba.Repr - old(ba.Repr)) && Wrote(ba.State(), s0, WireAll(ms[..k]))
    {
      ghost var s1 := ba.State();
      SerializeFields(ba, ms[k]);
      WroteMore(ba.State(), s1, s0, WireAll(ms[..k]), ms[k].Wire());
      assert ms[..k + 1] == ms[..k] + [ms[k]];
      WireAllSnoc(ms[..k], ms[k]);
    }
    assert ms[..|ms|] == ms;
  }

  lemma {:induction false} WireAllSnoc(ms: seq<Msg>, m: Msg)
    ensures WireAll(ms + [m]) == WireAll(ms) + m.Wire()
  {
    hide Msg.Wire;
    if ms == [] {
      assert ms + [m] == [m];
      assert WireAll([m]) == m.Wire() + WireAll([]);
    } else {
      assert (ms + [m])[1..] == ms[1..] + [m];
      WireAllSnoc(ms[1..], m);
    }
  }

  /* ---------- bitmaps ---------- */

  // The native memory of a word array on a little-endian host.
  function WordBytes(ws: seq<Word>): (bs: seq<Byte>)
    ensures |bs| == 2 * |ws|
  {
    if ws == [] then []
    else
      var w: Word := ws[0];
      [w % 0x100, w / 0x100] + WordBytes(ws[1..])
  }

  function BytesWords(bs: seq<Byte>): (ws: seq<Word>)
    ensures |ws| == |bs| / 2
  {
    if |bs| < 2 then []
    else
      var low: Byte, high: Byte := bs[0], bs[1];
      [low + 0x100 * high] + BytesWords(bs[2..])
  }

  lemma {:induction false} WordBytesRoundTrip(ws: seq<Word>)
    ensures BytesWords(WordBytes(ws)) == ws
  {
    if ws != [] {
      WordBytesRoundTrip(ws[1..]);
      assert WordBytes(ws)[2..] == WordBytes(ws[1..]);
    }
  }

  function Flag(compressed: bool): Byte { if compressed then 1 else 0 }

  // What Bitmap::writeTo puts out.
  function BitmapWire(compressed: bool, size: nat, ws: seq<Word>, little: bool): seq<Byte>
  {
    [Flag(compressed)] + Fixed(size, 4, little) + Fixed(|ws|, 4, little) + WordBytes(ws)
  }

  method WriteTo(b: Bitmap, ba: ByteArray)
    requires ba.Valid() && b.size < Pow2(32) && b.data.Length < Pow2(32)
    requires b !in ba.Repr && b.data !in ba.Repr
    modifies ba.Repr
    ensures ba.Valid() && fresh(ba.Repr - old(ba.Repr))
    ensures Wrote(ba.State(), old(ba.State()), BitmapWire(b.compressed, b.size, b.data[..], old(ba.littleEndian)))
  {
    hide ByteArray.Valid, Wrote, Pow2, Fixed;
    ghost var s0, little := ba.State(), ba.littleEndian;
    ghost var flag, ws := [Flag(b.compressed)], b.data[..];
    ba.Write([Flag(b.compressed)]);
    WroteKeepsOrder(ba.State(), s0, flag);
    ghost var s1 := ba.State();
    WriteFixed(ba, b.size, 4);
    WroteMore(ba.State(), s1, s0, flag, Fixed(b.size, 4, little));
    WroteKeepsOrder(ba.State(), s1, Fixed(b.size, 4, little));
    ghost var s2, w2 := ba.State(), flag + Fixed(b.size, 4, little);
    WriteFixed(ba, b.data.Length, 4);
    WroteMore(ba.State(), s2, s0, w2, Fixed(|ws|, 4, little));
    ghost var s3, w3 := ba.State(), w2 + Fixed(|ws|, 4, little);
    ba.Write(WordBytes(b.data[..]));
    WroteMore(ba.State(), s3, s0, w3, WordBytes(ws));
  }

  lemma WroteKeepsOrder(s: Snapshot, s0: Snapshot, bytes: seq<Byte>)
    requires Wrote(s, s0, bytes)
    ensures s.little == s0.little
  {
  }

  // The flag, size and word count, as far as a read gets before one of them throws, and how many
  // bytes that takes.
  function BitmapHeader(s: Snapshot): (h: (Option<bool>, Option<nat>, Option<nat>, nat))
    requires s.pos <= s.size <= |s.mem|
    ensures h.3 <= s.size - s.pos && (h.2.Some? ==> h.0.Some? && h.1.Some?)
  {
    var f := FixedOutcome(s, 1);
    if f.None? then (None, None, None, 0)
    else
      var n := FixedOutcome(Advance(s, 1), 4);
      if n.None? then (Some(f.value != 0), None, None, 1)
      else
        var d := FixedOutcome(Advance(s, 5), 4);
        (Some(f.value != 0), n, d, if d.None? then 5 else 9)
  }

  // The fields are assigned as they are read, so a failure leaves the earlier ones changed.
  method ReadHeader(b: Bitmap, ba: ByteArray) returns (count: Option<nat>)
    requires ba.Valid() && b !in ba.Repr
    modifies b`compressed, b`size, ba`position, ba`cur, ba`curIndex
    ensures ba.Valid()
    ensures var (f, n, d, used) := BitmapHeader(old(ba.State()));
      && count == d && Took(ba.State(), old(ba.State()), used)
      && b.compressed == (if f.Some? then f.value else old(b.compressed))
      && b.size == (if n.Some? then n.value else old(b.size))
  {
    hide ByteArray.Valid, FixedOutcome;
    var f := ReadFixed(ba, 1);
    if f.None? { return None; }
    b.compressed := f.value != 0;
    var n := ReadFixed(ba, 4);
    if n.None? { return None; }
    b.size := n.value;
    count := ReadFixed(ba, 4);
  }

  // Bitmap::readFrom: false when a read throws; the data read last may crash instead. Once the
  // count has been read the old words are gone.
  method ReadFrom(b: Bitmap, ba: ByteArray) returns (st: Status)
    requires ba.Valid() && b !in ba.Repr
    modifies b, ba`position, ba`cur, ba`curIndex
    ensures ba.Valid()
    ensures (st, ba.State()) == (BitmapOutcome(old(ba.State())).0, BitmapOutcome(old(ba.State())).2)
    ensures st == Parsed ==> (b.compressed, b.size, b.data[..]) == BitmapOutcome(old(ba.State())).1
    ensures var (f, n, d, _) := BitmapHeader(old(ba.State()));
      && b.compressed == (if f.Some? then f.value else old(b.compressed))
      && b.size == (if n.Some? then n.value else old(b.size))
      && (d.None? ==> b.data == old(b.data))
      && (d.Some? ==> fresh(b.data) && b.data.Length == d.value)
  {
    hide ByteArray.Valid, BitmapHeader, ReadOutcome, BytesWords;
    var d := ReadHeader(b, ba);
    if d.None? { return Threw; }
    b.data := new Word[d.value];
    var r := ba.Read(2 * d.value);
    if r.OutOfRange? { return Threw; }
    if r.NullCursor? { return Crashed; }
    var ws := BytesWords(r.bytes);
    b.data := new Word[|ws|](k requires 0 <= k < |ws| => ws[k]);
    assert b.data[..] == ws;
    st := Parsed;
  }

  function BitmapOutcome(s: Snapshot): (Status, (bool, nat, seq<Word>), Snapshot)
    requires s.pos <= s.size <= |s.mem|
  {
    var none: (bool, nat, seq<Word>) := (false, 0, []);
    var (f, n, d, used) := BitmapHeader(s);
    var s3 := Advance(s, used);
    if f.None? || n.None? || d.None? then (Threw, none, s3)
    else
      var r := ReadOutcome(s3, 2 * d.value);
      match r
      case OutOfRange => (Threw, none, s3)
      case NullCursor => (Crashed, none, s3)
      case Bytes(bytes) => (Parsed, (f.value, n.value, BytesWords(bytes)), Advance(s3, 2 * d.value))
  }

  lemma FixedNext(s: Snapshot, v: nat, n: nat, more: seq<Byte>)
    requires s.Ok() && v < Pow2(8 * n) && Fixed(v, n, s.little) + more <= Rest(s)
    ensures s.pos + n <= s.size && FixedOutcome(s, n) == Some(v)
    ensures more <= Rest(Advance(s, n))
  {
    hide Pow2, Fixed, FromFixed;
    var e := Fixed(v, n, s.little);
    FixedRoundTrip(v, n, s.little);
    Dropped(e, more, s);
    assert Rest(s)[..n] == (e + more)[..n] == e;
    SubSlice(s.mem, s.pos, s.size - s.pos, 0, n);
  }

  // readFrom after writeTo restores the bitmap and stops where the write ended, exactly
  // unless the bitmap has no words and the write filled the memory to its last byte.
  lemma BitmapRoundTripExactly(compressed: bool, size: nat, ws: seq<Word>, s: Snapshot, more: seq<Byte>)
    requires s.Ok() && size < Pow2(32) && |ws| < Pow2(32)
    requires BitmapWire(compressed, size, ws, s.little) + more <= Rest(s)
    ensures var n := |BitmapWire(compressed, size, ws, s.little)|;
      && s.pos + n <= s.size
      && (BitmapOutcome(s) == (Parsed, (compressed, size, ws), Advance(s, n)) <==> ws != [] || s.pos + n < |s.mem|)
  {
    hide Pow2, Fixed, BitmapHeader, ReadOutcome, FromFixed, Rest;
    var d := WordBytes(ws);
    HeaderNext(s, compressed, size, ws, more);
    ReadBytes(Advance(s, 9), d, more);
    WordBytesRoundTrip(ws);
  }

  // The three fields are read back, and the words are next.
  lemma HeaderNext(s: Snapshot, compressed: bool, size: nat, ws: seq<Word>, more: seq<Byte>)
    requires s.Ok() && size < Pow2(32) && |ws| < Pow2(32)
    requires BitmapWire(compressed, size, ws, s.little) + more <= Rest(s)
    ensures s.pos + 9 <= s.size && BitmapHeader(s) == (Some(compressed), Some(size), Some(|ws|), 9)
    ensures WordBytes(ws) + more <= Rest(Advance(s, 9))
    ensures |BitmapWire(compressed, size, ws, s.little)| == 9 + |WordBytes(ws)|
  {
    hide Pow2, Fixed, FixedOutcome, FromFixed, Rest;
    var little := s.little;
    var a, b, c, d := [Flag(compressed)], Fixed(size, 4, little), Fixed(|ws|, 4, little), WordBytes(ws);
    assert BitmapWire(compressed, size, ws, little) + more == a + (b + (c + (d + more)));
    assert Pow2(8 * 4) == Pow2(32);
    FlagNext(s, compressed, b + (c + (d + more)));
    FixedNext(Advance(s, 1), size, 4, c + (d + more));
    FixedNext(Advance(s, 5), |ws|, 4, d + more);
  }

  lemma FlagNext(s: Snapshot, compressed: bool, more: seq<Byte>)
    requires s.Ok() && [Flag(compressed)] + more <= Rest(s)
    ensures s.pos + 1 <= s.size && FixedOutcome(s, 1) == Some(Flag(compressed))
    ensures more <= Rest(Advance(s, 1))
  {
    var v := Flag(compressed);
    Widths();
    assert LittleEndian(v, 1) == [v] by { assert LittleEndian(v / 0x100, 0) == []; }
    assert Fixed(v, 1, s.little) == [v];
    FixedNext(s, v, 1, more);
  }
}
