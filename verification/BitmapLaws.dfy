/** What the plain and the compressed forms of a Bitmap have to do with each other. */
module BitmapLaws {
  import opened Bitmaps
  import opened CodeLaws
  import opened Options
  import opened Powers
  import opened RunLength
  import opened Words

  // Results that meet payload by payload and keep clear spare bits clear are determined.
  lemma AndDetermined(r1: seq<Word>, r2: seq<Word>, a: seq<Word>, p1: seq<Word>, p2: seq<Word>)
    requires |r1| == |r2| == |a| == |p1| == |p2| && AllSpareClear(a) && Payloads(p1) == Payloads(p2)
    requires IsAnd(r1, a, p1) && KeepsSpare(r1, a) && IsAnd(r2, a, p2) && KeepsSpare(r2, a)
    ensures r1 == r2
  {
    hide And;
    forall k | 0 <= k < |a| ensures r1[k] == r2[k] {
      assert Payloads(p1)[k] == Payloads(p2)[k];
    }
  }

  lemma OrDetermined(r1: seq<Word>, r2: seq<Word>, a: seq<Word>, p1: seq<Word>, p2: seq<Word>)
    requires |r1| == |r2| == |a| == |p1| == |p2| && Payloads(p1) == Payloads(p2)
    requires AllSpareClear(r1) && AllSpareClear(r2)
    requires IsOr(r1, a, p1) && IsOr(r2, a, p2)
    ensures r1 == r2
  {
    hide Or;
    forall k | 0 <= k < |a| ensures r1[k] == r2[k] {
      assert Payloads(p1)[k] == Payloads(p2)[k];
    }
  }

  // What a compressed copy stands for has the payloads of the original.
  lemma CodeKeepsPayloads(b: seq<Word>)
    requires NoMarkedLiteral(b)
    ensures Decode(Code(b)).Some? && Payloads(Decode(Code(b)).value) == Payloads(b)
  {
    hide Code, Decode;
    RoundTripExactly(b);
    PayloadsAgain(b);
  }

  lemma PayloadsAgain(b: seq<Word>)
    ensures Payloads(Payloads(b)) == Payloads(b)
  {
  }

  // a.cross(compress(b)) is about b's payload bits, whatever form b has.
  lemma CrossThroughCode(a: seq<Word>, b: seq<Word>)
    requires NoMarkedLiteral(b)
    ensures Decode(Code(b)).Some? && |Decode(Code(b)).value| == |b|
    ensures CommonPayload(a, Decode(Code(b)).value) <==> CommonPayload(a, b)
  {
    hide And, Decode, Code;
    CodeKeepsPayloads(b);
    var d := Decode(Code(b)).value;
    assert |Payloads(d)| == |b|;
    forall k | 0 <= k < |b| && k < |a| ensures Meets(a[k], d[k]) <==> Meets(a[k], b[k]) {
      assert Payloads(d)[k] == Payloads(b)[k];
    }
  }

  // ... which is the same as having some position in both.
  lemma CommonPayloadIsCommonBit(a: seq<Word>, b: seq<Word>)
    ensures CommonPayload(a, b) <==>
      exists k: nat, i: nat :: k < |a| && k < |b| && i < VALUE_SIZE && Bit(a[k], i) && Bit(b[k], i)
  {
    hide And;
    forall k | 0 <= k < |a| && k < |b|
      ensures Meets(a[k], b[k]) <==> exists i: nat :: i < VALUE_SIZE && Bit(a[k], i) && Bit(b[k], i)
    {
      CommonBit(a[k], b[k]);
    }
    if CommonPayload(a, b) {
      var k :| 0 <= k < |a| && k < |b| && Meets(a[k], b[k]);
      var i: nat :| i < VALUE_SIZE && Bit(a[k], i) && Bit(b[k], i);
    }
  }

  // Both words have bit 14 set, or both have bit 15 set.
  predicate ShareSpareBit(a: Word, b: Word)
  {
    (Bit(a, 14) && Bit(b, 14)) || (Bit(a, 15) && Bit(b, 15))
  }

  // The plain cross also counts spare bits: it finds a common payload bit or a common spare bit.
  lemma PlainCrossExactly(a: seq<Word>, b: seq<Word>)
    ensures CommonWord(a, b) <==> CommonPayload(a, b) || exists k :: 0 <= k < |a| && k < |b| && ShareSpareBit(a[k], b[k])
    ensures AllSpareClear(a) || AllSpareClear(b) ==> (CommonWord(a, b) <==> CommonPayload(a, b))
  {
    hide And, Bit;
    forall k | 0 <= k < |a| && k < |b|
      ensures And(a[k], b[k]) != 0 <==> Meets(a[k], b[k]) || ShareSpareBit(a[k], b[k])
      ensures SpareClear(a[k]) || SpareClear(b[k]) ==> !ShareSpareBit(a[k], b[k])
    {
      WordsMeet(a[k], b[k]);
    }
  }

  lemma WordsMeet(a: Word, b: Word)
    ensures And(a, b) != 0 <==> Meets(a, b) || ShareSpareBit(a, b)
    ensures SpareClear(a) || SpareClear(b) ==> !ShareSpareBit(a, b)
  {
    hide And, Bit;
    Pos14();
    CommonBit(a, b);
    NonzeroHasBit(And(a, b), 16);
    forall i: nat | i < 16 ensures Bit(And(a, b), i) == (Bit(a, i) && Bit(b, i)) { AndBit(a, b, i); }
    if And(a, b) != 0 {
      var i: nat :| i < 16 && Bit(And(a, b), i);
      assert i < 14 || i == 14 || i == 15;
    }
    LayoutExactly(a, 0);
    LayoutExactly(b, 0);
  }

  // ~~ restores a compressed sequence exactly when its literals have clear spare bits.
  lemma DoubleComplementExactly(code: seq<Word>)
    ensures NotCode(NotCode(code)) == code <==>
      forall k :: 0 <= k < |code| && !Marked(code[k]) ==> SpareClear(code[k])
  {
    var twice := NotCode(NotCode(code));
    forall k | 0 <= k < |code| ensures twice[k] == if Marked(code[k]) then code[k] else Payload(code[k]) {
      assert NotCode(code)[k] == NotWord(code[k]);
    }
    if twice == code {
      forall k | 0 <= k < |code| && !Marked(code[k]) ensures SpareClear(code[k]) {
        assert twice[k] == code[k];
      }
    }
  }

  /* ---------- in bits and sizes ---------- */

  // The number of words is the least that holds all positions.
  lemma WordCountExactly(size: nat)
    ensures size <= 14 * WordCount(size) < size + 14
  {
  }

  // What the operators promise about payloads, said bit by bit.
  lemma AndBits(r: seq<Word>, a: seq<Word>, p: seq<Word>)
    requires |r| == |a| == |p| && IsAnd(r, a, p)
    ensures forall k, i: nat :: 0 <= k < |r| && i < 14 ==> Bit(r[k], i) == (Bit(a[k], i) && Bit(p[k], i))
  {
    hide And, Bit, Payload;
    forall k, i: nat | 0 <= k < |r| && i < 14 ensures Bit(r[k], i) == (Bit(a[k], i) && Bit(p[k], i)) {
      LayoutExactly(r[k], i);
      LayoutExactly(a[k], i);
      LayoutExactly(p[k], i);
      AndBit(Payload(a[k]), Payload(p[k]), i);
    }
  }

  lemma OrBits(r: seq<Word>, a: seq<Word>, p: seq<Word>)
    requires |r| == |a| == |p| && IsOr(r, a, p)
    ensures forall k, i: nat :: 0 <= k < |r| && i < 14 ==> Bit(r[k], i) == (Bit(a[k], i) || Bit(p[k], i))
  {
    hide Or, Bit, Payload;
    forall k, i: nat | 0 <= k < |r| && i < 14 ensures Bit(r[k], i) == (Bit(a[k], i) || Bit(p[k], i)) {
      LayoutExactly(r[k], i);
      LayoutExactly(a[k], i);
      LayoutExactly(p[k], i);
      OrBit(Payload(a[k]), Payload(p[k]), i);
    }
  }

  lemma ComplementBits(ws: seq<Word>, k: nat, i: nat)
    requires k < |ws|
    ensures Bit(Complement(ws)[k], i) <==> i < 14 && !Bit(ws[k], i)
  {
    hide Bit, Payload;
    Pos14();
    var p := Payload(ws[k]);
    LayoutExactly(ws[k], i);
    if i < 14 {
      assert p < 0x4000 by { PayloadSpareClear(ws[k]); }
      ComplementBit(p, 14, i);
    } else {
      assert p < 0x4000 by { PayloadSpareClear(ws[k]); }
      SmallBit(COUNT_MASK - p, 14, i);
    }
  }

  // compress then uncompress, on the objects themselves.
  method ThroughCompression(b: Bitmap) returns (back: Bitmap)
    requires b.Valid() && !b.compressed && NoMarkedLiteral(b.data[..])
    ensures !back.compressed && back.size == b.size && back.data[..] == Payloads(b.data[..])
    ensures AllSpareClear(b.data[..]) ==> back.data[..] == b.data[..]
  {
    var packed := b.Compress();
    back := packed.Uncompress();
    if AllSpareClear(b.data[..]) { PayloadsOfSpareClear(b.data[..]); }
  }

  // plain has had a &= b done to it, and mixed a &= compress(b): both succeed, with the same words.
  method AndEitherForm(a: Bitmap, b: Bitmap) returns (plain: Bitmap, mixed: Bitmap, e1: Option<Error>, e2: Option<Error>)
    requires a.Valid() && b.Valid() && !a.compressed && !b.compressed && a.size == b.size
    requires AllSpareClear(a.data[..]) && AllSpareClear(b.data[..])
    ensures e1 == None && e2 == None && fresh(plain) && fresh(mixed)
    ensures !plain.compressed && !mixed.compressed && plain.size == mixed.size == a.size
    ensures plain.data.Length == a.data.Length == b.data.Length
    ensures forall k :: 0 <= k < plain.data.Length ==> plain.data[k] == And(a.data[k], b.data[k])
    ensures plain.data[..] == mixed.data[..]
  {
    hide And, Code, Decode, RunLength.Narrow;
    PayloadsOfSpareClear(b.data[..]);
    ghost var wa, wb := a.data[..], b.data[..];
    var packed := b.Compress();
    plain := new Bitmap.Copy(a);
    mixed := new Bitmap.Copy(a);
    e1 := plain.AndWith(b);
    e2 := mixed.AndWith(packed);
    AndDetermined(plain.data[..], mixed.data[..], wa, wb, wb);
  }

  // plain has had a |= b done to it, and mixed a |= compress(b): both succeed, with the same words.
  method OrEitherForm(a: Bitmap, b: Bitmap) returns (plain: Bitmap, mixed: Bitmap, e1: Option<Error>, e2: Option<Error>)
    requires a.Valid() && b.Valid() && !a.compressed && !b.compressed && a.size == b.size
    requires AllSpareClear(a.data[..]) && AllSpareClear(b.data[..])
    ensures e1 == None && e2 == None && fresh(plain) && fresh(mixed)
    ensures !plain.compressed && !mixed.compressed && plain.size == mixed.size == a.size
    ensures plain.data.Length == a.data.Length == b.data.Length
    ensures forall k :: 0 <= k < plain.data.Length ==> plain.data[k] == Or(a.data[k], b.data[k])
    ensures plain.data[..] == mixed.data[..]
  {
    hide Or, Code, Decode, RunLength.Narrow;
    PayloadsOfSpareClear(b.data[..]);
    ghost var wa, wb := a.data[..], b.data[..];
    var packed := b.Compress();
    plain := new Bitmap.Copy(a);
    mixed := new Bitmap.Copy(a);
    e1 := plain.OrWith(b);
    e2 := mixed.OrWith(packed);
    OrKeepsSpare(plain.data[..], wa, wb);
    OrDetermined(plain.data[..], mixed.data[..], wa, wb, wb);
  }

  lemma OrKeepsSpare(r: seq<Word>, a: seq<Word>, b: seq<Word>)
    requires |r| == |a| == |b| && AllSpareClear(a) && AllSpareClear(b)
    requires forall k :: 0 <= k < |r| ==> r[k] == Or(a[k], b[k])
    ensures AllSpareClear(r)
  {
    hide Or;
    forall k | 0 <= k < |r| ensures SpareClear(r[k]) { OrWord(a[k], b[k]); }
  }
}
