/** The words of a compressed bitmap bit by bit: which bit says what, and what is written for
    which words. */
module CodeLaws {
  import opened Options
  import opened Powers
  import opened RunLength
  import opened Words

  /* ---------- bits ---------- */

  // Bit i of a number, in arithmetic.
  lemma {:induction false} BitExactly(n: nat, i: nat)
    ensures Bit(n, i) <==> (n / Pow2(i)) % 2 == 1
  {
    if i == 0 {
      assert Pow2(0) == 1;
    } else {
      BitExactly(n / 2, i - 1);
      DivTwice(n, 2, Pow2(i - 1));
    }
  }

  // The layout of a word: the mark is bit 15, the run's value bit 14, the payload the rest.
  lemma LayoutExactly(w: Word, i: nat)
    ensures Marked(w) <==> Bit(w, 15)
    ensures ValueBit(w) <==> Bit(w, 14)
    ensures SpareClear(w) <==> !Bit(w, 15) && !Bit(w, 14)
    ensures Bit(Payload(w), i) <==> i < 14 && Bit(w, i)
  {
    HighBits(w);
    Pos14();
    if i < 14 {
      PayloadBit(w, 14, i);
    } else {
      SmallBit(Payload(w), 14, i);
    }
  }

  lemma HighBits(w: Word)
    ensures Marked(w) <==> Bit(w, 15)
    ensures ValueBit(w) <==> Bit(w, 14)
  {
    BitExactly(w, 15);
    BitExactly(w, 14);
    Pos14();
    assert Pow2(15) == 2 * Pow2(14);
  }

  // Nothing is set from the width on.
  lemma {:induction false} SmallBit(n: nat, k: nat, i: nat)
    requires n < Pow2(k) && i >= k
    ensures !Bit(n, i)
  {
    if k == 0 {
      ZeroBits(i);
    } else {
      SmallBit(n / 2, k - 1, i - 1);
    }
  }

  // A run-length word: marked, with the value given and these fourteen bits.
  lemma TagExactly(v: bool, digit: Word)
    requires digit < 0x4000
    ensures Bit(Tag(v, digit), 15) && (Bit(Tag(v, digit), 14) <==> v)
    ensures forall i: nat :: i < 14 ==> (Bit(Tag(v, digit), i) <==> Bit(digit, i))
  {
    var t := Tag(v, digit);
    HighBits(t);
    Pos14();
    forall i: nat | i < 14 ensures Bit(t, i) <==> Bit(digit, i) { PayloadBit(t, 14, i); }
  }

  // A payload of one value, and the complement of a word.
  lemma FillNotExactly(w: Word, v: bool, i: nat)
    ensures i < 14 ==> (Bit(Fill(v), i) <==> v)
    ensures i >= 14 ==> !Bit(Fill(v), i)
    ensures i < 16 ==> (Bit(Not(w), i) <==> !Bit(w, i))
  {
    Pos14();
    if i < 16 { ComplementBit(w, 16, i); }
    ZeroBits(i);
    if i < 14 { ComplementBit(0, 14, i); } else { SmallBit(COUNT_MASK, 14, i); }
  }

  /* ---------- counts ---------- */

  // The digits of a count are fourteen bits each, those behind weighing more.
  lemma {:induction false} DigitsJoin(a: seq<Word>, b: seq<Word>)
    ensures DigitsValue(a + b) == DigitsValue(a) + Pow2(14 * |a|) * DigitsValue(b)
  {
    if a == [] {
      assert a + b == b && Pow2(0) == 1;
    } else {
      assert (a + b)[1..] == a[1..] + b;
      DigitsJoin(a[1..], b);
      hide Pow2;
      PowFourteen(|a| - 1);
      MulAssoc(0x4000, Pow2(14 * (|a| - 1)), DigitsValue(b));
    }
  }

  lemma PowFourteen(n: nat)
    ensures Pow2(14 * (n + 1)) == 0x4000 * Pow2(14 * n)
  {
    Pos14();
    PowAdd(14 * n, 14);
  }

  lemma DigitExactly(w: Word)
    ensures DigitsValue([w]) == w % 0x4000
  {
  }

  // No digit too many is written.
  lemma {:induction false} TagsMinimal(v: bool, count: nat)
    requires count > 0
    ensures Payload(Tags(v, count)[|Tags(v, count)| - 1]) > 0
  {
    if count >= 0x4000 {
      TagsMinimal(v, count / 0x4000);
      assert Tags(v, count) == [Tag(v, count % 0x4000)] + Tags(v, count / 0x4000);
    }
  }

  /* ---------- what is written ---------- */

  // The words that stand for a count of bits of one value: all marked and of that value, the
  // count in their digits, and not one digit more than it takes.
  ghost predicate Counted(group: seq<Word>, v: bool, count: nat)
  {
    && group != [] && (forall k :: 0 <= k < |group| ==> Marked(group[k]) && ValueBit(group[k]) == v)
    && DigitsValue(group) == count && Payload(group[|group| - 1]) > 0
  }

  ghost predicate AllFill(run: seq<Word>, v: bool)
  {
    forall k :: 0 <= k < |run| ==> Payload(run[k]) == if v then 0x3FFF else 0
  }

  lemma {:induction false} FillLenOf(run: seq<Word>, rest: seq<Word>, v: bool)
    requires AllFill(run, v) && (rest == [] || Payload(rest[0]) != if v then 0x3FFF else 0)
    ensures FillLen(run + rest, v) == |run|
  {
    if run == [] {
      assert run + rest == rest;
    } else {
      assert (run + rest)[1..] == run[1..] + rest;
      FillLenOf(run[1..], rest, v);
    }
  }

  lemma RunAsTags(run: seq<Word>, rest: seq<Word>, v: bool)
    requires |run| > 1 && AllFill(run, v) && (rest == [] || Payload(rest[0]) != if v then 0x3FFF else 0)
    ensures Code(run + rest) == Tags(v, 14 * |run|) + Code(rest)
  {
    hide FillLen, Tags;
    var ws := run + rest;
    FillLenOf(run, rest, v);
    assert ws[0] == run[0] && ws[|run|..] == rest;
  }

  // Two or more adjacent words of one value become a count of their bits, fourteen a word.
  lemma RunWritten(run: seq<Word>, rest: seq<Word>, v: bool) returns (group: seq<Word>)
    requires |run| > 1 && AllFill(run, v) && (rest == [] || Payload(rest[0]) != if v then 0x3FFF else 0)
    ensures Code(run + rest) == group + Code(rest) && Counted(group, v, 14 * |run|)
  {
    hide Code, DigitsValue;
    RunAsTags(run, rest, v);
    group := Tags(v, 14 * |run|);
    TagsValue(v, 14 * |run|);
    TagsMinimal(v, 14 * |run|);
  }

  // Every other word is written by itself: as it is, but for a payload of one value, which
  // loses its spare bits.
  lemma WordWritten(w: Word, rest: seq<Word>)
    requires AllFill([w], false) ==> rest == [] || Payload(rest[0]) != 0
    requires AllFill([w], true) ==> rest == [] || Payload(rest[0]) != 0x3FFF
    ensures Code([w] + rest) ==
      [if Payload(w) == 0 then 0 else if Payload(w) == 0x3FFF then 0x3FFF else w] + Code(rest)
  {
    var ws := [w] + rest;
    assert ws[1..] == rest;
    if !Mixed(w) {
      FillLenOf([w], rest, IsFill(w, true));
    }
  }

  // Some codes in full: two words of zeros, three of ones, and a run of ones whose count needs
  // two digits; a single word of either kind, and a mixed one.
  lemma SmallCodes(ones: seq<Word>)
    requires |ones| == 1171 && forall k :: 0 <= k < 1171 ==> ones[k] == 0x3FFF
    ensures Code([0, 0]) == [0x801C]
    ensures Code([0x3FFF, 0x3FFF, 0x3FFF]) == [0xC02A]
    ensures Code(ones) == [0xC00A, 0xC001]
    ensures Code([0]) == [0] && Code([0x3FFF]) == [0x3FFF] && Code([5]) == [5]
  {
    hide Code, Tags;
    RunOf([0, 0], false);
    RunOf([0x3FFF, 0x3FFF, 0x3FFF], true);
    RunOf(ones, true);
    SmallTags();
    OneWord(0);
    OneWord(0x3FFF);
    OneWord(5);
  }

  lemma RunOf(run: seq<Word>, v: bool)
    requires |run| > 1 && AllFill(run, v)
    ensures Code(run) == Tags(v, 14 * |run|)
  {
    hide Tags;
    RunAsTags(run, [], v);
    assert run + [] == run && Code([]) == [];
  }

  lemma SmallTags()
    ensures Tags(false, 28) == [0x801C] && Tags(true, 42) == [0xC02A] && Tags(true, 16394) == [0xC00A, 0xC001]
  {
    assert Tags(false, 28) == [Tag(false, 28)] + Tags(false, 0);
    assert Tags(true, 42) == [Tag(true, 42)] + Tags(true, 0);
    assert Tags(true, 16394) == [Tag(true, 10)] + Tags(true, 1);
    assert Tags(true, 1) == [Tag(true, 1)] + Tags(true, 0);
  }

  lemma OneWord(w: Word)
    ensures Code([w]) == [if Payload(w) == 0 then 0 else if Payload(w) == 0x3FFF then 0x3FFF else w]
  {
    WordWritten(w, []);
    assert [w] + [] == [w];
  }

  /* ---------- what is read ---------- */

  // A group of run-length words stands for its count of bits, if that is a number of whole words,
  // in front of whatever follows; else the code stands for nothing.
  lemma GroupRead(group: seq<Word>, rest: seq<Word>, v: bool)
    requires group != [] && (forall k :: 0 <= k < |group| ==> Marked(group[k]) && ValueBit(group[k]) == v)
    requires rest == [] || !(Marked(rest[0]) && ValueBit(rest[0]) == v)
    ensures Decode(group + rest).Some? <==> DigitsValue(group) % 14 == 0 && Decode(rest).Some?
    ensures Decode(group + rest).Some? ==>
      Decode(group + rest).value == seq(DigitsValue(group) / 14, _ => if v then 0x3FFF else 0) + Decode(rest).value
  {
    hide Decode;
    DecodeGroup(group, rest, v);
    assert Fills(v, DigitsValue(group) / 14) == seq(DigitsValue(group) / 14, _ => if v then 0x3FFF else 0);
  }

  // Any other word stands for its payload.
  lemma WordRead(w: Word, rest: seq<Word>)
    requires !Marked(w)
    ensures Decode([w] + rest).Some? <==> Decode(rest).Some?
    ensures Decode(rest).Some? ==> Decode([w] + rest).value == [w % 0x4000] + Decode(rest).value
  {
    hide Decode;
    DecodeLiteral(w, rest);
  }
}
