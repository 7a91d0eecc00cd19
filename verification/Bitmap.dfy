/** The Bitmap class: plain and compressed bitmaps, and the operators that mix them. */
module Bitmaps {
  import opened Options
  import opened Powers
  import opened RunLength
  import opened Words

  const U64_DIV_BASE: nat := 4
  const U64_VALUE_SIZE: nat := 56

  datatype Error = SizeMismatch | CompressedLeft | CompressedBoth

  // ceil(size / VALUE_SIZE)
  function WordCount(size: nat): nat { (size + VALUE_SIZE - 1) / VALUE_SIZE }

  // A compressed sequence that stands for the words of a bitmap of this size.
  ghost predicate WellCoded(size: nat, code: seq<Word>)
  {
    Narrow(code) && Decode(code).Some? && |Decode(code).value| == WordCount(size)
  }

  // Some payload bit is set in both.
  // Words that only one of the two has meet nothing.
  ghost predicate CommonPayload(a: seq<Word>, b: seq<Word>)
  {
    exists k :: 0 <= k < |a| && k < |b| && Meets(a[k], b[k])
  }

  ghost predicate Meets(a: Word, b: Word) { And(Payload(a), Payload(b)) != 0 }

  // r is a with its payloads met with p's.
  ghost predicate IsAnd(r: seq<Word>, a: seq<Word>, p: seq<Word>)
    requires |r| == |a| == |p|
  {
    forall k :: 0 <= k < |r| ==> Payload(r[k]) == And(Payload(a[k]), Payload(p[k]))
  }

  ghost predicate IsOr(r: seq<Word>, a: seq<Word>, p: seq<Word>)
    requires |r| == |a| == |p|
  {
    forall k :: 0 <= k < |r| ==> Payload(r[k]) == Or(Payload(a[k]), Payload(p[k]))
  }

  // A word-by-word change that leaves words with clear spare bits so.
  ghost predicate KeepsSpare(r: seq<Word>, a: seq<Word>)
    requires |r| == |a|
  {
    forall k :: 0 <= k < |r| && SpareClear(a[k]) ==> SpareClear(r[k])
  }

  // Code stands for a run of count bits of value v, followed by rest.
  ghost predicate RunRead(code: seq<Word>, v: bool, count: nat, rest: seq<Word>)
  {
    && count % VALUE_SIZE == 0 && count < U32
    && Narrow(rest) && Decode(rest).Some? && Decode(code).Some?
    && Decode(code).value == Fills(v, count / VALUE_SIZE) + Decode(rest).value
  }

  // Reads the run that starts at i: its value, bit count and the index after it.
  method ReadRun(data: array<Word>, i: nat) returns (v: bool, count: nat, end: nat)
    requires i < data.Length && Marked(data[i])
    requires Narrow(data[i..]) && Decode(data[i..]).Some?
    ensures i < end <= data.Length && v == ValueBit(data[i])
    ensures RunRead(data[i..], v, count, data[end..])
  {
    hide Decode, Narrow, DigitsValue, Or, GroupLen, Pow2, Shl32, RunRead, Payload, ValueBit;
    ghost var code := data[i..];
    v := ValueBit(data[i]);
    count := Payload(data[i]);
    var n: nat := 1;
    RunOpens(code);
    assert forall k :: 0 <= k < |code| ==> code[k] == data[i + k];
    while i + n < data.Length && SameRun(data[i + n], v)
      invariant 1 <= n <= |code|
      invariant GroupLen(code, v) == n + GroupLen(code[n..], v)
      invariant count == DigitsValue(code[..n])
    {
      NextRunDigit(code, v, n);
      count := Or(count, Shl32(Payload(data[i + n]), VALUE_SIZE * n));
      n := n + 1;
    }
    end := i + n;
    GroupStep(code[n..], v);
    RunCloses(code, v, n);
    assert code[n..] == data[end..];
  }

  lemma NextRunDigit(code: seq<Word>, v: bool, n: nat)
    requires 0 < n < |code| && SameRun(code[0], v) && SameRun(code[n], v) && Narrow(code)
    requires GroupLen(code, v) == n + GroupLen(code[n..], v)
    ensures n <= 2
    ensures GroupLen(code, v) == n + 1 + GroupLen(code[n + 1..], v)
    ensures Or(DigitsValue(code[..n]), Shl32(Payload(code[n]), VALUE_SIZE * n)) == DigitsValue(code[..n + 1])
  {
    hide DigitsValue, Pow2, Or, Narrow, GroupLen, Shl32;
    RunOpens(code);
    GroupStep(code[n..], v);
    assert code[n..][1..] == code[n + 1..];
    PartialCount(code, v, n + 1);
    assert code[..n + 1] == code[..n] + [code[n]];
    ShiftDigit(code[..n], code[n]);
  }

  // Shifting the next digit in place and or-ing it to the count.
  lemma ShiftDigit(a: seq<Word>, w: Word)
    requires |a| <= 2 && DigitsValue(a + [w]) < U32
    ensures Or(DigitsValue(a), Shl32(Payload(w), VALUE_SIZE * |a|)) == DigitsValue(a + [w])
  {
    hide DigitsValue, Pow2, Or;
    DigitsSnoc(a, w);
    OrDisjoint(DigitsValue(a), Payload(w), VALUE_SIZE * |a|);
  }

  // x << s in 32 bits
  function Shl32(x: nat, s: nat): nat
    requires s < 32
  {
    (x * Pow2(s)) % U32
  }

  lemma GroupStep(code: seq<Word>, v: bool)
    ensures GroupLen(code, v) == if code != [] && SameRun(code[0], v) then 1 + GroupLen(code[1..], v) else 0
  {
  }

  lemma PartialCount(code: seq<Word>, v: bool, n: nat)
    requires code != [] && SameRun(code[0], v) && Narrow(code) && n <= GroupLen(code, v)
    ensures DigitsValue(code[..n]) < U32
  {
    hide DigitsValue;
    var g := GroupLen(code, v);
    DigitsAppend(code[..n], code[n..g]);
    assert code[..n] + code[n..g] == code[..g];
  }

  lemma RunOpens(code: seq<Word>)
    requires code != [] && Marked(code[0]) && Narrow(code)
    ensures var v := ValueBit(code[0]);
      && GroupLen(code, v) == 1 + GroupLen(code[1..], v) <= 3
      && DigitsValue(code[..1]) == Payload(code[0])
  {
    assert code[..1] == [code[0]];
  }

  lemma RunCloses(code: seq<Word>, v: bool, n: nat)
    requires code != [] && SameRun(code[0], v) && n == GroupLen(code, v)
    requires Narrow(code) && Decode(code).Some?
    ensures RunRead(code, v, DigitsValue(code[..n]), code[n..])
  {
  }

  class Bitmap {
    var compressed: bool
    var size: nat
    var data: array<Word>

    // The source's own limit: sizes and counts are 32-bit.
    ghost predicate Valid()
      reads this, data
    {
      && VALUE_SIZE * WordCount(size) < U32
      && if compressed then WellCoded(size, data[..]) else data.Length == WordCount(size)
    }

    // The payload words the bitmap stands for, plain or compressed.
    ghost function Meaning(): (ws: seq<Word>)
      requires Valid()
      reads this, data
      ensures |ws| == WordCount(size)
    {
      if compressed then Decode(data[..]).value else Payloads(data[..])
    }

    constructor (size: nat, def: nat)
      requires VALUE_SIZE * WordCount(size) < U32 && def < 0x100
      ensures Valid() && fresh(data)
      ensures !compressed && this.size == size
      ensures forall k :: 0 <= k < data.Length ==> data[k] == 0x101 * def
    {
      compressed := false;
      this.size := size;
      data := new Word[WordCount(size)](_ => 0x101 * def);
    }

    constructor Raw(compressed: bool, size: nat, data: array<Word>)
      ensures this.compressed == compressed && this.size == size && this.data == data
    {
      this.compressed := compressed;
      this.size := size;
      this.data := data;
    }

    // The copy constructor.
    constructor Copy(b: Bitmap)
      ensures compressed == b.compressed && size == b.size
      ensures fresh(data) && data[..] == b.data[..]
      ensures b.Valid() ==> Valid()
    {
      compressed := b.compressed;
      size := b.size;
      var src := b.data;
      data := new Word[src.Length](k requires 0 <= k < src.Length reads src => src[k]);
      new;
      assert data[..] == src[..];
    }

    method Get(idx: nat) returns (r: bool)
      requires idx / VALUE_SIZE < data.Length
      ensures r == Bit(data[idx / VALUE_SIZE], idx % VALUE_SIZE)
    {
      r := Bit(data[idx / VALUE_SIZE], idx % VALUE_SIZE);
    }

    // |= POS[pos] or &= NPOS[pos]: exactly one bit position changes.
    method Set(idx: nat, v: bool)
      requires idx / VALUE_SIZE < data.Length
      modifies data
      ensures forall k, i: nat :: 0 <= k < data.Length && i < 16 ==>
        Bit(data[k], i) == if k == idx / VALUE_SIZE && i == idx % VALUE_SIZE then v else old(Bit(data[k], i))
    {
      var cur := idx / VALUE_SIZE;
      var pos := idx % VALUE_SIZE;
      var w := data[cur];
      PosInWord(pos);
      if v {
        OrWord(w, Pow2(pos));
        data[cur] := Or(w, Pow2(pos));
        forall i: nat | i < 16 ensures Bit(Or(w, Pow2(pos)), i) == (Bit(w, i) || i == pos) {
          OrBit(w, Pow2(pos), i);
          PosBit(pos, i);
        }
      } else {
        data[cur] := And(w, Not(Pow2(pos)));
        forall i: nat | i < 16 ensures Bit(And(w, Not(Pow2(pos))), i) == (Bit(w, i) && i != pos) {
          AndBit(w, Not(Pow2(pos)), i);
          Pos14();
          ComplementBit(Pow2(pos), 16, i);
          PosBit(pos, i);
        }
      }
    }

    method SetRange(from: nat, count: nat, v: bool)
      requires count > 0 ==> from % VALUE_SIZE == 0 && count % VALUE_SIZE == 0
      requires count > 0 ==> from + count <= VALUE_SIZE * data.Length
      modifies data
      ensures forall k :: 0 <= k < data.Length ==>
        data[k] == if from <= VALUE_SIZE * k < from + count then Fill(v) else old(data[k])
    {
      if count == 0 { return; }
      var to := (from + count) / VALUE_SIZE;
      var i := from / VALUE_SIZE;
      while i < to
        invariant from <= VALUE_SIZE * i <= from + count
        invariant forall k :: 0 <= k < data.Length ==>
          data[k] == if from <= VALUE_SIZE * k < VALUE_SIZE * i then Fill(v) else old(data[k])
      {
        data[i] := Fill(v);
        i := i + 1;
      }
    }

    // Whether some word in the range has a payload bit (v), or has none (!v).
    method GetRange(from: nat, count: nat, v: bool) returns (r: bool)
      requires count > 0 ==> from % VALUE_SIZE == 0 && count % VALUE_SIZE == 0
      requires count > 0 ==> from + count <= VALUE_SIZE * data.Length
      ensures r <==> exists k :: 0 <= k < data.Length && from <= VALUE_SIZE * k < from + count && (Payload(data[k]) != 0) == v
    {
      if count == 0 { return false; }
      var i := from / VALUE_SIZE;
      while i < (from + count) / VALUE_SIZE
        invariant from <= VALUE_SIZE * i <= from + count
        invariant forall k :: 0 <= k < data.Length && from <= VALUE_SIZE * k < VALUE_SIZE * i ==> (Payload(data[k]) != 0) != v
      {
        if (Payload(data[i]) != 0) == v { return true; }
        i := i + 1;
      }
      return false;
    }

    /* ---------- compress and uncompress ---------- */

    method Compress() returns (b: Bitmap)
      requires Valid()
      ensures fresh(b) && fresh(b.data) && b.compressed && b.size == size
      ensures b.data[..] == if compressed then data[..] else Code(data[..])
      ensures b.data.Length <= data.Length
      ensures (compressed || NoMarkedLiteral(data[..])) ==> b.Valid() && b.Meaning() == Meaning()
    {
      if compressed {
        b := new Bitmap.Copy(this);
        return;
      }
      var out, dst := EncodeWords(data);
      var fit := new Word[dst](k requires 0 <= k < dst <= out.Length reads out => out[k]);
      assert fit[..] == out[..dst];
      b := new Bitmap.Raw(true, size, fit);
      if NoMarkedLiteral(data[..]) {
        RoundTripExactly(data[..]);
        CodeIsNarrow(data[..]);
      }
    }

    // The scan of compress: accumulates runs of equal fill words, copies the rest.
    static method EncodeWords(src: array<Word>) returns (out: array<Word>, dst: nat)
      ensures fresh(out) && dst <= out.Length == src.Length
      ensures out[..dst] == Code(src[..])
    {
      hide Code, Decode, RunCode, CountBits;
      out := new Word[src.Length];
      var curValue := false;
      var curCount: nat, i: nat := 0, 0;
      dst := 0;
      ghost var n: nat := 0;
      while i < src.Length
        invariant i <= src.Length && fresh(out) && out.Length == src.Length && dst <= out.Length
        invariant curCount == VALUE_SIZE * n
        invariant Writing(src[..], i, curValue, n, out[..dst])
      {
        var cur := src[i];
        var c := CountBits(Payload(cur), 14);
        CountBitsOfPayload(cur);
        if (c == 0 && !curValue) || (c == VALUE_SIZE && curValue) {
          ExtendedRun(src[..], i, curValue, n, out[..dst]);
          n := n + 1;
          curCount := curCount + VALUE_SIZE;
        } else {
          Flushed(src[..], i, curValue, n, out[..dst]);
          dst := Flush(out, dst, curValue, curCount, n, i);
          assert Writing(src[..], i, curValue, 0, out[..dst]);
          if c == 0 || c == VALUE_SIZE {
            curValue := c == VALUE_SIZE;
            curCount := VALUE_SIZE;
            ExtendedRun(src[..], i, curValue, 0, out[..dst]);
            n := 1;
          } else {
            WroteLiteral(src[..], i, curValue, out[..dst]);
            ghost var emitted := out[..dst];
            out[dst] := cur;
            dst := dst + 1;
            curCount := 0;
            n := 0;
            assert out[..dst] == emitted + [cur];
          }
        }
        i := i + 1;
      }
      if curCount > 0 {
        Flushed(src[..], i, curValue, n, out[..dst]);
        dst := Flush(out, dst, curValue, curCount, n, i);
      }
      WroteAll(src[..], curValue, out[..dst]);
    }

    // Writes the digits of a pending run, or its single literal, to out.
    static method Flush(out: array<Word>, dst: nat, curValue: bool, curCount: nat, ghost n: nat, ghost i: nat) returns (next: nat)
      requires curCount == VALUE_SIZE * n
      requires dst + n <= i <= out.Length
      modifies out
      ensures next <= i
      ensures out[..next] == old(out[..dst]) + RunCode(curValue, n)
    {
      hide Code, Decode, RunCode, Tags;
      next := dst;
      var count: nat := curCount;
      RunCodeCases(curValue, n);
      ghost var goal := out[..dst] + RunCode(curValue, n);
      if count / VALUE_SIZE > 1 {
        while count > 0
          invariant dst <= next && next + |Tags(curValue, count)| <= i
          invariant out[..next] + Tags(curValue, count) == goal
        {
          TagsStep(curValue, count, out[..next]);
          ghost var before := out[..next];
          out[next] := Tag(curValue, count % 0x4000);
          next := next + 1;
          assert out[..next] == before + [Tag(curValue, count % 0x4000)];
          count := count / 0x4000;
        }
        TagsStep(curValue, 0, out[..next]);
      } else if count > 0 {
        out[next] := Fill(curValue);
        next := next + 1;
        assert out[..next] == old(out[..dst]) + [Fill(curValue)];
      } else {
        assert out[..next] + [] == out[..next];
      }
    }

    method Uncompress() returns (b: Bitmap)
      requires Valid()
      ensures fresh(b) && fresh(b.data) && !b.compressed && b.size == size && b.Valid()
      ensures compressed ==> b.data[..] == Meaning()
      ensures !compressed ==> b.data[..] == data[..]
    {
      if !compressed {
        b := new Bitmap.Copy(this);
        return;
      }
      b := new Bitmap(size, 0);
      DecodeWords(data, b);
    }

    // The scan of uncompress: fills runs and copies literals into the plain bitmap b.
    static method DecodeWords(data: array<Word>, b: Bitmap)
      requires data != b.data
      requires Narrow(data[..]) && Decode(data[..]).Some? && |Decode(data[..]).value| == b.data.Length
      modifies b.data
      ensures b.data[..] == Decode(data[..]).value
    {
      hide Decode, Narrow;
      ghost var full := Decode(data[..]).value;
      var curPos: nat, i: nat := 0, 0;
      ghost var done: seq<Word> := [];
      assert data[0..] == data[..];
      while i < data.Length
        invariant i <= data.Length
        invariant curPos == VALUE_SIZE * |done| && |done| <= |full|
        invariant b.data[..|done|] == done
        invariant Reading(full, done, data[i..])
      {
        if Marked(data[i]) {
          var v, count, end := ReadRun(data, i);
          ghost var run := Fills(v, count / VALUE_SIZE);
          ReadFills(full, done, data[i..], v, count, data[end..]);
          b.SetRange(curPos, count, v);
          curPos := curPos + count;
          i := end;
          done := done + run;
        } else {
          ReadLiteral(full, done, data[i..]);
          assert data[i..][1..] == data[i + 1..];
          b.data[curPos / VALUE_SIZE] := Payload(data[i]);
          curPos := curPos + VALUE_SIZE;
          done := done + [Payload(data[i])];
          i := i + 1;
        }
      }
      ReadAll(full, done, data[i..]);
      assert b.data[..] == done;
    }

    /* ---------- operators ---------- */

    // &=: the payload words of both operands are met, whatever the form of b.
    method AndWith(b: Bitmap) returns (err: Option<Error>)
      requires Valid() && b.Valid() && (b.compressed != compressed ==> b.data != data)
      modifies data
      ensures err == if size != b.size then Some(SizeMismatch)
                     else if !compressed then None
                     else if b.compressed then Some(CompressedBoth) else Some(CompressedLeft)
      ensures err.Some? ==> data[..] == old(data[..])
      ensures err.None? ==> !compressed && |old(b.Meaning())| == data.Length
      ensures err.None? ==> IsAnd(data[..], old(data[..]), old(b.Meaning())) && KeepsSpare(data[..], old(data[..]))
      ensures err.None? && !b.compressed ==>
        forall k :: 0 <= k < data.Length ==> data[k] == And(old(data[k]), old(b.data[k]))
    {
      if size != b.size { return Some(SizeMismatch); }
      if !compressed && !b.compressed {
        ghost var was, other := data[..], b.data[..];
        AndPlain(b);
        AndPlainMeets(data[..], was, other);
      } else if compressed != b.compressed {
        if compressed { return Some(CompressedLeft); }
        AndCompressed(b.data);
      } else {
        return Some(CompressedBoth);
      }
      err := None;
    }

    // Four words at a time while a whole 56-bit block fits below m_size, then one by one.
    method AndPlain(b: Bitmap)
      requires Valid() && b.Valid() && !compressed && !b.compressed && size == b.size
      modifies data
      ensures forall k :: 0 <= k < data.Length ==> data[k] == And(old(data[k]), old(b.data[k]))
    {
      hide And;
      var i := 0;
      while i < size / U64_VALUE_SIZE
        invariant 0 <= i <= size / U64_VALUE_SIZE
        invariant forall k :: 0 <= k < 4 * i ==> data[k] == And(old(data[k]), old(b.data[k]))
        invariant forall k :: 4 * i <= k < data.Length ==> data[k] == old(data[k]) && b.data[k] == old(b.data[k])
      {
        var k := U64_DIV_BASE * i;
        data[k], data[k + 1], data[k + 2], data[k + 3] :=
          And(data[k], b.data[k]), And(data[k + 1], b.data[k + 1]),
          And(data[k + 2], b.data[k + 2]), And(data[k + 3], b.data[k + 3]);
        i := i + 1;
      }
      var j := U64_DIV_BASE * (size / U64_VALUE_SIZE);
      while j < data.Length
        invariant 0 <= j <= data.Length
        invariant forall k :: 0 <= k < j ==> data[k] == And(old(data[k]), old(b.data[k]))
        invariant forall k :: j <= k < data.Length ==> data[k] == old(data[k]) && b.data[k] == old(b.data[k])
      {
        data[j] := And(data[j], b.data[j]);
        j := j + 1;
      }
    }

    method AndCompressed(code: array<Word>)
      requires code != data && Narrow(code[..]) && Decode(code[..]).Some? && |Decode(code[..]).value| == data.Length
      modifies data
      ensures IsAnd(data[..], old(data[..]), Decode(code[..]).value)
      ensures KeepsSpare(data[..], old(data[..]))
    {
      hide Decode, Narrow, And, Met;
      ghost var full := Decode(code[..]).value;
      var curPos: nat, i: nat := 0, 0;
      ghost var done: seq<Word> := [];
      assert code[0..] == code[..];
      ReadStart(code[..]);
      while i < code.Length
        invariant i <= code.Length
        invariant curPos == VALUE_SIZE * |done| && |done| <= |full|
        invariant Reading(full, done, code[i..])
        invariant forall k :: 0 <= k < |done| ==> Met(data[k], old(data[k]), done[k])
        invariant forall k :: |done| <= k < data.Length ==> data[k] == old(data[k])
      {
        if Marked(code[i]) {
          var v, count, end := ReadRun(code, i);
          ghost var run := Fills(v, count / VALUE_SIZE);
          ReadFills(full, done, code[i..], v, count, code[end..]);
          if !v { SetRange(curPos, count, false); }
          forall k | |done| <= k < |done| + |run| ensures Met(data[k], old(data[k]), run[k - |done|]) {
            MetFill(old(data[k]), v);
          }
          curPos := curPos + count;
          i := end;
          done := done + run;
        } else {
          ReadLiteral(full, done, code[i..]);
          assert code[i..][1..] == code[i + 1..];
          MetWord(data[curPos / VALUE_SIZE], Payload(code[i]));
          data[curPos / VALUE_SIZE] := And(data[curPos / VALUE_SIZE], Payload(code[i]));
          curPos := curPos + VALUE_SIZE;
          done := done + [Payload(code[i])];
          i := i + 1;
        }
      }
      ReadAll(full, done, code[i..]);
      MetEverywhere(data[..], old(data[..]), full);
    }

    // |=: the payload words of both operands are joined.
    method OrWith(b: Bitmap) returns (err: Option<Error>)
      requires Valid() && b.Valid() && (b.compressed != compressed ==> b.data != data)
      modifies data
      ensures err == if size != b.size then Some(SizeMismatch)
                     else if !compressed then None
                     else if b.compressed then Some(CompressedBoth) else Some(CompressedLeft)
      ensures err.Some? ==> data[..] == old(data[..])
      ensures err.None? ==> !compressed && |old(b.Meaning())| == data.Length
      ensures err.None? ==> IsOr(data[..], old(data[..]), old(b.Meaning()))
      ensures err.None? && b.compressed ==> KeepsSpare(data[..], old(data[..]))
      ensures err.None? && !b.compressed ==>
        forall k :: 0 <= k < data.Length ==> data[k] == Or(old(data[k]), old(b.data[k]))
    {
      if size != b.size { return Some(SizeMismatch); }
      if !compressed && !b.compressed {
        ghost var was, other := data[..], b.data[..];
        OrPlain(b);
        OrPlainJoins(data[..], was, other);
      } else if compressed != b.compressed {
        if compressed { return Some(CompressedLeft); }
        OrCompressed(b.data);
      } else {
        return Some(CompressedBoth);
      }
      err := None;
    }

    method OrPlain(b: Bitmap)
      requires Valid() && b.Valid() && !compressed && !b.compressed && size == b.size
      modifies data
      ensures forall k :: 0 <= k < data.Length ==> data[k] == Or(old(data[k]), old(b.data[k]))
    {
      hide Or;
      var i := 0;
      while i < size / U64_VALUE_SIZE
        invariant 0 <= i <= size / U64_VALUE_SIZE
        invariant forall k :: 0 <= k < 4 * i ==> data[k] == Or(old(data[k]), old(b.data[k]))
        invariant forall k :: 4 * i <= k < data.Length ==> data[k] == old(data[k]) && b.data[k] == old(b.data[k])
      {
        var k := U64_DIV_BASE * i;
        OrWord(data[k], b.data[k]); OrWord(data[k + 1], b.data[k + 1]);
        OrWord(data[k + 2], b.data[k + 2]); OrWord(data[k + 3], b.data[k + 3]);
        data[k], data[k + 1], data[k + 2], data[k + 3] :=
          Or(data[k], b.data[k]), Or(data[k + 1], b.data[k + 1]),
          Or(data[k + 2], b.data[k + 2]), Or(data[k + 3], b.data[k + 3]);
        i := i + 1;
      }
      var j := U64_DIV_BASE * (size / U64_VALUE_SIZE);
      while j < data.Length
        invariant 0 <= j <= data.Length
        invariant forall k :: 0 <= k < j ==> data[k] == Or(old(data[k]), old(b.data[k]))
        invariant forall k :: j <= k < data.Length ==> data[k] == old(data[k]) && b.data[k] == old(b.data[k])
      {
        OrWord(data[j], b.data[j]);
        data[j] := Or(data[j], b.data[j]);
        j := j + 1;
      }
    }

    method OrCompressed(code: array<Word>)
      requires code != data && Narrow(code[..]) && Decode(code[..]).Some? && |Decode(code[..]).value| == data.Length
      modifies data
      ensures IsOr(data[..], old(data[..]), Decode(code[..]).value)
      ensures KeepsSpare(data[..], old(data[..]))
    {
      hide Decode, Narrow, Or, Joined;
      ghost var full := Decode(code[..]).value;
      var curPos: nat, i: nat := 0, 0;
      ghost var done: seq<Word> := [];
      assert code[0..] == code[..];
      ReadStart(code[..]);
      while i < code.Length
        invariant i <= code.Length
        invariant curPos == VALUE_SIZE * |done| && |done| <= |full|
        invariant Reading(full, done, code[i..])
        invariant forall k :: 0 <= k < |done| ==> Joined(data[k], old(data[k]), done[k])
        invariant forall k :: |done| <= k < data.Length ==> data[k] == old(data[k])
      {
        if Marked(code[i]) {
          var v, count, end := ReadRun(code, i);
          ghost var run := Fills(v, count / VALUE_SIZE);
          ReadFills(full, done, code[i..], v, count, code[end..]);
          if v { SetRange(curPos, count, true); }
          forall k | |done| <= k < |done| + |run| ensures Joined(data[k], old(data[k]), run[k - |done|]) {
            JoinedFill(old(data[k]), v);
          }
          curPos := curPos + count;
          i := end;
          done := done + run;
        } else {
          ReadLiteral(full, done, code[i..]);
          assert code[i..][1..] == code[i + 1..];
          JoinedWord(data[curPos / VALUE_SIZE], Payload(code[i]));
          data[curPos / VALUE_SIZE] := Or(data[curPos / VALUE_SIZE], Payload(code[i]));
          curPos := curPos + VALUE_SIZE;
          done := done + [Payload(code[i])];
          i := i + 1;
        }
      }
      ReadAll(full, done, code[i..]);
      JoinedEverywhere(data[..], old(data[..]), full);
    }

    // ~: complements in place; a compressed bitmap stays readable.
    method Invert()
      requires Valid()
      modifies data
      ensures Valid() && Meaning() == Complement(old(Meaning()))
      ensures compressed ==> data[..] == NotCode(old(data[..]))
      ensures !compressed ==> forall k :: 0 <= k < data.Length ==> data[k] == Not(old(data[k]))
    {
      ghost var was := data[..];
      if !compressed {
        InvertPlain();
        assert Payloads(data[..]) == Complement(Payloads(was));
      } else {
        InvertCompressed();
        assert data[..] == NotCode(was);
        DecodeNot(was);
        NarrowNot(was);
      }
    }

    method InvertPlain()
      requires Valid() && !compressed
      modifies data
      ensures forall k :: 0 <= k < data.Length ==> data[k] == Not(old(data[k]))
    {
      var i := 0;
      while i < size / U64_VALUE_SIZE
        invariant 0 <= i <= size / U64_VALUE_SIZE
        invariant forall k :: 0 <= k < data.Length ==> data[k] == if k < 4 * i then Not(old(data[k])) else old(data[k])
      {
        var k := U64_DIV_BASE * i;
        data[k], data[k + 1], data[k + 2], data[k + 3] :=
          Not(data[k]), Not(data[k + 1]), Not(data[k + 2]), Not(data[k + 3]);
        i := i + 1;
      }
      var j := U64_DIV_BASE * (size / U64_VALUE_SIZE);
      while j < data.Length
        invariant 0 <= j <= data.Length
        invariant forall k :: 0 <= k < data.Length ==> data[k] == if k < j then Not(old(data[k])) else old(data[k])
      {
        data[j] := Not(data[j]);
        j := j + 1;
      }
    }

    method InvertCompressed()
      modifies data
      ensures forall k :: 0 <= k < data.Length ==> data[k] == NotWord(old(data[k]))
    {
      var i := 0;
      while i < data.Length
        invariant 0 <= i <= data.Length
        invariant forall k :: 0 <= k < data.Length ==> data[k] == if k < i then NotWord(old(data[k])) else old(data[k])
      {
        var cur := data[i];
        if Marked(cur) {
          data[i] := if ValueBit(cur) then cur - 0x4000 else cur + 0x4000;
        } else {
          data[i] := Payload(Not(cur));
        }
        i := i + 1;
      }
    }

    /* ---------- cross ---------- */

    // Whether a plain bitmap has a bit in common with b; false for a compressed left operand.
    // Sizes are not compared: a plain b is read as far as this one goes, and a compressed b reads
    // this one as far as b goes, so what is read has to be there.
    method Cross(b: Bitmap) returns (r: bool)
      requires Valid() && b.Valid()
      requires !compressed ==> if b.compressed then WordCount(b.size) <= data.Length else data.Length <= b.data.Length
      ensures compressed ==> !r
      ensures !compressed && b.compressed ==> (r <==> CommonPayload(data[..], b.Meaning()))
      ensures !compressed && !b.compressed ==> (r <==> CommonWord(data[..], b.data[..]))
    {
      if !compressed && b.compressed {
        r := CompressCross(b.data);
      } else if !compressed && !b.compressed {
        r := NormalCross(b);
      } else {
        r := false;
      }
    }

    method NormalCross(b: Bitmap) returns (r: bool)
      requires Valid() && b.Valid() && !compressed && !b.compressed && data.Length <= b.data.Length
      ensures r <==> CommonWord(data[..], b.data[..])
    {
      hide And;
      var i := 0;
      while i < size / U64_VALUE_SIZE
        invariant 0 <= i <= size / U64_VALUE_SIZE
        invariant forall k :: 0 <= k < 4 * i ==> And(data[k], b.data[k]) == 0
      {
        var k := U64_DIV_BASE * i;
        AndZero(b.data[k]); AndZero(b.data[k + 1]); AndZero(b.data[k + 2]); AndZero(b.data[k + 3]);
        if data[k] != 0 || data[k + 1] != 0 || data[k + 2] != 0 || data[k + 3] != 0 {
          if And(data[k], b.data[k]) != 0 { return true; }
          if And(data[k + 1], b.data[k + 1]) != 0 { return true; }
          if And(data[k + 2], b.data[k + 2]) != 0 { return true; }
          if And(data[k + 3], b.data[k + 3]) != 0 { return true; }
        }
        i := i + 1;
      }
      var j := U64_DIV_BASE * (size / U64_VALUE_SIZE);
      while j < data.Length
        invariant 0 <= j <= data.Length
        invariant forall k :: 0 <= k < j ==> And(data[k], b.data[k]) == 0
      {
        if And(data[j], b.data[j]) != 0 { return true; }
        j := j + 1;
      }
      return false;
    }

    // get(cur_pos, count, 1), in words.
    method HitsRun(curPos: nat, count: nat, ghost at: nat, ghost n: nat) returns (hit: bool)
      requires curPos == VALUE_SIZE * at && count == VALUE_SIZE * n && at + n <= data.Length
      ensures hit <==> exists k :: at <= k < at + n && Payload(data[k]) != 0
    {
      WholeWords(at);
      WholeWords(n);
      hide Payload;
      hit := GetRange(curPos, count, true);
    }

    method CompressCross(code: array<Word>) returns (r: bool)
      requires Narrow(code[..]) && Decode(code[..]).Some? && |Decode(code[..]).value| <= data.Length
      ensures r <==> CommonPayload(data[..], Decode(code[..]).value)
    {
      hide Decode, Narrow, And, Meets, RunRead, CommonPayload, Payload;
      ghost var full := Decode(code[..]).value;
      var curPos: nat, i: nat := 0, 0;
      ghost var done: seq<Word> := [];
      assert code[0..] == code[..];
      ReadStart(code[..]);
      assert NoneMeet(data[..], full, 0);
      hide NoneMeet;
      while i < code.Length
        invariant i <= code.Length
        invariant curPos == VALUE_SIZE * |done| && |done| <= |full|
        invariant Reading(full, done, code[i..])
        invariant NoneMeet(data[..], full, |done|)
      {
        if Marked(code[i]) {
          var v, count, end := ReadRun(code, i);
          ghost var run := Fills(v, count / VALUE_SIZE);
          ReadFills(full, done, code[i..], v, count, code[end..]);
          CrossRun(data[..], full, done, v, |run|, code[end..]);
          if v {
            var hit := HitsRun(curPos, count, |done|, |run|);
            if hit { return true; }
          }
          curPos := curPos + count;
          i := end;
          done := done + run;
        } else {
          ReadLiteral(full, done, code[i..]);
          assert code[i..][1..] == code[i + 1..];
          var p := Payload(code[i]);
          PayloadSpareClear(code[i]);
          WholeWords(|done|);
          CrossWord(data[..], full, done, p, code[i + 1..]);
          if And(data[curPos / VALUE_SIZE], p) != 0 { return true; }
          curPos := curPos + VALUE_SIZE;
          done := done + [p];
          i := i + 1;
        }
      }
      ReadAll(full, done, code[i..]);
      NothingCommon(data[..], full);
      return false;
    }
  }

  // Code still stands for what is left of full once `done` has been read.
  ghost predicate Reading(full: seq<Word>, done: seq<Word>, code: seq<Word>)
  {
    Narrow(code) && Decode(code).Some? && full == done + Decode(code).value
  }

  lemma ReadLiteral(full: seq<Word>, done: seq<Word>, code: seq<Word>)
    requires Reading(full, done, code) && code != [] && !Marked(code[0])
    ensures Reading(full, done + [Payload(code[0])], code[1..]) && |done| < |full|
  {
  }

  lemma ReadAll(full: seq<Word>, done: seq<Word>, code: seq<Word>)
    requires Reading(full, done, code) && code == []
    ensures full == done
  {
  }

  lemma ReadFills(full: seq<Word>, done: seq<Word>, code: seq<Word>, v: bool, count: nat, rest: seq<Word>)
    requires Reading(full, done, code) && RunRead(code, v, count, rest)
    ensures var run := Fills(v, count / VALUE_SIZE);
      Reading(full, done + run, rest) && |done + run| <= |full| && count == VALUE_SIZE * |run|
  {
    var run := Fills(v, count / VALUE_SIZE);
    assert done + (run + Decode(rest).value) == (done + run) + Decode(rest).value;
  }

  // Before word i: `emitted` has been written, and the n words before i are a pending run.
  ghost predicate Writing(ws: seq<Word>, i: nat, v: bool, n: nat, emitted: seq<Word>)
    requires i <= |ws|
  {
    && n <= i && |emitted| <= i - n
    && (forall k :: i - n <= k < i ==> IsFill(ws[k], v))
    && Code(ws) == emitted + Code(ws[i - n..])
  }

  lemma {:induction false} FillLenExact(ws: seq<Word>, v: bool, n: nat)
    requires n <= |ws| && forall k :: 0 <= k < n ==> IsFill(ws[k], v)
    requires n < |ws| ==> !IsFill(ws[n], v)
    ensures FillLen(ws, v) == n
  {
    if n > 0 { FillLenExact(ws[1..], v, n - 1); }
  }

  // A pending run that does not go on is written as one RunCode.
  lemma CodeOfPending(ws: seq<Word>, i: nat, v: bool, n: nat)
    requires n <= i <= |ws| && forall k :: i - n <= k < i ==> IsFill(ws[k], v)
    requires i < |ws| ==> !IsFill(ws[i], v)
    ensures Code(ws[i - n..]) == RunCode(v, n) + Code(ws[i..])
  {
    var tail := ws[i - n..];
    assert tail[n..] == ws[i..];
    if n > 0 {
      FillLenExact(tail, v, n);
    } else {
      assert RunCode(v, 0) + Code(tail) == Code(tail);
    }
  }

  lemma Flushed(ws: seq<Word>, i: nat, v: bool, n: nat, emitted: seq<Word>)
    requires i <= |ws| && Writing(ws, i, v, n, emitted)
    requires i < |ws| ==> !IsFill(ws[i], v)
    ensures Writing(ws, i, v, 0, emitted + RunCode(v, n))
  {
    hide RunCode;
    RunCodeFits(v, n);
    var rest := Code(ws[i..]);
    assert Code(ws[i - n..]) == RunCode(v, n) + rest by { CodeOfPending(ws, i, v, n); }
    assert emitted + (RunCode(v, n) + rest) == (emitted + RunCode(v, n)) + rest;
  }

  lemma ExtendedRun(ws: seq<Word>, i: nat, v: bool, n: nat, emitted: seq<Word>)
    requires i < |ws| && IsFill(ws[i], v)
    requires Writing(ws, i, v, n, emitted)
    ensures Writing(ws, i + 1, v, n + 1, emitted)
  {
  }

  lemma WroteLiteral(ws: seq<Word>, i: nat, v: bool, emitted: seq<Word>)
    requires i < |ws| && Mixed(ws[i]) && Writing(ws, i, v, 0, emitted)
    ensures Writing(ws, i + 1, v, 0, emitted + [ws[i]])
  {
    hide RunCode;
    var rest := Code(ws[i + 1..]);
    assert Code(ws[i..]) == [ws[i]] + rest by {
      CodeLiteral(ws[i..]);
      assert ws[i..][1..] == ws[i + 1..];
    }
    assert emitted + ([ws[i]] + rest) == (emitted + [ws[i]]) + rest;
  }

  lemma WroteAll(ws: seq<Word>, v: bool, emitted: seq<Word>)
    requires Writing(ws, |ws|, v, 0, emitted)
    ensures Code(ws) == emitted
  {
    assert ws[|ws|..] == [];
  }

  lemma RunCodeCases(v: bool, n: nat)
    ensures |RunCode(v, n)| <= n
    ensures n == 0 ==> RunCode(v, n) == []
    ensures n == 1 ==> RunCode(v, n) == [Fill(v)]
    ensures n > 1 ==> RunCode(v, n) == Tags(v, VALUE_SIZE * n)
  {
    RunCodeFits(v, n);
  }

  lemma TagsStep(v: bool, count: nat, before: seq<Word>)
    ensures count == 0 ==> before + Tags(v, count) == before
    ensures count > 0 ==>
      && |Tags(v, count)| == 1 + |Tags(v, count / 0x4000)|
      && before + Tags(v, count) == before + [Tag(v, count % 0x4000)] + Tags(v, count / 0x4000)
  {
  }

  lemma PosInWord(pos: nat)
    requires pos < 14
    ensures Pow2(pos) < 0x4000
  {
    PosSum(pos, 14 - pos);
    Pos14();
    assert Pow2(14 - pos) >= 2;
  }

  /* ---------- word-level steps of the operators ---------- */

  // r is a's payload met with p; a word with clear spare bits stays so.
  ghost predicate Met(r: Word, a: Word, p: Word)
  {
    Payload(r) == And(Payload(a), Payload(p)) && (SpareClear(a) ==> SpareClear(r))
  }

  ghost predicate Joined(r: Word, a: Word, p: Word)
  {
    Payload(r) == Or(Payload(a), Payload(p)) && (SpareClear(a) ==> SpareClear(r))
  }

  lemma MetWord(a: Word, p: Word)
    ensures Met(And(a, p), a, p)
  {
    PayloadAnd(a, p);
  }

  lemma MetFill(a: Word, v: bool)
    ensures Met(if v then a else 0, a, Fill(v))
  {
    FillIsUnit(Payload(a));
  }

  lemma JoinedWord(a: Word, p: Word)
    requires SpareClear(p)
    ensures Or(a, p) < 0x10000 && Joined(Or(a, p), a, p)
  {
    OrWord(a, p);
    PayloadOr(a, p);
  }

  lemma JoinedFill(a: Word, v: bool)
    ensures Joined(if v then COUNT_MASK else a, a, Fill(v))
  {
    FillIsUnit(Payload(a));
  }

  lemma AndZero(b: nat)
    ensures And(0, b) == 0
  {
  }

  lemma AndBelow(a: Word, p: Word)
    requires SpareClear(p)
    ensures And(a, p) == And(Payload(a), Payload(p))
  {
    hide And;
    PayloadAnd(a, p);
  }

  ghost predicate NoneMeet(a: seq<Word>, full: seq<Word>, n: nat)
    requires n <= |full| <= |a|
  {
    forall k :: 0 <= k < n ==> !Meets(a[k], full[k])
  }

  // Within a run, a word meets the run's words iff the run is of ones and its payload is not zero.
  lemma CrossRun(a: seq<Word>, full: seq<Word>, done: seq<Word>, v: bool, n: nat, rest: seq<Word>)
    requires |a| >= |full| && Reading(full, done + Fills(v, n), rest) && NoneMeet(a, full, |done|)
    ensures |done| + n <= |full|
    ensures v && (exists k :: |done| <= k < |done| + n && Payload(a[k]) != 0) ==> CommonPayload(a, full)
    ensures !v || (forall k :: |done| <= k < |done| + n ==> Payload(a[k]) == 0) ==> NoneMeet(a, full, |done| + n)
  {
    hide Decode, Narrow, And, Meets;
    ReadPrefix(full, done + Fills(v, n), rest);
    forall k | |done| <= k < |done| + n ensures Meets(a[k], full[k]) <==> v && Payload(a[k]) != 0 {
      assert full[k] == (done + Fills(v, n))[k];
      FillMeets(a[k], v);
    }
  }

  lemma FillMeets(w: Word, v: bool)
    ensures Meets(w, Fill(v)) <==> v && Payload(w) != 0
  {
    hide And;
    FillIsUnit(Payload(w));
    assert Payload(Fill(v)) == Fill(v);
  }

  lemma CrossWord(a: seq<Word>, full: seq<Word>, done: seq<Word>, p: Word, rest: seq<Word>)
    requires |a| >= |full| && SpareClear(p) && Reading(full, done + [p], rest) && NoneMeet(a, full, |done|)
    ensures |done| < |full|
    ensures if And(a[|done|], p) != 0 then CommonPayload(a, full) else NoneMeet(a, full, |done| + 1)
  {
    hide Decode, Narrow, And;
    ReadPrefix(full, done + [p], rest);
    assert full[|done|] == (done + [p])[|done|];
    AndBelow(a[|done|], p);
  }

  lemma PayloadSpareClear(w: Word)
    ensures SpareClear(Payload(w))
  {
  }

  lemma WholeWords(n: nat)
    ensures (VALUE_SIZE * n) / VALUE_SIZE == n && (VALUE_SIZE * n) % VALUE_SIZE == 0
  {
  }

  lemma NothingCommon(a: seq<Word>, full: seq<Word>)
    requires |full| <= |a| && NoneMeet(a, full, |full|)
    ensures !CommonPayload(a, full)
  {
    hide Meets;
  }

  lemma MetEverywhere(r: seq<Word>, a: seq<Word>, p: seq<Word>)
    requires |r| == |a| == |p| && forall k :: 0 <= k < |r| ==> Met(r[k], a[k], p[k])
    ensures IsAnd(r, a, p) && KeepsSpare(r, a)
  {
  }

  lemma JoinedEverywhere(r: seq<Word>, a: seq<Word>, p: seq<Word>)
    requires |r| == |a| == |p| && forall k :: 0 <= k < |r| ==> Joined(r[k], a[k], p[k])
    ensures IsOr(r, a, p) && KeepsSpare(r, a)
  {
  }

  lemma ReadStart(code: seq<Word>)
    requires Narrow(code) && Decode(code).Some?
    ensures Reading(Decode(code).value, [], code)
  {
  }

  lemma ReadPrefix(full: seq<Word>, done: seq<Word>, code: seq<Word>)
    requires Reading(full, done, code)
    ensures |done| <= |full| && full[..|done|] == done
  {
  }

  lemma AndPlainMeets(r: seq<Word>, a: seq<Word>, b: seq<Word>)
    requires |r| == |a| == |b| && forall k :: 0 <= k < |r| ==> r[k] == And(a[k], b[k])
    ensures IsAnd(r, a, Payloads(b)) && KeepsSpare(r, a)
  {
    hide And;
    forall k | 0 <= k < |r| ensures Met(r[k], a[k], b[k]) { MetWord(a[k], b[k]); }
  }

  lemma OrPlainJoins(r: seq<Word>, a: seq<Word>, b: seq<Word>)
    requires |r| == |a| == |b| && forall k :: 0 <= k < |r| ==> r[k] == Or(a[k], b[k])
    ensures IsOr(r, a, Payloads(b))
  {
    hide Or;
    forall k | 0 <= k < |r| ensures Payload(r[k]) == Or(Payload(a[k]), Payload(b[k])) { PayloadOr(a[k], b[k]); }
  }

  // Some bit, payload or spare, is set in both.
  ghost predicate CommonWord(a: seq<Word>, b: seq<Word>)
  {
    exists k :: 0 <= k < |a| && k < |b| && And(a[k], b[k]) != 0
  }
}
