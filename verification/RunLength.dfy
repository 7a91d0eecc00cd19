/** The run-length form of a Bitmap's words: what a compressed word sequence means
    (Decode), which sequence compress produces (Code), and how the two fit together. */
module RunLength {
  import opened Options
  import opened Powers
  import opened Words

  /* ---------- reading ---------- */

  predicate SameRun(w: Word, v: bool) { Marked(w) && ValueBit(w) == v }

  // The number of leading words that belong to one run of value v.
  function GroupLen(code: seq<Word>, v: bool): (n: nat)
    ensures n <= |code|
    ensures n < |code| ==> !SameRun(code[n], v)
    ensures code != [] && SameRun(code[0], v) ==> n > 0
  {
    if code == [] || !SameRun(code[0], v) then 0 else 1 + GroupLen(code[1..], v)
  }

  // Base-2^14 digits, least significant first.
  function DigitsValue(code: seq<Word>): nat
  {
    if code == [] then 0 else Payload(code[0]) + 0x4000 * DigitsValue(code[1..])
  }

  function Fills(v: bool, n: nat): (ws: seq<Word>)
    ensures |ws| == n && forall k :: 0 <= k < n ==> ws[k] == Fill(v)
  {
    seq(n, _ => Fill(v))
  }

  // The payload words a compressed sequence stands for. Every run has to cover whole
  // words: set(from, size, v) asserts it.
  function Decode(code: seq<Word>): Option<seq<Word>>
    decreases |code|
  {
    if code == [] then Some([])
    else if Marked(code[0]) then
      var v := ValueBit(code[0]);
      var n := GroupLen(code, v);
      DecodedRun(v, DigitsValue(code[..n]), Decode(code[n..]))
    else
      DecodedLiteral(code[0], Decode(code[1..]))
  }

  function DecodedRun(v: bool, count: nat, rest: Option<seq<Word>>): Option<seq<Word>>
  {
    if count % VALUE_SIZE == 0 && rest.Some? then Some(Fills(v, count / VALUE_SIZE) + rest.value) else None
  }

  function DecodedLiteral(w: Word, rest: Option<seq<Word>>): Option<seq<Word>>
  {
    if rest.Some? then Some([Payload(w)] + rest.value) else None
  }

  /* ---------- writing ---------- */

  predicate IsFill(w: Word, v: bool) { Payload(w) == Fill(v) }

  // A payload that is neither all zeros nor all ones.
  predicate Mixed(w: Word) { !IsFill(w, false) && !IsFill(w, true) }

  function FillLen(ws: seq<Word>, v: bool): (n: nat)
    ensures n <= |ws|
    ensures n < |ws| ==> !IsFill(ws[n], v)
    ensures ws != [] && IsFill(ws[0], v) ==> n > 0
  {
    if ws == [] || !IsFill(ws[0], v) then 0 else 1 + FillLen(ws[1..], v)
  }

  function Tags(v: bool, count: nat): (code: seq<Word>)
    ensures forall k :: 0 <= k < |code| ==> SameRun(code[k], v)
    ensures count > 0 ==> |code| > 0
  {
    if count == 0 then [] else [Tag(v, count % 0x4000)] + Tags(v, count / 0x4000)
  }

  // The words written for n adjacent fill words: the word itself, or a tagged bit count.
  function RunCode(v: bool, n: nat): seq<Word>
  {
    if n == 0 then [] else if n == 1 then [Fill(v)] else Tags(v, VALUE_SIZE * n)
  }

  function Code(ws: seq<Word>): seq<Word>
    decreases |ws|
  {
    if ws == [] then []
    else if Mixed(ws[0]) then [ws[0]] + Code(ws[1..])
    else
      var v := IsFill(ws[0], true);
      RunCode(v, FillLen(ws, v)) + Code(ws[FillLen(ws, v)..])
  }

  function Payloads(ws: seq<Word>): (ps: seq<Word>)
    ensures |ps| == |ws| && forall k :: 0 <= k < |ws| ==> ps[k] == Payload(ws[k])
  {
    seq(|ws|, k requires 0 <= k < |ws| => Payload(ws[k]))
  }

  predicate AllSpareClear(ws: seq<Word>)
  {
    forall k :: 0 <= k < |ws| ==> SpareClear(ws[k])
  }

  // No word that compress copies verbatim carries the run-length mark.
  predicate NoMarkedLiteral(ws: seq<Word>)
  {
    forall k :: 0 <= k < |ws| && Mixed(ws[k]) ==> !Marked(ws[k])
  }

  /* ---------- one step of reading ---------- */

  lemma {:induction false} GroupMembers(code: seq<Word>, v: bool)
    ensures forall k :: 0 <= k < GroupLen(code, v) ==> SameRun(code[k], v)
  {
    if code != [] && SameRun(code[0], v) { GroupMembers(code[1..], v); }
  }

  lemma {:induction false} FillMembers(ws: seq<Word>, v: bool)
    ensures forall k :: 0 <= k < FillLen(ws, v) ==> IsFill(ws[k], v)
  {
    if ws != [] && IsFill(ws[0], v) { FillMembers(ws[1..], v); }
  }

  lemma {:induction false} GroupSplits(group: seq<Word>, rest: seq<Word>, v: bool)
    requires forall k :: 0 <= k < |group| ==> SameRun(group[k], v)
    ensures GroupLen(group + rest, v) == |group| + GroupLen(rest, v)
  {
    if group == [] {
      assert group + rest == rest;
    } else {
      assert (group + rest)[1..] == group[1..] + rest;
      GroupSplits(group[1..], rest, v);
    }
  }

  // Reading a word sequence that starts with a whole group.
  lemma DecodeGroup(group: seq<Word>, rest: seq<Word>, v: bool)
    requires group != [] && forall k :: 0 <= k < |group| ==> SameRun(group[k], v)
    requires rest == [] || !SameRun(rest[0], v)
    ensures Decode(group + rest) == DecodedRun(v, DigitsValue(group), Decode(rest))
  {
    GroupSplits(group, rest, v);
    assert (group + rest)[..|group|] == group;
    assert (group + rest)[|group|..] == rest;
  }

  lemma DecodeLiteral(w: Word, rest: seq<Word>)
    requires !Marked(w)
    ensures Decode([w] + rest) == DecodedLiteral(w, Decode(rest))
  {
    assert ([w] + rest)[1..] == rest;
  }

  /* ---------- counts ---------- */

  lemma {:induction false} TagsValue(v: bool, count: nat)
    ensures DigitsValue(Tags(v, count)) == count
  {
    if count > 0 {
      TagsValue(v, count / 0x4000);
      assert Tags(v, count)[1..] == Tags(v, count / 0x4000);
    }
  }

  lemma {:induction false} DigitsAppend(a: seq<Word>, b: seq<Word>)
    ensures DigitsValue(a + b) >= DigitsValue(a)
    ensures DigitsValue(b) > 0 ==> DigitsValue(a + b) > DigitsValue(a)
  {
    if a == [] {
      assert a + b == b;
    } else {
      assert (a + b)[1..] == a[1..] + b;
      DigitsAppend(a[1..], b);
    }
  }

  // A run of n >= 2 words needs at most n digits.
  lemma {:induction false} TagsFit(v: bool, count: nat, n: nat)
    requires count <= VALUE_SIZE * n
    ensures |Tags(v, count)| <= n
  {
    if n == 0 || count == 0 {
    } else if n == 1 {
      assert Tags(v, count / 0x4000) == [];
    } else {
      TagsFit(v, count / 0x4000, n - 1);
    }
  }

  lemma RunCodeFits(v: bool, n: nat)
    ensures |RunCode(v, n)| <= n
  {
    TagsFit(v, VALUE_SIZE * n, n);
  }

  // compress never writes more words than it has consumed.
  lemma {:induction false} CodeFits(ws: seq<Word>)
    ensures |Code(ws)| <= |ws|
    decreases |ws|
  {
    hide RunCode;
    if ws == [] {
    } else if Mixed(ws[0]) {
      CodeFits(ws[1..]);
    } else {
      var v := IsFill(ws[0], true);
      RunCodeFits(v, FillLen(ws, v));
      CodeFits(ws[FillLen(ws, v)..]);
    }
  }

  /* ---------- the round trip ---------- */

  // What compress writes never starts inside a run that has just ended.
  lemma CodeStart(ws: seq<Word>, v: bool)
    requires ws == [] || !IsFill(ws[0], v)
    requires ws != [] && Mixed(ws[0]) ==> !Marked(ws[0]) || ValueBit(ws[0]) != v
    ensures Code(ws) == [] || !SameRun(Code(ws)[0], v)
  {
    if ws != [] && !Mixed(ws[0]) {
      var u := IsFill(ws[0], true);
      assert u != v;
      var r := RunCode(u, FillLen(ws, u));
      if r != [] { assert Code(ws)[0] == r[0]; }
    }
  }

  lemma DecodeRun(v: bool, n: nat, rest: seq<Word>)
    requires n > 0
    requires n == 1 || rest == [] || !SameRun(rest[0], v)
    ensures Decode(RunCode(v, n) + rest) ==
      DecodedRun(v, VALUE_SIZE * n, Decode(rest))
  {
    if n == 1 {
      DecodeLiteral(Fill(v), rest);
      assert Fills(v, 1) == [Fill(v)];
    } else {
      TagsValue(v, VALUE_SIZE * n);
      DecodeGroup(RunCode(v, n), rest, v);
    }
  }

  // Reading back what Code wrote for a leading literal.
  lemma DecodeCodeLiteral(ws: seq<Word>)
    requires ws != [] && Mixed(ws[0]) && !Marked(ws[0])
    ensures Decode(Code(ws)) == DecodedLiteral(ws[0], Decode(Code(ws[1..])))
  {
    hide Decode;
    var rest := Code(ws[1..]);
    DecodeLiteral(ws[0], rest);
    assert Code(ws) == [ws[0]] + rest;
  }

  // Reading back what Code wrote for a leading stretch of fill words.
  lemma DecodeCodeFill(ws: seq<Word>, v: bool, n: nat)
    requires ws != [] && !Mixed(ws[0]) && v == IsFill(ws[0], true) && n == FillLen(ws, v)
    requires n == 1 || n == |ws| || !Mixed(ws[n]) || !SameRun(ws[n], v)
    ensures n > 0
    ensures Decode(Code(ws)) == DecodedRun(v, VALUE_SIZE * n, Decode(Code(ws[n..])))
  {
    hide RunCode, Decode;
    var rest := Code(ws[n..]);
    assert Code(ws) == RunCode(v, n) + rest;
    if n > 1 {
      assert n < |ws| ==> ws[n..][0] == ws[n];
      CodeStart(ws[n..], v);
    }
    DecodeRun(v, n, rest);
  }

  lemma FillPayloads(ws: seq<Word>, v: bool, n: nat)
    requires n == FillLen(ws, v)
    ensures Payloads(ws) == Fills(v, n) + Payloads(ws[n..])
  {
    FillMembers(ws, v);
  }

  lemma LiteralPayloads(ws: seq<Word>)
    requires ws != []
    ensures Payloads(ws) == [Payload(ws[0])] + Payloads(ws[1..])
  {
  }

  // Whether uncompress(compress(b)) gives back the payload words of b.
  ghost predicate RoundTrips(ws: seq<Word>) { Decode(Code(ws)) == Some(Payloads(ws)) }

  lemma RoundTripLiteral(ws: seq<Word>)
    requires ws != [] && Mixed(ws[0]) && !Marked(ws[0])
    ensures RoundTrips(ws) <==> RoundTrips(ws[1..])
  {
    hide Code, Decode;
    DecodeCodeLiteral(ws);
    LiteralPayloads(ws);
    if RoundTrips(ws) { assert Payloads(ws)[1..] == Payloads(ws[1..]); }
  }

  lemma RoundTripFill(ws: seq<Word>, v: bool, n: nat)
    requires ws != [] && !Mixed(ws[0]) && v == IsFill(ws[0], true) && n == FillLen(ws, v)
    requires n == 1 || n == |ws| || !Mixed(ws[n]) || !SameRun(ws[n], v)
    ensures RoundTrips(ws) <==> RoundTrips(ws[n..])
  {
    hide Code, Decode;
    DecodeCodeFill(ws, v, n);
    FillPayloads(ws, v, n);
    if RoundTrips(ws) {
      assert Payloads(ws)[n..] == Payloads(ws[n..]);
      assert (Fills(v, n) + Decode(Code(ws[n..])).value)[n..] == Decode(Code(ws[n..])).value;
    }
  }

  // A marked literal right after a tagged run (or at the start) lengthens that run.
  lemma MarkedHead(run: seq<Word>, ws: seq<Word>, v: bool)
    requires |run| != 1 && forall k :: 0 <= k < |run| ==> IsFill(run[k], v)
    requires ws != [] && Mixed(ws[0]) && SameRun(ws[0], v)
    ensures Decode(RunCode(v, |run|) + Code(ws)) != Some(Payloads(run + ws))
  {
    hide Decode;
    var head := RunCode(v, |run|);
    TagsValue(v, VALUE_SIZE * |run|);
    LongerRun(head, Code(ws), v, |run|);
    assert Payloads(run + ws)[|run|] == Payload(ws[0]) != Fill(v);
  }

  // A group whose count is cut short at n words decodes to more than n words of its value.
  lemma LongerRun(head: seq<Word>, rest: seq<Word>, v: bool, n: nat)
    requires forall k :: 0 <= k < |head| ==> SameRun(head[k], v)
    requires DigitsValue(head) == VALUE_SIZE * n
    requires rest != [] && SameRun(rest[0], v) && Payload(rest[0]) > 0
    ensures var d := Decode(head + rest); d.Some? ==> |d.value| > n && d.value[n] == Fill(v)
  {
    hide Decode;
    var m := GroupLen(rest, v);
    GroupMembers(rest, v);
    var tail := rest[..m];
    var group := head + tail;
    assert head + rest == group + rest[m..];
    DecodeGroup(group, rest[m..], v);
    assert DigitsValue(tail) > 0;
    DigitsAppend(head, tail);
    var c := DigitsValue(group);
    if c % VALUE_SIZE == 0 { assert c / VALUE_SIZE > n; }
  }

  lemma MarkedInTail(ws: seq<Word>, n: nat)
    requires n <= |ws|
    requires forall k :: 0 <= k < n ==> !Mixed(ws[k]) || !Marked(ws[k])
    ensures NoMarkedLiteral(ws) <==> NoMarkedLiteral(ws[n..])
  {
    if !NoMarkedLiteral(ws) {
      var k :| 0 <= k < |ws| && Mixed(ws[k]) && Marked(ws[k]);
      assert ws[n..][k - n] == ws[k];
    }
  }

  lemma FillsUnmarked(ws: seq<Word>, v: bool)
    ensures forall k :: 0 <= k < FillLen(ws, v) ==> !Mixed(ws[k])
  {
    FillMembers(ws, v);
  }

  // The payload round trip holds exactly when no verbatim word carries the mark.
  lemma {:induction false} RoundTripExactly(ws: seq<Word>)
    ensures RoundTrips(ws) <==> NoMarkedLiteral(ws)
    decreases |ws|
  {
    hide RunCode;
    if ws == [] {
    } else if Mixed(ws[0]) && Marked(ws[0]) {
      MarkedFirst(ws);
    } else if Mixed(ws[0]) {
      RoundTripLiteral(ws);
      RoundTripExactly(ws[1..]);
      MarkedInTail(ws, 1);
    } else {
      var v := IsFill(ws[0], true);
      var n := FillLen(ws, v);
      if n > 1 && n < |ws| && Mixed(ws[n]) && SameRun(ws[n], v) {
        MarkedAfterFill(ws, v, n);
      } else {
        RoundTripFill(ws, v, n);
        RoundTripExactly(ws[n..]);
        FillsUnmarked(ws, v);
        MarkedInTail(ws, n);
      }
    }
  }

  lemma MarkedFirst(ws: seq<Word>)
    requires ws != [] && Mixed(ws[0]) && Marked(ws[0])
    ensures !RoundTrips(ws)
  {
    hide Code, Decode;
    var v := ValueBit(ws[0]);
    MarkedHead([], ws, v);
    assert [] + ws == ws && RunCode(v, 0) + Code(ws) == Code(ws);
  }

  lemma MarkedAfterFill(ws: seq<Word>, v: bool, n: nat)
    requires ws != [] && !Mixed(ws[0]) && v == IsFill(ws[0], true) && n == FillLen(ws, v)
    requires 1 < n < |ws| && Mixed(ws[n]) && SameRun(ws[n], v)
    ensures !RoundTrips(ws)
  {
    hide RunCode, Decode;
    FillMembers(ws, v);
    var run, rest := ws[..n], ws[n..];
    assert ws == run + rest && rest[0] == ws[n];
    MarkedHead(run, rest, v);
  }

  // The words themselves come back exactly when their spare bits are clear.
  lemma WordsRoundTripExactly(ws: seq<Word>)
    ensures Decode(Code(ws)) == Some(ws) <==> AllSpareClear(ws)
  {
    DecodeSpareClear(Code(ws));
    RoundTripExactly(ws);
    if AllSpareClear(ws) { PayloadsOfSpareClear(ws); }
  }

  lemma PayloadsOfSpareClear(ws: seq<Word>)
    requires AllSpareClear(ws)
    ensures Payloads(ws) == ws && NoMarkedLiteral(ws)
  {
  }

  // Whatever is read back has its spare bits clear.
  lemma {:induction false} DecodeSpareClear(code: seq<Word>)
    ensures Decode(code).Some? ==> AllSpareClear(Decode(code).value)
    decreases |code|
  {
    if code == [] {
    } else if Marked(code[0]) {
      var v := ValueBit(code[0]);
      var n := GroupLen(code, v);
      DecodeSpareClear(code[n..]);
      GroupMembers(code, v);
      assert code == code[..n] + code[n..];
      DecodeGroup(code[..n], code[n..], v);
    } else {
      DecodeSpareClear(code[1..]);
      assert code == [code[0]] + code[1..];
      DecodeLiteral(code[0], code[1..]);
    }
  }

  /* ---------- complement ---------- */

  // What ~ does to one word of a compressed bitmap.
  function NotWord(w: Word): Word
  {
    if Marked(w) then (if ValueBit(w) then w - 0x4000 else w + 0x4000)
    else Payload(Not(w))
  }

  function NotCode(code: seq<Word>): (r: seq<Word>)
    ensures |r| == |code| && forall k :: 0 <= k < |code| ==> r[k] == NotWord(code[k])
  {
    seq(|code|, k requires 0 <= k < |code| => NotWord(code[k]))
  }

  // The payload complement.
  function Complement(ws: seq<Word>): (r: seq<Word>)
    ensures |r| == |ws| && forall k :: 0 <= k < |ws| ==> r[k] == COUNT_MASK - Payload(ws[k])
  {
    seq(|ws|, k requires 0 <= k < |ws| => COUNT_MASK - Payload(ws[k]))
  }

  lemma NotCodeConcat(a: seq<Word>, b: seq<Word>)
    ensures NotCode(a + b) == NotCode(a) + NotCode(b)
  {
  }

  lemma {:induction false} NotCodeTags(v: bool, count: nat)
    ensures NotCode(Tags(v, count)) == Tags(!v, count)
  {
    if count > 0 {
      NotCodeTags(v, count / 0x4000);
      NotCodeConcat([Tag(v, count % 0x4000)], Tags(v, count / 0x4000));
    }
  }

  lemma NotRunCode(v: bool, n: nat)
    ensures NotCode(RunCode(v, n)) == RunCode(!v, n)
  {
    NotCodeTags(v, VALUE_SIZE * n);
  }

  lemma ComplementTail(ws: seq<Word>, n: nat)
    requires n <= |ws|
    ensures Complement(ws)[n..] == Complement(ws[n..])
  {
  }

  lemma {:induction false} FillLenComplement(ws: seq<Word>, v: bool)
    ensures FillLen(Complement(ws), !v) == FillLen(ws, v)
  {
    if ws != [] {
      ComplementTail(ws, 1);
      FillLenComplement(ws[1..], v);
    }
  }

  lemma NotCodeLiteral(ws: seq<Word>)
    requires ws != [] && Mixed(ws[0]) && !Marked(ws[0])
    requires NotCode(Code(ws[1..])) == Code(Complement(ws[1..]))
    ensures NotCode(Code(ws)) == Code(Complement(ws))
  {
    hide Code;
    assert NotCode(Code(ws)) == [NotWord(ws[0])] + NotCode(Code(ws[1..])) by {
      CodeLiteral(ws);
      NotCodeCons(ws[0], Code(ws[1..]));
    }
    assert Code(Complement(ws)) == [NotWord(ws[0])] + Code(Complement(ws[1..])) by {
      NotLiteralWord(ws[0]);
      ComplementTail(ws, 1);
      CodeLiteral(Complement(ws));
    }
  }

  lemma NotCodeCons(w: Word, rest: seq<Word>)
    ensures NotCode([w] + rest) == [NotWord(w)] + NotCode(rest)
  {
  }

  lemma NotLiteralWord(w: Word)
    requires Mixed(w) && !Marked(w)
    ensures NotWord(w) == COUNT_MASK - Payload(w) && Mixed(NotWord(w))
  {
  }

  lemma CodeLiteral(ws: seq<Word>)
    requires ws != [] && Mixed(ws[0])
    ensures Code(ws) == [ws[0]] + Code(ws[1..])
  {
  }

  lemma NotCodeFill(ws: seq<Word>, v: bool, n: nat)
    requires ws != [] && !Mixed(ws[0]) && v == IsFill(ws[0], true) && n == FillLen(ws, v)
    requires NotCode(Code(ws[n..])) == Code(Complement(ws[n..]))
    ensures NotCode(Code(ws)) == Code(Complement(ws))
  {
    hide RunCode;
    NotCodeConcat(RunCode(v, n), Code(ws[n..]));
    NotRunCode(v, n);
    ComplementTail(ws, n);
    FillLenComplement(ws, v);
  }

  // ~compress(b) is compress of b's payload complement.
  lemma {:induction false} NotOfCode(ws: seq<Word>)
    requires NoMarkedLiteral(ws)
    ensures NotCode(Code(ws)) == Code(Complement(ws))
    decreases |ws|
  {
    hide RunCode;
    if ws == [] {
      assert NotCode(Code(ws)) == [] == Code(Complement(ws));
    } else if Mixed(ws[0]) {
      MarkedInTail(ws, 0);
      MarkedInTail(ws, 1);
      NotOfCode(ws[1..]);
      NotCodeLiteral(ws);
    } else {
      var v := IsFill(ws[0], true);
      var n := FillLen(ws, v);
      FillsUnmarked(ws, v);
      MarkedInTail(ws, n);
      NotOfCode(ws[n..]);
      NotCodeFill(ws, v, n);
    }
  }

  lemma {:induction false} GroupLenNot(code: seq<Word>, v: bool)
    ensures GroupLen(NotCode(code), !v) == GroupLen(code, v)
  {
    if code != [] {
      assert NotCode(code)[1..] == NotCode(code[1..]);
      GroupLenNot(code[1..], v);
    }
  }

  lemma {:induction false} DigitsNot(code: seq<Word>)
    requires forall k :: 0 <= k < |code| ==> Marked(code[k])
    ensures DigitsValue(NotCode(code)) == DigitsValue(code)
  {
    if code != [] {
      assert NotCode(code)[1..] == NotCode(code[1..]);
      DigitsNot(code[1..]);
    }
  }

  function ComplementOf(d: Option<seq<Word>>): Option<seq<Word>>
  {
    if d.Some? then Some(Complement(d.value)) else None
  }

  lemma ComplementOfLiteral(w: Word, d: Option<seq<Word>>)
    requires !Marked(w)
    ensures ComplementOf(DecodedLiteral(w, d)) == DecodedLiteral(NotWord(w), ComplementOf(d))
  {
    if d.Some? {
      assert Complement([Payload(w)] + d.value) == [NotWord(w)] + Complement(d.value);
    }
  }

  lemma ComplementOfRun(v: bool, count: nat, d: Option<seq<Word>>)
    ensures ComplementOf(DecodedRun(v, count, d)) == DecodedRun(!v, count, ComplementOf(d))
  {
    if d.Some? {
      var n := count / VALUE_SIZE;
      assert Complement(Fills(v, n) + d.value) == Fills(!v, n) + Complement(d.value);
    }
  }

  // ~ keeps the group structure of a compressed sequence.
  lemma NotCodeGroup(code: seq<Word>, v: bool)
    requires code != [] && SameRun(code[0], v)
    ensures var n := GroupLen(code, v); var r := NotCode(code);
      && SameRun(r[0], !v) && GroupLen(r, !v) == n
      && DigitsValue(r[..n]) == DigitsValue(code[..n])
      && r[n..] == NotCode(code[n..])
  {
    var n := GroupLen(code, v);
    GroupLenNot(code, v);
    GroupMembers(code, v);
    DigitsNot(code[..n]);
    assert NotCode(code)[..n] == NotCode(code[..n]);
  }

  // ~ complements every payload word the compressed sequence stands for.
  lemma {:induction false} DecodeNot(code: seq<Word>)
    ensures Decode(NotCode(code)) == ComplementOf(Decode(code))
    decreases |code|
  {
    if code == [] {
    } else if Marked(code[0]) {
      var v := ValueBit(code[0]);
      var n := GroupLen(code, v);
      NotCodeGroup(code, v);
      DecodeNot(code[n..]);
      ComplementOfRun(v, DigitsValue(code[..n]), Decode(code[n..]));
    } else {
      assert NotCode(code)[1..] == NotCode(code[1..]);
      DecodeNot(code[1..]);
      ComplementOfLiteral(code[0], Decode(code[1..]));
    }
  }

  lemma {:induction false} NarrowNot(code: seq<Word>)
    ensures Narrow(NotCode(code)) == Narrow(code)
    decreases |code|
  {
    if code == [] {
    } else if Marked(code[0]) {
      NotCodeGroup(code, ValueBit(code[0]));
      NarrowNot(code[GroupLen(code, ValueBit(code[0]))..]);
    } else {
      assert NotCode(code)[1..] == NotCode(code[1..]);
      NarrowNot(code[1..]);
    }
  }

  /* ---------- 32-bit counts ---------- */

  // Every run count is at most three digits and fits 32 bits, so reading it shifts by at most 28.
  predicate Narrow(code: seq<Word>)
    decreases |code|
  {
    if code == [] then true
    else if Marked(code[0]) then
      var n := GroupLen(code, ValueBit(code[0]));
      n <= 3 && DigitsValue(code[..n]) < U32 && Narrow(code[n..])
    else Narrow(code[1..])
  }

  lemma NarrowGroup(group: seq<Word>, rest: seq<Word>, v: bool)
    requires group != [] && forall k :: 0 <= k < |group| ==> SameRun(group[k], v)
    requires rest == [] || !SameRun(rest[0], v)
    requires |group| <= 3 && DigitsValue(group) < U32 && Narrow(rest)
    ensures Narrow(group + rest)
  {
    GroupSplits(group, rest, v);
    assert (group + rest)[..|group|] == group;
    assert (group + rest)[|group|..] == rest;
  }

  lemma ThreeDigits(v: bool, count: nat)
    requires count < U32
    ensures |Tags(v, count)| <= 3
  {
    var a := count / 0x4000;
    var b := a / 0x4000;
    assert b < 0x4000;
    assert Tags(v, b / 0x4000) == [];
    assert |Tags(v, b)| <= 1;
    assert |Tags(v, a)| <= 2;
  }

  lemma NarrowRun(v: bool, n: nat, rest: seq<Word>)
    requires n > 0 && VALUE_SIZE * n < U32
    requires n == 1 || rest == [] || !SameRun(rest[0], v)
    requires Narrow(rest)
    ensures Narrow(RunCode(v, n) + rest)
  {
    if n == 1 {
      assert (RunCode(v, n) + rest)[1..] == rest;
    } else {
      ThreeDigits(v, VALUE_SIZE * n);
      TagsValue(v, VALUE_SIZE * n);
      NarrowGroup(RunCode(v, n), rest, v);
    }
  }

  // With fewer than 2^32 bits, compress writes counts of at most three digits.
  lemma {:induction false} CodeIsNarrow(ws: seq<Word>)
    requires NoMarkedLiteral(ws) && VALUE_SIZE * |ws| < U32
    ensures Narrow(Code(ws))
    decreases |ws|
  {
    hide RunCode;
    if ws == [] {
    } else if Mixed(ws[0]) {
      MarkedInTail(ws, 0);
      MarkedInTail(ws, 1);
      CodeIsNarrow(ws[1..]);
      assert ([ws[0]] + Code(ws[1..]))[1..] == Code(ws[1..]);
    } else {
      var v := IsFill(ws[0], true);
      var n := FillLen(ws, v);
      FillsUnmarked(ws, v);
      MarkedInTail(ws, n);
      CodeIsNarrow(ws[n..]);
      CodeStart(ws[n..], v);
      NarrowRun(v, n, Code(ws[n..]));
    }
  }

  // Appending the next, more significant digit with a shift and an |.
  lemma {:induction false} DigitsSnoc(a: seq<Word>, w: Word)
    ensures DigitsValue(a + [w]) == DigitsValue(a) + Payload(w) * Pow2(14 * |a|)
    ensures DigitsValue(a) < Pow2(14 * |a|)
  {
    if a == [] {
      assert a + [w] == [w];
      assert DigitsValue([w]) == Payload(w);
    } else {
      assert (a + [w])[1..] == a[1..] + [w];
      DigitsSnoc(a[1..], w);
      NextDigit(Payload(a[0]), DigitsValue(a[1..]), Payload(w), |a[1..]|);
    }
  }

  lemma NextDigit(low: nat, rest: nat, p: nat, n: nat)
    requires low < 0x4000 && rest < Pow2(14 * n)
    ensures low + 0x4000 * (rest + p * Pow2(14 * n)) == (low + 0x4000 * rest) + p * Pow2(14 * (n + 1))
    ensures low + 0x4000 * rest < Pow2(14 * (n + 1))
  {
    var r := Pow2(14 * n);
    PosSum(14, 14 * n);
    Pos14();
    MulScale(0x4000, p, r);
  }

  lemma {:induction false} PosSum(i: nat, j: nat)
    ensures Pow2(i + j) == Pow2(i) * Pow2(j)
  {
    if i > 0 {
      PosSum(i - 1, j);
      MulAssoc(2, Pow2(i - 1), Pow2(j));
    }
  }

  lemma {:induction false} OrDisjoint(a: nat, b: nat, k: nat)
    requires a < Pow2(k)
    ensures Or(a, b * Pow2(k)) == a + b * Pow2(k)
  {
    if k > 0 && a != 0 && b != 0 {
      var m := Pow2(k - 1);
      MulAssoc(2, m, b);
      assert b * Pow2(k) == 2 * (b * m);
      OrDisjoint(a / 2, b, k - 1);
      OrHalf(a, 2 * (b * m));
    }
  }
}
