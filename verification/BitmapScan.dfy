/** The five ways to enumerate the set positions of a plain Bitmap. */
module BitmapScan {
  import opened Bitmaps
  import opened Powers
  import opened Sequences
  import opened Words

  predicate BitAt(ws: seq<Word>, p: nat)
  {
    p / VALUE_SIZE < |ws| && Bit(ws[p / VALUE_SIZE], p % VALUE_SIZE)
  }

  // The set positions below n, ascending.
  function Upto(ws: seq<Word>, n: nat): seq<nat>
  {
    if n == 0 then [] else if BitAt(ws, n - 1) then Upto(ws, n - 1) + [n - 1] else Upto(ws, n - 1)
  }

  // The set positions below n, descending.
  function Down(ws: seq<Word>, n: nat): seq<nat>
  {
    if n == 0 then [] else if BitAt(ws, n - 1) then [n - 1] + Down(ws, n - 1) else Down(ws, n - 1)
  }

  function Reverse(s: seq<nat>): (r: seq<nat>)
    ensures |r| == |s|
  {
    if s == [] then [] else [s[|s| - 1]] + Reverse(s[..|s| - 1])
  }

  // What a callback gets to see of a list when it may ask to stop.
  function TakeUntil(s: seq<nat>, cb: nat -> bool): seq<nat>
  {
    if s == [] then [] else if cb(s[0]) then [s[0]] + TakeUntil(s[1..], cb) else [s[0]]
  }

  /* ---------- what the lists are ---------- */

  predicate Ascending(s: seq<nat>) { forall i, j :: 0 <= i < j < |s| ==> s[i] < s[j] }

  // Strictly ascending, and exactly the set positions below n.
  lemma {:induction false} UptoMeaning(ws: seq<Word>, n: nat)
    ensures Ascending(Upto(ws, n))
    ensures forall p: nat :: p in Upto(ws, n) <==> p < n && BitAt(ws, p)
  {
    hide BitAt;
    if n > 0 {
      UptoMeaning(ws, n - 1);
      var prev, next := Upto(ws, n - 1), Upto(ws, n);
      if BitAt(ws, n - 1) {
        forall i, j | 0 <= i < j < |next| ensures next[i] < next[j] {
          assert next[i] == prev[i] && prev[i] in prev;
        }
        assert next[|prev|] == n - 1;
        forall p: nat ensures p in next <==> p in prev || p == n - 1 { }
      }
    }
  }

  lemma {:induction false} DownIsReverse(ws: seq<Word>, n: nat)
    ensures Down(ws, n) == Reverse(Upto(ws, n))
  {
    hide BitAt;
    if n > 0 {
      DownIsReverse(ws, n - 1);
      var prev := Upto(ws, n - 1);
      if BitAt(ws, n - 1) { assert (prev + [n - 1])[..|prev|] == prev; }
    }
  }

  lemma {:induction false} UptoSkip(ws: seq<Word>, p: nat, q: nat)
    requires p <= q && forall i: nat :: p <= i < q ==> !BitAt(ws, i)
    ensures Upto(ws, q) == Upto(ws, p)
  {
    hide BitAt;
    if p < q { UptoSkip(ws, p, q - 1); }
  }

  lemma {:induction false} DownSkip(ws: seq<Word>, p: nat, q: nat)
    requires p <= q && forall i: nat :: p <= i < q ==> !BitAt(ws, i)
    ensures Down(ws, q) == Down(ws, p)
  {
    hide BitAt;
    if p < q { DownSkip(ws, p, q - 1); }
  }

  lemma {:induction false} UptoPrefix(ws: seq<Word>, p: nat, q: nat)
    requires p <= q
    ensures Upto(ws, p) <= Upto(ws, q)
  {
    hide BitAt;
    if p < q { UptoPrefix(ws, p, q - 1); }
  }

  lemma ClearWords(ws: seq<Word>, from: nat, to: nat)
    requires from <= to && forall k :: from <= k < to && k < |ws| ==> ws[k] == 0
    ensures forall p: nat :: VALUE_SIZE * from <= p < VALUE_SIZE * to ==> !BitAt(ws, p)
  {
    forall p: nat | VALUE_SIZE * from <= p < VALUE_SIZE * to ensures !BitAt(ws, p) {
      ZeroBits(p % VALUE_SIZE);
    }
  }

  /* ---------- stopping early ---------- */

  lemma {:induction false} TakeAll(s: seq<nat>, cb: nat -> bool)
    requires forall p :: p in s ==> cb(p)
    ensures TakeUntil(s, cb) == s
  {
    if s != [] { TakeAll(s[1..], cb); }
  }

  lemma {:induction false} TakeStops(seen: seq<nat>, p: nat, list: seq<nat>, cb: nat -> bool)
    requires (forall q :: q in seen ==> cb(q)) && !cb(p) && seen + [p] <= list
    ensures TakeUntil(list, cb) == seen + [p]
  {
    if seen == [] {
      assert list[0] == (seen + [p])[0];
    } else {
      assert list[0] == (seen + [p])[0] == seen[0];
      assert (seen + [p])[1..] == seen[1..] + [p];
      TakeStops(seen[1..], p, list[1..], cb);
      assert [seen[0]] + (seen[1..] + [p]) == seen + [p];
    }
  }

  // What is seen begins the list, ends at the first position refused, and is all of it otherwise.
  lemma {:induction false} TakeUntilExactly(s: seq<nat>, cb: nat -> bool)
    ensures var r := TakeUntil(s, cb);
      && r <= s && (forall i :: 0 <= i < |r| - 1 ==> cb(r[i]))
      && (r == s || (r != [] && !cb(r[|r| - 1])))
  {
    if s != [] { TakeUntilExactly(s[1..], cb); }
  }

  lemma {:induction false} ReverseExactly(s: seq<nat>, i: nat)
    requires i < |s|
    ensures Reverse(s)[i] == s[|s| - 1 - i]
    decreases |s|
  {
    if i > 0 { ReverseExactly(s[..|s| - 1], i - 1); }
  }

  /* ---------- ascending scans ---------- */

  // Strictly ascending, and exactly the positions whose bit is set.
  ghost predicate Lists(pos: seq<nat>, ws: seq<Word>, size: nat)
    requires |ws| == WordCount(size)
  {
    && (forall i, j :: 0 <= i < j < |pos| ==> pos[i] < pos[j])
    && (forall p: nat :: p in pos <==> p < size && Bit(ws[p / 14], p % 14))
  }

  lemma UptoLists(ws: seq<Word>, size: nat)
    requires |ws| == WordCount(size)
    ensures Lists(Upto(ws, size), ws, size)
  {
    hide Bit, Upto;
    UptoMeaning(ws, size);
    BitAtExactly(ws, size);
  }

  method ListPosAsc(b: Bitmap) returns (pos: seq<nat>)
    requires b.Valid() && !b.compressed
    ensures pos == Upto(b.data[..], b.size)
    ensures Lists(pos, b.data[..], b.size)
  {
    hide BitAt, TakeUntil, Lists;
    ghost var ws := b.data[..];
    pos := [];
    var curPos: nat := 0;
    var i := 0;
    while i < b.size / U64_VALUE_SIZE
      invariant 0 <= i <= b.size / U64_VALUE_SIZE && curPos == U64_VALUE_SIZE * i
      invariant pos == Upto(ws, curPos)
    {
      var k := U64_DIV_BASE * i;
      if b.data[k] == 0 && b.data[k + 1] == 0 && b.data[k + 2] == 0 && b.data[k + 3] == 0 {
        ClearWords(ws, k, k + 4);
        UptoSkip(ws, curPos, curPos + U64_VALUE_SIZE);
        curPos := curPos + U64_VALUE_SIZE;
      } else {
        for x := 0 to U64_DIV_BASE
          invariant curPos == U64_VALUE_SIZE * i + VALUE_SIZE * x && pos == Upto(ws, curPos)
        {
          var found := WordAsc(b, k + x, curPos);
          pos := pos + found;
          curPos := curPos + VALUE_SIZE;
        }
      }
      i := i + 1;
    }
    var j := U64_DIV_BASE * (b.size / U64_VALUE_SIZE);
    while j < b.data.Length
      invariant j <= b.data.Length
      invariant curPos == if VALUE_SIZE * j < b.size then VALUE_SIZE * j else curPos
      invariant b.size <= VALUE_SIZE * j ==> curPos >= b.size
      invariant pos == Upto(ws, if curPos < b.size then curPos else b.size)
    {
      if b.data[j] == 0 {
        ClearWords(ws, j, j + 1);
        UptoSkip(ws, curPos, if curPos + VALUE_SIZE < b.size then curPos + VALUE_SIZE else b.size);
        curPos := curPos + VALUE_SIZE;
      } else {
        var found := WordAsc(b, j, curPos);
        pos := pos + found;
        curPos := if curPos + VALUE_SIZE < b.size then curPos + VALUE_SIZE else b.size;
      }
      j := j + 1;
    }
    UptoLists(ws, b.size);
  }

  // Position p is bit p % 14 of word p / 14.
  lemma BitAtExactly(ws: seq<Word>, n: nat)
    requires |ws| == WordCount(n)
    ensures forall p: nat :: p < n ==> p / 14 < |ws| && (BitAt(ws, p) <==> Bit(ws[p / 14], p % 14))
  {
  }

  lemma UptoStep(ws: seq<Word>, k: nat, n: nat)
    requires k < |ws| && n < VALUE_SIZE
    ensures var p := VALUE_SIZE * k + n;
      Upto(ws, p + 1) == Upto(ws, p) + if Bit(ws[k], n) then [p] else []
  {
    var p := VALUE_SIZE * k + n;
    assert p / VALUE_SIZE == k && p % VALUE_SIZE == n;
  }

  // The positions of word k, scanned bit by bit while below the size.
  method WordAsc(b: Bitmap, k: nat, start: nat) returns (found: seq<nat>)
    requires k < b.data.Length && start == VALUE_SIZE * k < b.size
    ensures Upto(b.data[..], start) + found ==
      Upto(b.data[..], if start + VALUE_SIZE < b.size then start + VALUE_SIZE else b.size)
  {
    hide Upto, Bit;
    found := [];
    var n: nat, curPos: nat := 0, start;
    while n < VALUE_SIZE && curPos < b.size
      invariant 0 <= n <= VALUE_SIZE && curPos == start + n <= b.size
      invariant Upto(b.data[..], start) + found == Upto(b.data[..], curPos)
    {
      UptoStep(b.data[..], k, n);
      if Bit(b.data[k], n) {
        JoinAssoc(Upto(b.data[..], start), found, [curPos]);
        found := found + [curPos];
      }
      n, curPos := n + 1, curPos + 1;
    }
  }

  method Foreach(b: Bitmap, cb: nat -> bool) returns (seen: seq<nat>)
    requires b.Valid() && !b.compressed
    ensures seen == TakeUntil(Upto(b.data[..], b.size), cb)
  {
    hide BitAt, TakeUntil, Upto;
    ghost var ws := b.data[..];
    seen := [];
    var stop := false;
    var i, curPos: nat := 0, 0;
    ReportedStart(ws, b.size, cb);
    while i < b.size / U64_VALUE_SIZE
      invariant 0 <= i <= b.size / U64_VALUE_SIZE && curPos == U64_VALUE_SIZE * i
      invariant Reported(ws, b.size, cb, seen, curPos)
    {
      var k := U64_DIV_BASE * i;
      if b.data[k] == 0 && b.data[k + 1] == 0 && b.data[k + 2] == 0 && b.data[k + 3] == 0 {
        ClearWords(ws, k, k + 4);
        ReportedSkip(ws, b.size, cb, seen, curPos, curPos + U64_VALUE_SIZE);
        curPos := curPos + U64_VALUE_SIZE;
      } else {
        for x := 0 to U64_DIV_BASE
          invariant curPos == VALUE_SIZE * (k + x)
          invariant Reported(ws, b.size, cb, seen, curPos)
        {
          seen, stop, curPos := VisitAsc(b, k + x, curPos, cb, seen);
          if stop { return; }
        }
      }
      i := i + 1;
    }
    seen := ForeachRest(b, cb, seen, U64_DIV_BASE * (b.size / U64_VALUE_SIZE), curPos);
  }

  lemma ReportedStart(ws: seq<Word>, size: nat, cb: nat -> bool)
    ensures Reported(ws, size, cb, [], 0)
  {
  }

  // The words after the last whole 56-bit block.
  method ForeachRest(b: Bitmap, cb: nat -> bool, before: seq<nat>, first: nat, start: nat) returns (seen: seq<nat>)
    requires b.Valid() && !b.compressed && first <= b.data.Length && start == VALUE_SIZE * first
    requires Reported(b.data[..], b.size, cb, before, VALUE_SIZE * first)
    ensures seen == TakeUntil(Upto(b.data[..], b.size), cb)
  {
    hide BitAt, TakeUntil, Upto, Reported;
    ghost var ws := b.data[..];
    seen := before;
    var j, curPos, stop := first, start, false;
    while j < b.data.Length
      invariant j <= b.data.Length && (j < b.data.Length ==> curPos == VALUE_SIZE * j)
      invariant Reported(ws, b.size, cb, seen, VALUE_SIZE * j)
    {
      if b.data[j] == 0 {
        ClearWords(ws, j, j + 1);
        ReportedSkip(ws, b.size, cb, seen, VALUE_SIZE * j, VALUE_SIZE * (j + 1));
        curPos := curPos + VALUE_SIZE;
      } else {
        seen, stop, curPos := VisitAsc(b, j, curPos, cb, seen);
        if stop { return; }
      }
      j := j + 1;
    }
    ReportedEnd(ws, b.size, cb, seen, VALUE_SIZE * j);
  }

  // All positions below n, or below the size if that is less, have been reported.
  ghost predicate Reported(ws: seq<Word>, size: nat, cb: nat -> bool, seen: seq<nat>, n: nat)
  {
    seen == Upto(ws, if n < size then n else size) && forall p :: p in seen ==> cb(p)
  }

  lemma ReportedSkip(ws: seq<Word>, size: nat, cb: nat -> bool, seen: seq<nat>, p: nat, q: nat)
    requires Reported(ws, size, cb, seen, p) && p <= q && forall i: nat :: p <= i < q ==> !BitAt(ws, i)
    ensures Reported(ws, size, cb, seen, q)
  {
    hide BitAt;
    UptoSkip(ws, if p < size then p else size, if q < size then q else size);
  }

  lemma ReportedEnd(ws: seq<Word>, size: nat, cb: nat -> bool, seen: seq<nat>, n: nat)
    requires Reported(ws, size, cb, seen, n) && n >= size
    ensures seen == TakeUntil(Upto(ws, size), cb)
  {
    TakeAll(seen, cb);
  }

  // The bits of word k, until the size.
  method VisitAsc(b: Bitmap, k: nat, start: nat, cb: nat -> bool, before: seq<nat>)
    returns (seen: seq<nat>, stop: bool, curPos: nat)
    requires k < b.data.Length && start == VALUE_SIZE * k
    requires Reported(b.data[..], b.size, cb, before, VALUE_SIZE * k)
    ensures stop ==> seen == TakeUntil(Upto(b.data[..], b.size), cb)
    ensures !stop ==> Reported(b.data[..], b.size, cb, seen, VALUE_SIZE * (k + 1))
    ensures !stop && start <= b.size ==> curPos == if start + VALUE_SIZE < b.size then start + VALUE_SIZE else b.size
  {
    hide Upto, Bit, BitAt, TakeUntil;
    ghost var ws := b.data[..];
    seen := before;
    var n: nat := 0;
    curPos := start;
    while n < VALUE_SIZE && curPos < b.size
      invariant 0 <= n <= VALUE_SIZE && curPos == start + n && (start <= b.size ==> curPos <= b.size)
      invariant Reported(ws, b.size, cb, seen, curPos)
    {
      UptoStep(ws, k, n);
      if Bit(b.data[k], n) {
        if !cb(curPos) {
          UptoPrefix(ws, curPos + 1, b.size);
          TakeStops(seen, curPos, Upto(ws, b.size), cb);
          return seen + [curPos], true, curPos;
        }
        seen := seen + [curPos];
      }
      n, curPos := n + 1, curPos + 1;
    }
    stop := false;
  }

  /* ---------- the descending scan ---------- */

  // Where the last word is partial, rforeach starts one bit too high: at the bit of position size.
  function Overrun(ws: seq<Word>, size: nat): seq<nat>
  {
    if size % VALUE_SIZE != 0 && BitAt(ws, size) then [size] else []
  }

  // Everything rforeach would report.
  function RList(ws: seq<Word>, size: nat): seq<nat> { Overrun(ws, size) + Down(ws, size) }

  // What has been reported once only the positions below n are left.
  ghost predicate Descending(ws: seq<Word>, size: nat, cb: nat -> bool, seen: seq<nat>, n: nat)
  {
    RList(ws, size) == seen + Down(ws, n) && forall p :: p in seen ==> cb(p)
  }

  lemma DescendingSkip(ws: seq<Word>, size: nat, cb: nat -> bool, seen: seq<nat>, p: nat, q: nat)
    requires Descending(ws, size, cb, seen, q) && p <= q && forall i: nat :: p <= i < q ==> !BitAt(ws, i)
    ensures Descending(ws, size, cb, seen, p)
  {
    hide BitAt;
    DownSkip(ws, p, q);
  }

  method Rforeach(b: Bitmap, cb: nat -> bool) returns (seen: seq<nat>)
    requires b.Valid() && !b.compressed
    ensures seen == TakeUntil(RList(b.data[..], b.size), cb)
  {
    hide BitAt, TakeUntil, RList, Descending, BlockStart, Bitmap.Valid;
    ghost var ws := b.data[..];
    seen := [];
    var stop := false;
    var maxSize := b.size / U64_VALUE_SIZE;
    Blocks(b.size);
    if b.size % U64_VALUE_SIZE != 0 {
      seen, stop := TailWords(b, cb);
      if stop { return; }
    } else {
      DescendingStart(ws, b.size, cb);
    }
    var i := maxSize - 1;
    while i >= 0
      invariant -1 <= i < maxSize
      invariant Descending(ws, b.size, cb, seen, BlockStart(i + 1))
    {
      seen, stop := VisitBlock(b, i, cb, seen);
      if stop { return; }
      i := i - 1;
    }
    DescendingEnd(ws, b.size, cb, seen);
  }

  // The position at which a 56-bit block starts.
  function BlockStart(i: nat): nat { U64_VALUE_SIZE * i }

  lemma Blocks(size: nat)
    ensures BlockStart(0) == 0
    ensures BlockStart(size / U64_VALUE_SIZE) + size % U64_VALUE_SIZE == size
    ensures size % U64_VALUE_SIZE == 0 ==> size % VALUE_SIZE == 0
  {
    assert size == U64_VALUE_SIZE * (size / U64_VALUE_SIZE) + size % U64_VALUE_SIZE;
  }

  lemma BlockInside(size: nat, i: nat)
    requires i < size / U64_VALUE_SIZE
    ensures U64_DIV_BASE * (i + 1) <= WordCount(size)
  {
  }

  lemma SkipBlock(ws: seq<Word>, size: nat, cb: nat -> bool, seen: seq<nat>, i: nat)
    requires U64_DIV_BASE * (i + 1) <= |ws|
    requires forall k :: U64_DIV_BASE * i <= k < U64_DIV_BASE * (i + 1) ==> ws[k] == 0
    requires Descending(ws, size, cb, seen, U64_VALUE_SIZE * (i + 1))
    ensures Descending(ws, size, cb, seen, U64_VALUE_SIZE * i)
  {
    hide Descending;
    ClearWords(ws, U64_DIV_BASE * i, U64_DIV_BASE * (i + 1));
    DescendingSkip(ws, size, cb, seen, U64_VALUE_SIZE * i, U64_VALUE_SIZE * (i + 1));
  }

  // A 56-bit block: skipped when zero, else its four words from the last.
  method VisitBlock(b: Bitmap, i: nat, cb: nat -> bool, before: seq<nat>) returns (seen: seq<nat>, stop: bool)
    requires b.Valid() && !b.compressed && i < b.size / U64_VALUE_SIZE
    requires Descending(b.data[..], b.size, cb, before, BlockStart(i + 1))
    ensures stop ==> seen == TakeUntil(RList(b.data[..], b.size), cb)
    ensures !stop ==> Descending(b.data[..], b.size, cb, seen, BlockStart(i))
  {
    hide Descending, TakeUntil, RList;
    BlockInside(b.size, i);
    seen, stop := before, false;
    var k := U64_DIV_BASE * i;
    if b.data[k] == 0 && b.data[k + 1] == 0 && b.data[k + 2] == 0 && b.data[k + 3] == 0 {
      SkipBlock(b.data[..], b.size, cb, seen, i);
      return;
    }
    for n := 0 to U64_DIV_BASE
      invariant Descending(b.data[..], b.size, cb, seen, U64_VALUE_SIZE * (i + 1) - VALUE_SIZE * n)
    {
      seen, stop := VisitDesc(b, (i + 1) * U64_DIV_BASE - 1 - n, cb, seen);
      if stop { return; }
    }
    stop := false;
  }

  // The words after the last whole 56-bit block, from the last.
  method TailWords(b: Bitmap, cb: nat -> bool) returns (seen: seq<nat>, stop: bool)
    requires b.Valid() && !b.compressed && b.size % U64_VALUE_SIZE != 0
    ensures stop ==> seen == TakeUntil(RList(b.data[..], b.size), cb)
    ensures !stop ==> Descending(b.data[..], b.size, cb, seen, BlockStart(b.size / U64_VALUE_SIZE))
  {
    hide BitAt, TakeUntil, RList, Descending;
    ghost var ws := b.data[..];
    var first := U64_DIV_BASE * (b.size / U64_VALUE_SIZE);
    var start := b.data.Length - 1;
    var i := start;
    seen, stop := LastWord(b, start, cb);
    if stop { return; }
    i := i - 1;
    while i >= first
      invariant first - 1 <= i < start
      invariant Descending(ws, b.size, cb, seen, VALUE_SIZE * (i + 1))
    {
      if b.data[i] == 0 {
        ClearWords(ws, i, i + 1);
        DescendingSkip(ws, b.size, cb, seen, VALUE_SIZE * i, VALUE_SIZE * (i + 1));
      } else {
        seen, stop := VisitDesc(b, i, cb, seen);
        if stop { return; }
      }
      i := i - 1;
    }
    stop := false;
  }

  lemma DescendingEnd(ws: seq<Word>, size: nat, cb: nat -> bool, seen: seq<nat>)
    requires Descending(ws, size, cb, seen, 0)
    ensures seen == TakeUntil(RList(ws, size), cb)
  {
    assert seen + Down(ws, 0) == seen;
    TakeAll(seen, cb);
  }

  // Nothing reported yet, and no overrun to report.
  lemma DescendingStart(ws: seq<Word>, size: nat, cb: nat -> bool)
    requires size % VALUE_SIZE == 0 || !BitAt(ws, size)
    ensures Descending(ws, size, cb, [], size)
  {
  }

  // The last word: skipped when zero, scanned from bit size % 14 (or 13 when it is full) down.
  method LastWord(b: Bitmap, start: nat, cb: nat -> bool) returns (seen: seq<nat>, stop: bool)
    requires b.Valid() && !b.compressed && b.size > 0 && start == b.data.Length - 1
    ensures stop ==> seen == TakeUntil(RList(b.data[..], b.size), cb)
    ensures !stop ==> Descending(b.data[..], b.size, cb, seen, VALUE_SIZE * start)
  {
    ghost var ws := b.data[..];
    seen, stop := [], false;
    if b.data[start] == 0 {
      ClearWords(ws, start, start + 1);
      DescendingStart(ws, b.size, cb);
      DescendingSkip(ws, b.size, cb, seen, VALUE_SIZE * start, b.size);
    } else if b.size % VALUE_SIZE == 0 {
      DescendingStart(ws, b.size, cb);
      seen, stop := VisitDesc(b, start, cb, seen);
    } else {
      var n := b.size % VALUE_SIZE;
      // cur_pos has been raised to m_size, the position of bit n
      assert b.size / VALUE_SIZE == start;
      if Bit(b.data[start], n) {
        seen := [b.size];
        if !cb(b.size) {
          TakeStops([], b.size, RList(ws, b.size), cb);
          return seen, true;
        }
      }
      seen, stop := DescendFrom(b, start, n, cb, seen);
    }
  }

  method VisitDesc(b: Bitmap, k: nat, cb: nat -> bool, before: seq<nat>) returns (seen: seq<nat>, stop: bool)
    requires k < b.data.Length
    requires Descending(b.data[..], b.size, cb, before, VALUE_SIZE * (k + 1))
    ensures stop ==> seen == TakeUntil(RList(b.data[..], b.size), cb)
    ensures !stop ==> Descending(b.data[..], b.size, cb, seen, VALUE_SIZE * k)
  {
    seen, stop := DescendFrom(b, k, VALUE_SIZE, cb, before);
  }

  // Bits count-1 .. 0 of word k.
  method DescendFrom(b: Bitmap, k: nat, count: nat, cb: nat -> bool, before: seq<nat>)
    returns (seen: seq<nat>, stop: bool)
    requires k < b.data.Length && count <= VALUE_SIZE
    requires Descending(b.data[..], b.size, cb, before, VALUE_SIZE * k + count)
    ensures stop ==> seen == TakeUntil(RList(b.data[..], b.size), cb)
    ensures !stop ==> Descending(b.data[..], b.size, cb, seen, VALUE_SIZE * k)
  {
    hide RList, Down, TakeUntil, Bit;
    ghost var ws := b.data[..];
    seen := before;
    var n := count;
    while n > 0
      invariant 0 <= n <= count
      invariant Descending(ws, b.size, cb, seen, VALUE_SIZE * k + n)
    {
      var curPos: nat := VALUE_SIZE * k + n - 1;
      DownStep(ws, k, n - 1);
      if Bit(b.data[k], n - 1) {
        JoinAssoc(seen, [curPos], Down(ws, curPos));
        if !cb(curPos) {
          TakeStops(seen, curPos, RList(ws, b.size), cb);
          return seen + [curPos], true;
        }
        seen := seen + [curPos];
      }
      n := n - 1;
    }
    stop := false;
  }

  lemma DownStep(ws: seq<Word>, k: nat, n: nat)
    requires k < |ws| && n < VALUE_SIZE
    ensures var p := VALUE_SIZE * k + n;
      Down(ws, p + 1) == (if Bit(ws[k], n) then [p] else []) + Down(ws, p)
  {
    var p := VALUE_SIZE * k + n;
    assert p / VALUE_SIZE == k && p % VALUE_SIZE == n;
  }

  // rforeach gives the reverse of foreach exactly when it does not overrun into bit m_size.
  lemma RforeachReversesExactly(ws: seq<Word>, size: nat)
    ensures RList(ws, size) == Reverse(Upto(ws, size)) <==> size % VALUE_SIZE == 0 || !BitAt(ws, size)
  {
    DownIsReverse(ws, size);
    assert |RList(ws, size)| == |Overrun(ws, size)| + |Down(ws, size)|;
  }

  // What rforeach reports: the set positions below the size, and the one at the size itself when
  // the last word is partial, in descending order.
  lemma RListExactly(ws: seq<Word>, size: nat)
    ensures forall i, j :: 0 <= i < j < |RList(ws, size)| ==> RList(ws, size)[i] > RList(ws, size)[j]
    ensures forall p: nat :: p in RList(ws, size) <==> BitAt(ws, p) && (p < size || (p == size && size % 14 != 0))
  {
    hide BitAt;
    DownMeaning(ws, size);
    var over, down := Overrun(ws, size), Down(ws, size);
    forall i, j | 0 <= i < j < |RList(ws, size)| ensures RList(ws, size)[i] > RList(ws, size)[j] {
      if i < |over| { assert RList(ws, size)[j] in down; }
    }
  }

  lemma {:induction false} DownMeaning(ws: seq<Word>, n: nat)
    ensures forall i, j :: 0 <= i < j < |Down(ws, n)| ==> Down(ws, n)[i] > Down(ws, n)[j]
    ensures forall p: nat :: p in Down(ws, n) <==> p < n && BitAt(ws, p)
  {
    hide BitAt;
    if n > 0 {
      DownMeaning(ws, n - 1);
      var rest, all := Down(ws, n - 1), Down(ws, n);
      if BitAt(ws, n - 1) {
        forall i, j | 0 <= i < j < |all| ensures all[i] > all[j] {
          assert all[j] == rest[j - 1] && rest[j - 1] in rest;
        }
      }
    }
  }

  /* ---------- iterators ---------- */

  const I32: int := 0x8000_0000

  // Storing a 32-bit number in an int32_t
  function Int32(n: nat): int
    requires n < U32
  {
    if n < I32 then n else n - U32
  }

  // The number of that residue in the range of an int32_t.
  lemma Int32Exactly(n: nat)
    requires n < U32
    ensures -0x8000_0000 <= Int32(n) < 0x8000_0000 && (n - Int32(n)) % 0x1_0000_0000 == 0
  {
  }

  // The fields are signed: a size of I32 or more is negative here.
  class Iterator {
    var pos: int
    const size: int
    const data: array<Word>

    // The position is the least set one at or after `from`, or outside the size if there is none.
    ghost predicate AtNext(from: nat)
      reads this, data
    {
      && (InRange() ==> pos >= from && BitAt(data[..], pos))
      && (forall p: nat :: from <= p < size && (InRange() ==> p < pos) ==> !BitAt(data[..], p))
    }

    constructor (b: Bitmap)
      requires b.Valid() && !b.compressed
      ensures data == b.data && size == Int32(b.size) && AtNext(0)
    {
      pos := -1;
      size := Int32(b.size);
      data := b.data;
      new;
      Next();
    }

    // operator!
    predicate InRange()
      reads this
    {
      0 <= pos < size
    }

    method Next()
      requires pos == -1 || InRange()
      requires 0 <= size < I32 ==> data.Length == WordCount(size)
      requires size < I32
      modifies this`pos
      ensures AtNext(old(pos) + 1)
    {
      pos := pos + 1;
      if pos < size {
        ghost var from: nat := pos;
        var found := SkipPartial();
        if !found { SkipWords(from); }
      }
    }

    // The rest of a word entered in the middle.
    method SkipPartial() returns (found: bool)
      requires 0 <= pos < size && data.Length == WordCount(size)
      modifies this`pos
      ensures old(pos) <= pos <= size
      ensures forall p: nat :: old(pos) <= p < pos ==> !BitAt(data[..], p)
      ensures found ==> pos < size && BitAt(data[..], pos)
      ensures !found ==> pos == size || pos % VALUE_SIZE == 0
    {
      var left := pos % VALUE_SIZE;
      found := false;
      if left != 0 {
        var k := pos / VALUE_SIZE;
        var w, i := data[k], left;
        while i < VALUE_SIZE && pos < size
          invariant left <= i <= VALUE_SIZE && pos == VALUE_SIZE * k + i <= size
          invariant forall p: nat :: old(pos) <= p < pos ==> !BitAt(data[..], p)
        {
          assert pos / VALUE_SIZE == k && pos % VALUE_SIZE == i;
          if Bit(w, i) { return true; }
          i := i + 1;
          pos := pos + 1;
        }
      }
    }

    // Whole words from here on; a zero word is stepped over in one addition, which for the very
    // last sizes ends beyond the largest int32_t and turns negative.
    method SkipWords(ghost from: nat)
      requires from <= pos <= size < I32 && data.Length == WordCount(size)
      requires pos == size || pos % VALUE_SIZE == 0
      requires forall p: nat :: from <= p < pos ==> !BitAt(data[..], p)
      modifies this`pos
      ensures AtNext(from)
    {
      hide BitAt;
      var k: nat := pos / VALUE_SIZE;
      ghost var at: nat := pos;
      while k < data.Length && pos < size
        invariant from <= at < U32 && k <= data.Length && pos == Int32(at)
        invariant at == VALUE_SIZE * k || at == size
        invariant forall p: nat :: from <= p < at && p < size ==> !BitAt(data[..], p)
        decreases data.Length - k
      {
        var w := data[k];
        if w == 0 {
          ClearWords(data[..], k, k + 1);
          at := at + VALUE_SIZE;
          pos := Int32(pos + VALUE_SIZE);
        } else {
          var found := SkipWord(k);
          if found { return; }
          at := pos;
        }
        k := k + 1;
      }
    }

    method SkipWord(k: nat) returns (found: bool)
      requires pos == VALUE_SIZE * k < size && data.Length == WordCount(size)
      modifies this`pos
      ensures old(pos) <= pos <= size
      ensures forall p: nat :: old(pos) <= p < pos ==> !BitAt(data[..], p)
      ensures found ==> pos < size && BitAt(data[..], pos)
      ensures !found ==> pos == size || pos == VALUE_SIZE * (k + 1)
    {
      var w, n := data[k], 0;
      while n < VALUE_SIZE && pos < size
        invariant 0 <= n <= VALUE_SIZE && pos == VALUE_SIZE * k + n <= size
        invariant forall p: nat :: old(pos) <= p < pos ==> !BitAt(data[..], p)
      {
        assert pos / VALUE_SIZE == k && pos % VALUE_SIZE == n;
        if Bit(w, n) { return true; }
        n := n + 1;
        pos := pos + 1;
      }
      found := false;
    }
  }

  class ReverseIterator {
    var pos: int
    const size: int
    const data: array<Word>

    // The position is the greatest set one below `limit`, or -1 if there is none.
    ghost predicate AtPrevious(limit: nat)
      reads this, data
    {
      && -1 <= pos < limit
      && (forall p: nat :: pos < p < limit ==> !BitAt(data[..], p))
      && (pos >= 0 ==> BitAt(data[..], pos))
    }

    constructor (b: Bitmap)
      requires b.Valid() && !b.compressed
      ensures data == b.data && size == Int32(b.size)
      ensures if size < 0 then pos == -1 else AtPrevious(size)
    {
      pos := Int32(b.size);
      size := Int32(b.size);
      data := b.data;
      new;
      Next();
    }

    predicate InRange()
      reads this
    {
      0 <= pos < size
    }

    method Next()
      requires pos <= size < I32 && (size >= 0 ==> data.Length == WordCount(size))
      modifies this`pos
      ensures if old(pos) < 0 then pos == -1 else AtPrevious(old(pos))
    {
      if pos <= 0 {
        pos := -1;
        return;
      }
      ghost var limit: nat := pos;
      pos := pos - 1;
      var left := pos % VALUE_SIZE;
      var k := pos / VALUE_SIZE;
      if left != VALUE_SIZE - 1 {
        var found := ScanDown(k, left, limit);
        if found { return; }
        k := k - 1;
      }
      while k >= 0 && pos >= 0
        invariant -1 <= k < data.Length && pos == VALUE_SIZE * (k + 1) - 1 < limit
        invariant forall p: nat :: pos < p < limit ==> !BitAt(data[..], p)
        decreases k
      {
        if data[k] == 0 {
          ClearWords(data[..], k, k + 1);
          pos := pos - VALUE_SIZE;
        } else {
          var found := ScanDown(k, VALUE_SIZE - 1, limit);
          if found { return; }
        }
        k := k - 1;
      }
    }

    // The bits of word k from bit `top` down.
    method ScanDown(k: nat, top: nat, ghost limit: nat) returns (found: bool)
      requires k < data.Length && top < VALUE_SIZE && pos == VALUE_SIZE * k + top < limit
      requires forall p: nat :: pos < p < limit ==> !BitAt(data[..], p)
      modifies this`pos
      ensures found ==> AtPrevious(limit)
      ensures !found ==> pos == VALUE_SIZE * k - 1 && forall p: nat :: pos < p < limit ==> !BitAt(data[..], p)
    {
      var w, n := data[k], top as int;
      while n >= 0 && pos >= 0
        invariant -1 <= n <= top && pos == VALUE_SIZE * k + n < limit
        invariant forall p: nat :: pos < p < limit ==> !BitAt(data[..], p)
      {
        assert pos / VALUE_SIZE == k && pos % VALUE_SIZE == n;
        if Bit(w, n) { return true; }
        n := n - 1;
        pos := pos - 1;
      }
      found := false;
    }
  }

  // What a walk with either iterator visits: nothing at all from 2^31 bits on.
  function Walk(ws: seq<Word>, size: nat): seq<nat> { if size < I32 then Upto(ws, size) else [] }

  // Both walks agree with listPosAsc and foreach exactly when the size fits an int32_t or there is
  // nothing to visit.
  lemma WalkAgreesExactly(ws: seq<Word>, size: nat)
    ensures Walk(ws, size) == Upto(ws, size) <==> size < I32 || forall p: nat :: p < size ==> !BitAt(ws, p)
    ensures Reverse(Walk(ws, size)) == Reverse(Upto(ws, size)) <==> Walk(ws, size) == Upto(ws, size)
  {
    hide BitAt;
    UptoMeaning(ws, size);
    if Upto(ws, size) != [] { assert Upto(ws, size)[0] in Upto(ws, size); }
  }

  // The smallest such bitmap with its first bit set is not visited at all.
  lemma LargeWalkMisses()
    ensures exists ws: seq<Word>, size: nat ::
      |ws| == WordCount(size) && VALUE_SIZE * |ws| < U32 && Walk(ws, size) == [] && 0 in Upto(ws, size)
  {
    var size: nat := I32;
    var ws: seq<Word> := seq(WordCount(size), i => if i == 0 then 1 else 0);
    assert BitAt(ws, 0);
    UptoMeaning(ws, size);
    assert Walk(ws, size) == [];
  }

  // for (it = b.begin(); !it; it.next()): the same list as listPosAsc where that can be.
  method Iterate(b: Bitmap) returns (list: seq<nat>)
    requires b.Valid() && !b.compressed
    ensures list == Walk(b.data[..], b.size)
  {
    hide BitAt;
    ghost var ws := b.data[..];
    list := [];
    ghost var done: nat := 0;
    var it := new Iterator(b);
    while it.InRange()
      invariant it.data == b.data && it.size == Int32(b.size) && it.AtNext(done)
      invariant it.size >= 0 ==> done <= b.size && list == Upto(ws, done)
      invariant it.size < 0 ==> list == []
      invariant b.data[..] == ws && fresh(it)
      decreases b.size - done
    {
      UptoSkip(ws, done, it.pos);
      list := list + [it.pos];
      done := it.pos + 1;
      it.Next();
    }
    if it.size >= 0 { UptoSkip(ws, done, b.size); }
  }

  // The same with rbegin(): the reverse list, whatever the bits at or above m_size are.
  method IterateReverse(b: Bitmap) returns (list: seq<nat>)
    requires b.Valid() && !b.compressed
    ensures list == Reverse(Walk(b.data[..], b.size))
  {
    hide BitAt, Reverse;
    ghost var ws := b.data[..];
    list := [];
    ghost var left: nat := b.size;
    var it := new ReverseIterator(b);
    while it.InRange()
      invariant it.data == b.data && it.size == Int32(b.size)
      invariant if it.size < 0 then it.pos == -1 && list == [] else it.AtPrevious(left)
      invariant it.size >= 0 ==> left <= b.size && list + Down(ws, left) == Down(ws, b.size)
      invariant b.data[..] == ws && fresh(it)
      decreases left
    {
      DownSkip(ws, it.pos + 1, left);
      JoinAssoc(list, [it.pos], Down(ws, it.pos));
      list := list + [it.pos];
      left := it.pos;
      it.Next();
    }
    if it.size >= 0 {
      DownSkip(ws, 0, left);
      DownIsReverse(ws, b.size);
    } else {
      ReverseNothing();
    }
  }

  lemma ReverseNothing()
    ensures Reverse([]) == []
  {
  }
}
