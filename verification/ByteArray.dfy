/** The chunked byte buffer: a linked list of equally sized nodes with one cursor, which
    behaves like one flat byte sequence. */
module ByteArrays {
  import opened Chunks

  // read() throws when there is not enough to read; a read at the very end of the
  // allocated memory dereferences a null m_cur, and only a zero-length read gets there.
  datatype ReadResult = Bytes(bytes: seq<Byte>) | OutOfRange | NullCursor

  // struct iovec: a stretch of one node's memory.
  datatype IoVec = IoVec(buf: array<Byte>, off: nat, len: nat)

  class Node {
    const buf: array<Byte>
    var next: Node?

    constructor (s: nat)
      ensures fresh(buf) && buf.Length == s && next == null
    {
      buf := new Byte[s];
      next := null;
    }

    // memcpy into the node
    method Store(at: nat, bytes: seq<Byte>)
      requires at + |bytes| <= buf.Length
      modifies buf
      ensures buf[..] == old(buf[..at]) + bytes + old(buf[at + |bytes|..])
    {
      forall k | 0 <= k < |bytes| { buf[at + k] := bytes[k]; }
    }
  }

  function Arrays(ns: seq<Node>): set<array<Byte>> { set n | n in ns :: n.buf }

  ghost predicate InBounds(vs: seq<IoVec>) { forall v :: v in vs ==> v.off + v.len <= v.buf.Length }

  // The bytes an iovec list refers to.
  ghost function Gather(vs: seq<IoVec>): seq<Byte>
    requires InBounds(vs)
    reads set v | v in vs :: v.buf
  {
    if vs == [] then [] else vs[0].buf[vs[0].off..vs[0].off + vs[0].len] + Gather(vs[1..])
  }

  // What a client can observe: all memory, the cursor, the end of the data, the byte order.
  datatype Snapshot = Snapshot(mem: seq<Byte>, pos: nat, size: nat, little: bool) {
    ghost predicate Ok() { pos <= size <= |mem| }
  }

  // s is s0 after `bytes` have been written at the cursor.
  ghost predicate Wrote(s: Snapshot, s0: Snapshot, bytes: seq<Byte>)
  {
    && Overwrites(s.mem, s0.mem, s0.pos, bytes)
    && s.pos == s0.pos + |bytes| && s.little == s0.little
    && s.size == if s0.size < s.pos then s.pos else s0.size
  }

  // s is s0 after n bytes have been read.
  ghost predicate Took(s: Snapshot, s0: Snapshot, n: nat) { s == s0.(pos := s0.pos + n) }

  function ReadOutcome(s: Snapshot, n: nat): (r: ReadResult)
    requires s.pos <= s.size <= |s.mem|
    ensures r.Bytes? ==> |r.bytes| == n
  {
    if n > s.size - s.pos then OutOfRange
    else if s.pos == |s.mem| then NullCursor
    else Bytes(s.mem[s.pos..s.pos + n])
  }

  lemma WroteIs(s: Snapshot, s0: Snapshot, bytes: seq<Byte>)
    requires Overwrites(s.mem, s0.mem, s0.pos, bytes) && s.pos == s0.pos + |bytes| && s.little == s0.little
    requires s.size == if s0.size < s.pos then s.pos else s0.size
    ensures Wrote(s, s0, bytes)
  {
  }

  lemma WroteMore(s: Snapshot, s1: Snapshot, s0: Snapshot, a: seq<Byte>, b: seq<Byte>)
    requires Wrote(s1, s0, a) && Wrote(s, s1, b)
    ensures Wrote(s, s0, a + b)
  {
    assert (a + b)[..|a|] == a && (a + b)[|a|..|a| + |b|] == b && (a + b)[..|a| + |b|] == a + b;
    OverwriteMore(s.mem, s1.mem, s0.mem, s0.pos, a + b, |a|, |b|);
  }

  // Seen from where the writing began, what was written is next.
  lemma WroteReadable(s: Snapshot, s0: Snapshot, bytes: seq<Byte>)
    requires Wrote(s, s0, bytes) && s.Ok() && s0.Ok()
    ensures s0.pos + |bytes| <= s.size <= |s.mem|
    ensures s.mem[s0.pos..s0.pos + |bytes|] == bytes && s.mem[s0.pos..s.size][..|bytes|] == bytes
  {
    OverwriteRead(s.mem, s0.mem, s0.pos, bytes);
    SubSlice(s.mem, s0.pos, s.size - s0.pos, 0, |bytes|);
  }

  class ByteArray {
    const baseSize: nat
    var position: nat
    var capacity: nat
    var size: nat
    var littleEndian: bool
    var root: Node
    var cur: Node?
    ghost var nodes: seq<Node>
    ghost var curIndex: nat
    ghost var mem: seq<Byte>
    ghost var Repr: set<object>

    // The node list: linked in order, of equal sizes, and nothing shared.
    ghost predicate Linked()
      reads `nodes, `root, `capacity, nodes
    {
      && baseSize > 0
      && |nodes| > 0 && nodes[0] == root
      && (forall i :: 0 <= i < |nodes| ==> nodes[i].buf.Length == baseSize)
      && (forall i, j :: 0 <= i < j < |nodes| ==> nodes[i].buf != nodes[j].buf)
      && (forall i {:trigger nodes[i].next} :: 0 <= i < |nodes| ==> nodes[i].next == NodeAt(i + 1))
      && capacity == Off(baseSize, |nodes|)
    }

    ghost function NodeAt(i: nat): Node?
      reads `nodes
    {
      if i < |nodes| then nodes[i] else null
    }

    // m_cur is the node that holds m_position, and null exactly at the end of the memory.
    ghost predicate CursorAt(p: nat)
      reads `curIndex, `cur, `nodes
    {
      && curIndex <= |nodes| && cur == NodeAt(curIndex)
      && Off(baseSize, curIndex) <= p < Off(baseSize, curIndex) + baseSize
    }

    ghost predicate Owned()
      reads `nodes, `Repr
    {
      this in Repr && forall n :: n in nodes ==> n in Repr && n.buf in Repr
    }

    ghost predicate Valid()
      reads this, Repr
      ensures Valid() ==> this in Repr
    {
      Owned() && Linked() && Synced() && position <= size <= capacity && CursorAt(position)
    }

    // mem is all the allocated memory as one sequence.
    ghost predicate Synced()
      reads `mem, `nodes, `capacity, Arrays(nodes)
    {
      && |mem| == capacity == Off(baseSize, |nodes|)
      && forall i :: 0 <= i < |nodes| ==>
        Off(baseSize, i) + baseSize <= |mem| && Chunk(mem, baseSize, i) == nodes[i].buf[..]
    }

    ghost function State(): (s: Snapshot)
      requires Valid()
      reads this, Repr
      ensures s.Ok() && |s.mem| == capacity
    {
      Snapshot(mem, position, size, littleEndian)
    }

    // The cursor invariant in the source's own terms.
    lemma CursorMeaning()
      requires Valid()
      ensures curIndex == position / baseSize
      ensures cur == null <==> position == capacity
    {
      ChunkOf(baseSize, curIndex, position);
      if curIndex < |nodes| { OffMono(baseSize, curIndex, |nodes|); }
    }

    constructor (baseSize: nat)
      requires baseSize > 0
      ensures Valid() && fresh(Repr)
      ensures position == 0 && size == 0 && capacity == baseSize && !littleEndian
      ensures this.baseSize == baseSize
    {
      this.baseSize := baseSize;
      position, capacity, size, littleEndian := 0, baseSize, 0, false;
      var n := new Node(baseSize);
      root, cur := n, n;
      nodes, curIndex := [n], 0;
      mem := n.buf[..];
      Repr := {this, n, n.buf};
      new;
      OffStep(baseSize, 0);
      assert Chunk(mem, baseSize, 0) == n.buf[..];
    }

    /* ---------- growing ---------- */

    // The capacity once addCapacity(n) has run.
    function GrownCapacity(n: nat): nat
      requires baseSize > 0
      reads this
    {
      if position + n <= capacity then capacity
      else capacity + Off(baseSize, CeilDiv(position + n - capacity, baseSize))
    }

    method AddCapacity(n: nat)
      requires Valid()
      modifies this`capacity, this`nodes, this`mem, this`Repr, this`cur, nodes
      ensures Valid() && fresh(Repr - old(Repr)) && old(Repr) <= Repr
      ensures capacity == old(GrownCapacity(n)) && position + n <= capacity
      ensures capacity > old(capacity) ==> capacity - baseSize < position + n
      ensures Extends(mem, old(mem)) && old(position) <= |old(mem)|
    {
      hide Off, Chunk, Extends;
      ExtendsTwice(mem, mem, mem);
      if n == 0 { return; }
      var oldCap := capacity - position;
      if oldCap >= n { return; }
      var count := CeilDiv(n - oldCap, baseSize);
      CeilDivBounds(n - oldCap, baseSize);
      ghost var start := |nodes|;
      var first := AppendNodes(count);
      CursorStart(start, oldCap);
      if oldCap == 0 { cur := first; }
    }

    // Adds count nodes behind the last one; the first of them is returned.
    method AppendNodes(count: nat) returns (first: Node?)
      requires Linked() && Owned() && Synced() && count > 0
      modifies this`capacity, this`nodes, this`mem, this`Repr, nodes
      ensures Linked() && Owned() && Synced() && fresh(Repr - old(Repr)) && old(Repr) <= Repr
      ensures |nodes| == |old(nodes)| + count && old(nodes) <= nodes
      ensures first == nodes[|old(nodes)|]
      ensures capacity == old(capacity) + Off(baseSize, count)
      ensures Extends(mem, old(mem))
    {
      hide Off, Chunk;
      var tail := LastNode();
      first := null;
      ghost var ns, cap, was := nodes, capacity, mem;
      ghost var start := |ns|;
      OffStep(baseSize, 0);
      assert start > 0;
      hide Linked, Synced, Extends, Owned;
      ExtendsTwice(mem, mem, mem);
      for i := 0 to count
        invariant Linked() && Owned() && Synced() && fresh(Repr - old(Repr)) && old(Repr) <= Repr
        invariant ns <= nodes && |nodes| == start + i && tail == nodes[start + i - 1]
        invariant if i == 0 then first == null && tail == ns[start - 1] else fresh(tail) && first == nodes[start]
        invariant capacity == cap + Off(baseSize, i)
        invariant Extends(mem, was)
      {
        ghost var before := mem;
        tail := Append(tail);
        if first == null { first := tail; }
        OffStep(baseSize, i);
        ExtendsTwice(mem, before, was);
      }
    }

    // Nothing after the cursor means the cursor is past the last old node.
    lemma CursorStart(start: nat, oldCap: nat)
      requires baseSize > 0 && curIndex <= start
      requires Off(baseSize, curIndex) <= position < Off(baseSize, curIndex) + baseSize
      requires Off(baseSize, start) == position + oldCap
      ensures oldCap == 0 <==> curIndex == start
    {
      if curIndex < start { OffMono(baseSize, curIndex, start); }
    }

    method LastNode() returns (tail: Node)
      requires Linked()
      ensures tail == nodes[|nodes| - 1]
    {
      tail := root;
      ghost var i := 0;
      while tail.next != null
        invariant 0 <= i < |nodes| && tail == nodes[i]
        decreases |nodes| - i
      {
        tail := tail.next;
        i := i + 1;
      }
    }

    // tmp->next = new Node(m_baseSize)
    method Append(tail: Node) returns (n: Node)
      requires Linked() && Owned() && Synced() && tail == nodes[|nodes| - 1]
      modifies this`capacity, this`nodes, this`mem, this`Repr, tail`next
      ensures Linked() && Owned() && Synced() && Repr == old(Repr) + {n, n.buf} && fresh(n) && fresh(n.buf)
      ensures nodes == old(nodes) + [n] && capacity == old(capacity) + baseSize
      ensures Extends(mem, old(mem))
    {
      hide Off, Chunk;
      n := new Node(baseSize);
      tail.next := n;
      capacity := capacity + baseSize;
      ChunkExtended(mem, n.buf[..], baseSize, |nodes|);
      mem := mem + n.buf[..];
      nodes := nodes + [n];
      Repr := Repr + {n, n.buf};
    }

    /* ---------- writing ---------- */

    // One memcpy into the current node.
    method StoreHere(npos: nat, bytes: seq<Byte>)
      requires Linked() && Synced() && curIndex < |nodes| && cur == nodes[curIndex]
      requires npos + |bytes| <= baseSize
      modifies cur.buf, this`mem
      ensures Synced() && Overwrites(mem, old(mem), Off(baseSize, curIndex) + npos, bytes)
    {
      hide Off, Chunk, Overwrites, Splice;
      SpliceChunk(mem, baseSize, |nodes|, curIndex, npos, bytes);
      cur.Store(npos, bytes);
      mem := Splice(mem, Off(baseSize, curIndex) + npos, bytes);
    }

    method Write(buf: seq<Byte>)
      requires Valid()
      modifies Repr
      ensures Valid() && fresh(Repr - old(Repr)) && Wrote(State(), old(State()), buf)
      ensures capacity == old(GrownCapacity(|buf|))
      ensures forall i :: 0 <= i < |buf| ==> mem[old(position) + i] == buf[i]
      ensures forall i :: 0 <= i < |old(mem)| && !(old(position) <= i < old(position) + |buf|) ==> mem[i] == old(mem)[i]
    {
      hide Off, Chunk, Linked, Extends;
      if |buf| == 0 {
        assert buf == [];
        OverwriteNothing(mem, position);
      } else {
        WriteSome(buf);
      }
    }

    method WriteSome(buf: seq<Byte>)
      requires Valid() && buf != []
      modifies Repr
      ensures Valid() && fresh(Repr - old(Repr)) && Wrote(State(), old(State()), buf)
      ensures capacity == old(GrownCapacity(|buf|))
    {
      hide Off, Chunk, Linked, Overwrites, Extends, Synced;
      AddCapacity(|buf|);
      ghost var grown := mem;
      WriteChunks(buf);
      OverwriteGrown(mem, grown, old(mem), old(position), buf);
      if position > size { size := position; }
    }

    // The copy loop of write().
    method WriteChunks(buf: seq<Byte>)
      requires Linked() && Synced() && CursorAt(position) && position + |buf| <= capacity && buf != []
      modifies this`position, this`mem, this`cur, this`curIndex, Arrays(nodes)
      ensures Synced() && CursorAt(position) && position == old(position) + |buf|
      ensures Overwrites(mem, old(mem), old(position), buf)
    {
      hide Off, Chunk, Overwrites, Linked;
      OverwriteNothing(mem, position);
      hide Synced;
      CursorInside(position, |buf|);
      ChunkOf(baseSize, curIndex, position);
      var npos: nat := position % baseSize;
      var ncap: nat := baseSize - npos;
      var left: nat := |buf|;
      var bpos: nat := 0;
      assert buf[..0] == [];
      while left > 0
        invariant bpos + left == |buf| && position == old(position) + bpos
        invariant Synced() && CursorAt(position)
        invariant left > 0 ==> curIndex < |nodes| && npos == position - Off(baseSize, curIndex) && ncap == baseSize - npos
        invariant Overwrites(mem, old(mem), old(position), buf[..bpos])
      {
        ghost var before := mem;
        // all that is left, or all that fits into this node
        var n := if ncap >= left then left else ncap;
        CopyHere(npos, buf[bpos..bpos + n]);
        OverwriteMore(mem, before, old(mem), old(position), buf, bpos, n);
        bpos := bpos + n;
        left := left - n;
        if left > 0 {
          CursorInside(position, left);
          ncap := baseSize;
          npos := 0;
        }
      }
      assert buf[..bpos] == buf;
    }

    // Copies into the current node, and goes on to the next one when this one is used up.
    method CopyHere(npos: nat, bytes: seq<Byte>)
      requires Linked() && Synced() && CursorAt(position) && curIndex < |nodes|
      requires npos == position - Off(baseSize, curIndex) && npos + |bytes| <= baseSize
      modifies cur.buf, this`mem, this`position, this`cur, this`curIndex
      ensures Synced() && Overwrites(mem, old(mem), old(position), bytes)
      ensures position == old(position) + |bytes| && CursorAt(position)
      ensures npos + |bytes| == baseSize ==> position == Off(baseSize, curIndex)
    {
      hide Off, Chunk, Overwrites;
      StoreHere(npos, bytes);
      OffStep(baseSize, curIndex);
      position := position + |bytes|;
      if baseSize == npos + |bytes| { Advance(); }
    }

    // m_cur = m_cur->next
    method Advance()
      requires Linked() && curIndex < |nodes| && cur == nodes[curIndex]
      modifies this`cur, this`curIndex
      ensures curIndex == old(curIndex) + 1 && cur == NodeAt(curIndex)
    {
      cur := cur.next;
      curIndex := curIndex + 1;
    }

    lemma CursorInside(p: nat, n: nat)
      requires Linked() && CursorAt(p) && n > 0 && p + n <= capacity
      ensures curIndex < |nodes|
    {
    }

    /* ---------- reading ---------- */

    method Read(n: nat) returns (r: ReadResult)
      requires Valid()
      modifies `position, `cur, `curIndex
      ensures Valid()
      ensures r == ReadOutcome(old(State()), n)
      ensures r.OutOfRange? <==> n > size - old(position)
      ensures r.NullCursor? <==> n == 0 && old(position) == capacity
      ensures r.Bytes? ==> |r.bytes| == n && forall i :: 0 <= i < n ==> r.bytes[i] == mem[old(position) + i]
      ensures Took(State(), old(State()), if r.Bytes? then n else 0)
    {
      hide Off, Chunk;
      if n > size - position { return OutOfRange; }
      CursorMeaning();
      if cur == null { return NullCursor; }
      var bytes := ReadChunks(n);
      r := Bytes(bytes);
    }

    // The copy loop of read().
    method ReadChunks(n: nat) returns (bytes: seq<Byte>)
      requires Linked() && Synced() && CursorAt(position) && curIndex < |nodes| && position + n <= capacity
      modifies `position, `cur, `curIndex
      ensures CursorAt(position) && position == old(position) + n
      ensures bytes == mem[old(position)..old(position) + n]
    {
      hide Off, Chunk;
      ChunkOf(baseSize, curIndex, position);
      var npos: nat := position % baseSize;
      var ncap: nat := baseSize - npos;
      var left: nat := n;
      bytes := [];
      while left > 0
        invariant |bytes| + left == n && position == old(position) + |bytes| && CursorAt(position)
        invariant left > 0 ==> curIndex < |nodes| && npos == position - Off(baseSize, curIndex) && ncap == baseSize - npos
        invariant bytes == mem[old(position)..position]
      {
        var k := if ncap >= left then left else ncap;
        TakeFrom(curIndex, npos, k, old(position), bytes);
        bytes := bytes + cur.buf[npos..npos + k];
        Move(k);
        left := left - k;
        if left > 0 {
          CursorInside(position, left);
          ncap := baseSize;
          npos := 0;
        }
      }
    }

    // m_position += n within the current node, going on to the next node when it is used up.
    method Move(n: nat)
      requires Linked() && CursorAt(position) && curIndex < |nodes|
      requires position + n <= Off(baseSize, curIndex) + baseSize
      modifies `position, `cur, `curIndex
      ensures position == old(position) + n && CursorAt(position)
      ensures position == Off(baseSize, old(curIndex)) + baseSize ==> position == Off(baseSize, curIndex)
    {
      hide Off;
      OffStep(baseSize, curIndex);
      ghost var end := Off(baseSize, curIndex) + baseSize;
      ChunkOf(baseSize, curIndex, position);
      var npos := position % baseSize;
      position := position + n;
      if baseSize == npos + n { Advance(); }
    }

    // toString(): everything from the cursor to the end of the data; the cursor stays.
    method ToString() returns (str: seq<Byte>)
      requires Valid()
      ensures str == mem[position..size]
    {
      hide Off, Chunk;
      if size == position { return []; }
      CursorInside(position, size - position);
      ChunkOf(baseSize, curIndex, position);
      var npos: nat := position % baseSize;
      var ncap: nat := baseSize - npos;
      var left: nat := size - position;
      var node: Node? := cur;
      ghost var c: nat := curIndex;
      str := [];
      while left > 0
        invariant |str| + left == size - position && c <= |nodes| && node == NodeAt(c)
        invariant left > 0 ==> c < |nodes| && npos < baseSize && ncap == baseSize - npos
        invariant left > 0 ==> Off(baseSize, c) + npos == position + |str|
        invariant str == mem[position..position + |str|]
      {
        var n := if ncap >= left then left else ncap;
        TakeFrom(c, npos, n, position, str);
        str := str + node.buf[npos..npos + n];
        OffStep(baseSize, c);
        if ncap >= left {
          left := 0;
        } else {
          left := left - ncap;
          node := node.next;
          c := c + 1;
          InsideAt(c, left);
          ncap := baseSize;
          npos := 0;
        }
      }
    }

    // Taking n more bytes out of node c, right behind what has been taken from `start` on.
    lemma TakeFrom(c: nat, npos: nat, n: nat, start: nat, taken: seq<Byte>)
      requires Synced() && c < |nodes| && npos + n <= baseSize
      requires start <= Off(baseSize, c) + npos <= |mem| && taken == mem[start..Off(baseSize, c) + npos]
      ensures nodes[c].buf.Length == baseSize && Off(baseSize, c) + npos + n <= |mem|
      ensures taken + nodes[c].buf[npos..npos + n] == mem[start..Off(baseSize, c) + npos + n]
    {
      hide Off;
      assert nodes[c].buf[..] == Chunk(mem, baseSize, c);
      assert nodes[c].buf[npos..npos + n] == nodes[c].buf[..][npos..npos + n];
      SubSlice(mem, Off(baseSize, c), baseSize, npos, n);
      JoinSlices(mem, start, Off(baseSize, c) + npos, Off(baseSize, c) + npos + n);
    }

    lemma InsideAt(c: nat, n: nat)
      requires Linked() && c <= |nodes| && n > 0 && Off(baseSize, c) + n <= capacity
      ensures c < |nodes|
    {
      hide Off;
    }

    /* ---------- the cursor ---------- */

    // False: std::out_of_range, nothing changed.
    method SetPosition(v: nat) returns (ok: bool)
      requires Valid()
      modifies `position, `size, `cur, `curIndex
      ensures Valid() && ok == (v <= capacity)
      ensures ok ==> State() == old(State()).(pos := v, size := if old(size) < v then v else old(size))
      ensures !ok ==> State() == old(State())
    {
      hide Off, Chunk;
      if v > capacity { return false; }
      position := v;
      if position > size { size := position; }
      Seek(v);
      ok := true;
    }

    // Walks from the first node to the one that holds position v.
    method Seek(v: nat)
      requires Linked() && v <= capacity
      modifies `cur, `curIndex
      ensures CursorAt(v)
    {
      hide Off;
      cur := root;
      curIndex := 0;
      var rest: nat := v;
      OffStep(baseSize, 0);
      while rest > baseSize
        invariant curIndex < |nodes| && cur == nodes[curIndex] && v == Off(baseSize, curIndex) + rest
        decreases rest
      {
        OffStep(baseSize, curIndex);
        rest := rest - baseSize;
        Advance();
        InsideAt(curIndex, rest);
      }
      OffStep(baseSize, curIndex);
      if rest == baseSize { Advance(); }
    }

    // Drops every node but the first.
    method Clear()
      requires Valid()
      modifies `position, `size, `capacity, `cur, `curIndex, `nodes, `mem, root
      ensures Valid() && position == 0 && size == 0 && capacity == baseSize
      ensures mem == old(mem)[..baseSize]
    {
      hide Chunk, Off, Linked, Owned;
      DropNodes();
      position, size, curIndex := 0, 0, 0;
      cur := root;
      OffStep(baseSize, 0);
    }

    method DropNodes()
      requires Linked() && Synced() && Owned()
      modifies `capacity, `nodes, `mem, root
      ensures Linked() && Synced() && Owned() && capacity == baseSize && nodes == [root]
      ensures 0 < baseSize <= |old(mem)| && mem == old(mem)[..baseSize]
    {
      hide Chunk;
      OffStep(baseSize, 0);
      assert Chunk(mem, baseSize, 0) == root.buf[..];
      FirstChunk(mem, baseSize);
      capacity := baseSize;
      nodes := [root];
      mem := mem[..baseSize];
      root.next := null;
      assert Off(baseSize, 1) == baseSize;
    }

    /* ---------- scatter and gather ---------- */

    // The slices that cover len bytes from offset `at` of node c on.
    ghost function Slices(c: nat, at: nat, len: nat): seq<IoVec>
      requires baseSize > 0 && at < baseSize
      reads `nodes
      decreases len
    {
      if len == 0 || c >= |nodes| then []
      else
        var k := if baseSize - at >= len then len else baseSize - at;
        [IoVec(nodes[c].buf, at, k)] + Slices(c + 1, 0, len - k)
    }

    // They stay inside their nodes, and together they are exactly that stretch of the memory.
    lemma {:induction false} SlicesGather(c: nat, at: nat, len: nat)
      requires Linked() && Synced() && at < baseSize && c <= |nodes|
      requires Off(baseSize, c) + at + len <= capacity
      ensures InBounds(Slices(c, at, len))
      ensures Gather(Slices(c, at, len)) == mem[Off(baseSize, c) + at..Off(baseSize, c) + at + len]
      decreases len
    {
      hide Off, Chunk, Gather, InBounds, Linked;
      var p := Off(baseSize, c) + at;
      if len == 0 {
        GatherNone();
      } else {
        InsideAt(c, at + len);
        var k := if baseSize - at >= len then len else baseSize - at;
        TakeFrom(c, at, k, p, []);
        OffStep(baseSize, c);
        if k < len {
          SlicesGather(c + 1, 0, len - k);
        } else {
          GatherNone();
        }
        JoinSlices(mem, p, p + k, p + len);
        GatherCons(IoVec(nodes[c].buf, at, k), Slices(c + 1, 0, len - k));
      }
    }

    static lemma GatherNone()
      ensures InBounds([]) && Gather([]) == []
    {
    }

    static lemma GatherCons(v: IoVec, rest: seq<IoVec>)
      requires v.off + v.len <= v.buf.Length && InBounds(rest)
      ensures InBounds([v] + rest)
      ensures Gather([v] + rest) == v.buf[v.off..v.off + v.len] + Gather(rest)
    {
      assert ([v] + rest)[1..] == rest;
    }

    // Each slice is in a node of its own ...
    lemma {:induction false} SlicesNodes(c: nat, at: nat, len: nat)
      requires baseSize > 0 && at < baseSize
      ensures InNodes(Slices(c, at, len), c)
      decreases len
    {
      if len > 0 && c < |nodes| {
        var k := if baseSize - at >= len then len else baseSize - at;
        SlicesNodes(c + 1, 0, len - k);
        var rest := Slices(c + 1, 0, len - k);
        InNodesCons(IoVec(nodes[c].buf, at, k), rest, c);
      }
    }

    lemma InNodesCons(v: IoVec, rest: seq<IoVec>, c: nat)
      requires c < |nodes| && v.buf == nodes[c].buf && InNodes(rest, c + 1)
      ensures InNodes([v] + rest, c)
    {
      var all := [v] + rest;
      forall i | 0 <= i < |all| ensures InNode(all[i], c + i) {
        if i > 0 { assert all[i] == rest[i - 1] && InNode(rest[i - 1], c + 1 + (i - 1)); }
      }
    }

    ghost predicate InNode(v: IoVec, c: int)
      reads `nodes
    {
      0 <= c < |nodes| && v.buf == nodes[c].buf
    }

    ghost predicate InNodes(vs: seq<IoVec>, c: nat)
      reads `nodes
    {
      forall i :: 0 <= i < |vs| ==> InNode(vs[i], c + i)
    }

    // ... so no two share memory.
    lemma SlicesDisjoint(c: nat, at: nat, len: nat)
      requires Linked() && at < baseSize
      ensures forall i, j :: 0 <= i < j < |Slices(c, at, len)| ==> Slices(c, at, len)[i].buf != Slices(c, at, len)[j].buf
    {
      SlicesNodes(c, at, len);
      var all := Slices(c, at, len);
      forall i, j | 0 <= i < j < |all| ensures all[i].buf != all[j].buf {
        assert InNode(all[i], c + i) && InNode(all[j], c + j);
      }
    }

    method GetReadBuffers(wanted: nat) returns (n: nat, buffers: seq<IoVec>)
      requires Valid()
      ensures n == if wanted > size - position then size - position else wanted
      ensures buffers == Slices(curIndex, position - Off(baseSize, curIndex), n)
      ensures InBounds(buffers) && Gather(buffers) == mem[position..position + n]
    {
      hide Off, Chunk, Gather, InBounds, Linked;
      n := if wanted > size - position then size - position else wanted;
      buffers := [];
      if n > 0 { buffers := CollectSlices(n); }
      SlicesGather(curIndex, position - Off(baseSize, curIndex), n);
    }

    // The loop of both getters.
    method CollectSlices(len: nat) returns (buffers: seq<IoVec>)
      requires Linked() && CursorAt(position) && len > 0 && position + len <= capacity
      ensures buffers == Slices(curIndex, position - Off(baseSize, curIndex), len)
    {
      hide Off;
      CursorInside(position, len);
      ChunkOf(baseSize, curIndex, position);
      var npos: nat := position % baseSize;
      var ncap: nat := baseSize - npos;
      var left: nat := len;
      var node: Node? := cur;
      ghost var c: nat := curIndex;
      ghost var all := Slices(curIndex, npos, len);
      buffers := [];
      while left > 0
        invariant c <= |nodes| && node == NodeAt(c) && npos < baseSize && ncap == baseSize - npos
        invariant left > 0 ==> Off(baseSize, c) + npos + left <= capacity
        invariant all == buffers + Slices(c, npos, left)
      {
        InsideAt(c, npos + left);
        OffStep(baseSize, c);
        if ncap >= left {
          buffers := buffers + [IoVec(node.buf, npos, left)];
          left := 0;
        } else {
          buffers := buffers + [IoVec(node.buf, npos, ncap)];
          left := left - ncap;
          node := node.next;
          c := c + 1;
          ncap := baseSize;
          npos := 0;
        }
      }
    }

    method GetWriteBuffers(len: nat) returns (n: nat, buffers: seq<IoVec>)
      requires Valid()
      modifies Repr
      ensures Valid() && fresh(Repr - old(Repr)) && littleEndian == old(littleEndian)
      ensures n == len && position == old(position) && size == old(size)
      ensures capacity == old(GrownCapacity(len)) && position + len <= capacity
      ensures Extends(mem, old(mem))
      ensures buffers == Slices(curIndex, position - Off(baseSize, curIndex), len)
    {
      hide Off, Chunk, Extends;
      n, buffers := len, [];
      AddCapacity(len);
      if len > 0 { buffers := CollectSlices(len); }
    }

    // What a socket does with the slices: it fills them in order, as far as its data goes.
    method Receive(buffers: seq<IoVec>, bytes: seq<Byte>, ghost c: nat, ghost at: nat, ghost len: nat)
      requires Linked() && Synced() && at < baseSize && c <= |nodes|
      requires Off(baseSize, c) + at + len <= capacity && |bytes| <= len
      requires buffers == Slices(c, at, len)
      modifies Arrays(nodes), `mem
      ensures Synced() && Overwrites(mem, old(mem), Off(baseSize, c) + at, bytes)
      decreases len
    {
      hide Off, Chunk, Overwrites;
      if bytes == [] {
        OverwriteNothing(mem, Off(baseSize, c) + at);
        return;
      }
      InsideAt(c, at + len);
      OffStep(baseSize, c);
      var v := buffers[0];
      var k := if |bytes| <= v.len then |bytes| else v.len;
      FillSlice(v, bytes[..k], c);
      if k < |bytes| {
        ghost var before := mem;
        Receive(buffers[1..], bytes[k..], c + 1, 0, len - k);
        assert bytes[..|bytes|] == bytes && bytes[k..k + (|bytes| - k)] == bytes[k..];
        OverwriteMore(mem, before, old(mem), Off(baseSize, c) + at, bytes, k, |bytes| - k);
      } else {
        assert bytes[..k] == bytes;
      }
    }

    // One slice is filled, from its start.
    method FillSlice(v: IoVec, bytes: seq<Byte>, ghost c: nat)
      requires Linked() && Synced() && c < |nodes| && v.buf == nodes[c].buf
      requires v.off + |bytes| <= baseSize
      modifies v.buf, `mem
      ensures Synced() && Overwrites(mem, old(mem), Off(baseSize, c) + v.off, bytes)
    {
      hide Off, Chunk, Overwrites, Splice;
      SpliceChunk(mem, baseSize, |nodes|, c, v.off, bytes);
      forall i | 0 <= i < |bytes| { v.buf[v.off + i] := bytes[i]; }
      assert v.buf[..] == old(v.buf[..v.off]) + bytes + old(v.buf[v.off + |bytes|..]);
      mem := Splice(mem, Off(baseSize, c) + v.off, bytes);
    }

    // Filling the slices and moving the cursor, once there is room.
    method FillAndMove(buffers: seq<IoVec>, bytes: seq<Byte>, ghost length: nat)
      requires Valid() && |bytes| <= length && position + length <= capacity
      requires buffers == Slices(curIndex, position - Off(baseSize, curIndex), length)
      modifies `mem, `position, `size, `cur, `curIndex, Arrays(nodes)
      ensures Valid() && Wrote(State(), old(State()), bytes)
    {
      hide Off, Chunk, Linked, Overwrites, Slices, Wrote, Owned;
      Receive(buffers, bytes, curIndex, position - Off(baseSize, curIndex), length);
      var ok := SetPosition(position + |bytes|);
      WroteIs(State(), old(State()), bytes);
    }

    // Receiving into the write buffers and moving the cursor is the same as writing the bytes.
    method ReceiveInto(length: nat, bytes: seq<Byte>)
      requires Valid() && |bytes| <= length
      modifies Repr
      ensures Valid() && fresh(Repr - old(Repr)) && Wrote(State(), old(State()), bytes)
      ensures capacity == old(GrownCapacity(length))
    {
      hide Off, Chunk, Linked, Overwrites, Extends, Slices, Wrote, Synced;
      ghost var s0 := State();
      var n, buffers := GetWriteBuffers(length);
      assert forall a :: a in Arrays(nodes) ==> a in Repr;
      ghost var s1 := State();
      FillAndMove(buffers, bytes, length);
      WroteGrown(State(), s1, s0, bytes);
    }
  }

  // Writing after the memory has grown is writing.
  lemma WroteGrown(s: Snapshot, s1: Snapshot, s0: Snapshot, bytes: seq<Byte>)
    requires Wrote(s, s1, bytes) && Extends(s1.mem, s0.mem)
    requires s1.pos == s0.pos && s1.size == s0.size && s1.little == s0.little && s0.Ok()
    ensures Wrote(s, s0, bytes)
  {
    OverwriteGrown(s.mem, s1.mem, s0.mem, s0.pos, bytes);
  }
}
