/** Byte sequences cut into chunks of one size. */
module Chunks {

  type Byte = n: int | 0 <= n < 256

  // Where chunk i starts.
  function Off(base: nat, i: nat): nat { base * i }

  lemma DivOff(base: nat, p: nat)
    requires base > 0
    ensures p == Off(base, p / base) + p % base
  {
  }

  lemma OffStep(base: nat, i: nat)
    ensures Off(base, 0) == 0 && Off(base, i + 1) == Off(base, i) + base
  {
  }

  lemma {:induction false} OffMono(base: nat, i: nat, j: nat)
    requires i < j
    ensures Off(base, i) + base <= Off(base, j)
    decreases j
  {
    OffStep(base, j - 1);
    if i < j - 1 { OffMono(base, i, j - 1); }
  }

  // The chunk and the offset in it that hold position p.
  lemma ChunkOf(base: nat, i: nat, p: nat)
    requires Off(base, i) <= p < Off(base, i) + base
    ensures p / base == i && p % base == p - Off(base, i)
  {
    var q, r := p / base, p % base;
    DivOff(base, p);
    if q < i { OffMono(base, q, i); } else if q > i { OffMono(base, i, q); }
  }

  // Chunk i of a memory made of chunks.
  function Chunk(mem: seq<Byte>, base: nat, i: nat): seq<Byte>
    requires Off(base, i) + base <= |mem|
  {
    mem[Off(base, i)..Off(base, i) + base]
  }

  // f is g with `bytes` written over it from position p on, and possibly more room.
  predicate Overwrites(f: seq<Byte>, g: seq<Byte>, p: nat, bytes: seq<Byte>)
  {
    && |g| <= |f| && p + |bytes| <= |f| && p <= |g|
    && (forall i :: 0 <= i < |f| && p <= i < p + |bytes| ==> f[i] == bytes[i - p])
    && (forall i :: 0 <= i < |g| && !(p <= i < p + |bytes|) ==> f[i] == g[i])
  }

  function Splice(mem: seq<Byte>, p: nat, bytes: seq<Byte>): (r: seq<Byte>)
    requires p + |bytes| <= |mem|
    ensures |r| == |mem| && Overwrites(r, mem, p, bytes)
  {
    mem[..p] + bytes + mem[p + |bytes|..]
  }

  // Storing bytes inside chunk i changes that chunk and no other.
  lemma SpliceChunk(mem: seq<Byte>, base: nat, n: nat, i: nat, at: nat, bytes: seq<Byte>)
    requires |mem| == Off(base, n) && i < n && at + |bytes| <= base
    ensures Off(base, i) + base <= |mem|
    ensures var c := Chunk(mem, base, i);
      Chunk(Splice(mem, Off(base, i) + at, bytes), base, i) == c[..at] + bytes + c[at + |bytes|..]
    ensures forall j :: 0 <= j < n ==> Off(base, j) + base <= |mem|
    ensures forall j :: 0 <= j < n && j != i ==>
      Chunk(Splice(mem, Off(base, i) + at, bytes), base, j) == Chunk(mem, base, j)
  {
    hide Off;
    OffMono(base, i, n);
    forall j | 0 <= j < n ensures Off(base, j) + base <= |mem| { OffMono(base, j, n); }
    forall j | 0 <= j < n && j != i
      ensures Chunk(Splice(mem, Off(base, i) + at, bytes), base, j) == Chunk(mem, base, j)
    {
      if j < i { OffMono(base, j, i); } else { OffMono(base, i, j); }
    }
  }

  lemma ChunkExtended(mem: seq<Byte>, more: seq<Byte>, base: nat, n: nat)
    requires |mem| == Off(base, n) && |more| == base
    ensures forall j :: 0 <= j < n ==> Off(base, j) + base <= |mem| && Chunk(mem + more, base, j) == Chunk(mem, base, j)
    ensures |mem + more| == Off(base, n + 1) && Chunk(mem + more, base, n) == more
  {
    OffStep(base, n);
    forall j | 0 <= j < n ensures Off(base, j) + base <= |mem| && Chunk(mem + more, base, j) == Chunk(mem, base, j) {
      OffMono(base, j, n);
    }
  }

  // Storing the next n bytes of buf after its first i.
  lemma OverwriteMore(h: seq<Byte>, f: seq<Byte>, g: seq<Byte>, p: nat, buf: seq<Byte>, i: nat, n: nat)
    requires i + n <= |buf|
    requires Overwrites(f, g, p, buf[..i]) && Overwrites(h, f, p + i, buf[i..i + n])
    ensures Overwrites(h, g, p, buf[..i + n])
  {
  }

  lemma OverwriteNothing(g: seq<Byte>, p: nat)
    requires p <= |g|
    ensures Overwrites(g, g, p, [])
  {
  }

  // f is g with more room behind it.
  predicate Extends(f: seq<Byte>, g: seq<Byte>)
  {
    |g| <= |f| && forall i :: 0 <= i < |g| ==> f[i] == g[i]
  }

  lemma ExtendsTwice(h: seq<Byte>, f: seq<Byte>, g: seq<Byte>)
    ensures Extends(h, h)
    ensures Extends(h, f) && Extends(f, g) ==> Extends(h, g)
  {
  }

  lemma OverwriteGrown(f: seq<Byte>, g: seq<Byte>, g0: seq<Byte>, p: nat, bytes: seq<Byte>)
    requires Overwrites(f, g, p, bytes) && p <= |g0| && Extends(g, g0)
    ensures Overwrites(f, g0, p, bytes)
  {
  }

  // What has been written is there to be read.
  lemma OverwriteRead(f: seq<Byte>, g: seq<Byte>, p: nat, bytes: seq<Byte>)
    requires Overwrites(f, g, p, bytes)
    ensures f[p..p + |bytes|] == bytes && f[..p] == g[..p]
  {
  }

  lemma SubSlice(mem: seq<Byte>, o: nat, len: nat, i: nat, n: nat)
    requires o + len <= |mem| && i + n <= len
    ensures mem[o..o + len][i..i + n] == mem[o + i..o + i + n]
  {
    var a, b := mem[o..o + len][i..i + n], mem[o + i..o + i + n];
    forall k | 0 <= k < |a| ensures a[k] == b[k] {
      assert mem[o..o + len][i + k] == mem[o + (i + k)];
    }
  }

  lemma JoinSlices(mem: seq<Byte>, p: nat, q: nat, r: nat)
    requires p <= q <= r <= |mem|
    ensures mem[p..q] + mem[q..r] == mem[p..r]
  {
  }

  lemma FirstChunk(mem: seq<Byte>, base: nat)
    requires base <= |mem|
    ensures Off(base, 0) + base <= |mem[..base]| && Chunk(mem[..base], base, 0) == Chunk(mem, base, 0)
  {
  }

  // ceil(n / base)
  function CeilDiv(n: nat, base: nat): nat
    requires base > 0
  {
    (n + base - 1) / base
  }

  lemma CeilDivBounds(n: nat, base: nat)
    requires base > 0
    ensures n <= Off(base, CeilDiv(n, base)) < n + base
  {
    var q, r := (n + base - 1) / base, (n + base - 1) % base;
    DivOff(base, n + base - 1);
  }
}
