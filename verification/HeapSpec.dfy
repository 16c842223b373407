/** The heap of avr-libc as a value: the chunks that tile it, and the free list.

    A chunk at address `a` is a two-byte header holding `size[a]`, followed by
    `size[a]` payload bytes.  A chunk on the free list keeps its link in the first
    two payload bytes.  Everything the allocator promises is proved here about
    functions on this value; Allocator.dfy proves that the in-place code computes
    these functions on bytes. */
module HeapSpec {

  datatype Heap = Heap(start: nat, brk: nat, size: map<nat, nat>, fl: seq<nat>) {
    function End(a: nat): nat
      requires a in size
    {
      After(size, a)
    }
  }

  /** First address after the chunk at `a`. */
  function After(size: map<nat, nat>, a: nat): nat
    requires a in size
  {
    a + 2 + size[a]
  }

  const ADDRESSES := 0x1_0000

  ghost predicate Increasing(s: seq<nat>) {
    forall i, j :: 0 <= i < j < |s| ==> s[i] < s[j]
  }

  /** The chunks tile the area from `start` to `brk`: each ends where another begins or
      at the break, none overlap, and the first begins at `start`. */
  ghost predicate Tiles(start: nat, brk: nat, size: map<nat, nat>) {
    && 2 <= start <= brk
    && (start < brk ==> start in size)
    && (forall a :: a in size ==> start <= a && 2 <= size[a] && a + 2 + size[a] <= brk)
    && (forall a {:trigger After(size, a)} :: a in size && After(size, a) != brk ==> After(size, a) in size)
    && (forall a, b :: a in size && b in size && a < b ==> a + 2 + size[a] <= b)
  }

  ghost predicate Tiled(h: Heap) {
    Tiles(h.start, h.brk, h.size)
  }

  ghost predicate Listed(h: Heap) {
    && Increasing(h.fl)
    && forall f :: f in h.fl ==> f in h.size
  }

  /** A free chunk is followed by a live one: it is neither topmost nor next to a free chunk. */
  ghost predicate Coalesced(h: Heap)
    requires Listed(h)
  {
    forall f :: f in h.fl ==> h.End(f) != h.brk && h.End(f) !in h.fl
  }

  ghost predicate WF(h: Heap) {
    Tiled(h) && Listed(h) && Coalesced(h)
  }

  ghost predicate IsLive(h: Heap, a: nat) {
    a in h.size && a !in h.fl
  }

  /** What the client owns: each live chunk with its payload size. */
  function Live(h: Heap): map<nat, nat> {
    map a | a in h.size && a !in h.fl :: h.size[a]
  }

  // ----- Tiling: every byte below the break belongs to exactly one chunk -----

  lemma {:induction false} ChunkFrom(h: Heap, a: nat, x: nat) returns (c: nat)
    requires Tiled(h) && a in h.size && a <= x < h.brk
    ensures c in h.size && c <= x < h.End(c)
    decreases h.brk - a
  {
    if x < h.End(a) {
      c := a;
    } else {
      c := ChunkFrom(h, h.End(a), x);
    }
  }

  lemma EveryByteInOneChunk(h: Heap, x: nat)
    requires Tiled(h) && h.start <= x < h.brk
    ensures exists c :: c in h.size && c <= x < h.End(c) &&
                        forall d :: d in h.size && d <= x < h.End(d) ==> d == c
  {
    var c := ChunkFrom(h, h.start, x);
  }

  lemma Predecessor(h: Heap, x: nat) returns (p: nat)
    requires Tiled(h) && h.start < x && (x in h.size || x == h.brk)
    ensures p in h.size && h.End(p) == x
  {
    p := ChunkFrom(h, h.start, x - 1);
  }

  // ----- The heap is determined by its live blocks -----

  lemma FirstIsMember(s: seq<nat>)
    requires s != []
    ensures s[0] in s
  {
  }

  lemma {:induction false} IncreasingUnique(s: seq<nat>, t: seq<nat>)
    requires Increasing(s) && Increasing(t)
    requires forall x :: x in s <==> x in t
    ensures s == t
  {
    if s == [] {
      if t != [] { FirstIsMember(t); }
    } else {
      assert s[0] in t && t != [];
      assert t[0] in s;
      assert s[0] == t[0];
      forall x ensures x in s[1..] <==> x in t[1..] {
        if x in s[1..] { assert x in t; }
        if x in t[1..] { assert x in s; }
      }
      IncreasingUnique(s[1..], t[1..]);
    }
  }

  lemma TopIsLive(h: Heap) returns (top: nat)
    requires WF(h) && h.start < h.brk
    ensures top in Live(h) && h.End(top) == h.brk
  {
    top := Predecessor(h, h.brk);
  }

  lemma BrkFromLive(h: Heap, g: Heap)
    requires WF(h) && WF(g) && h.start == g.start && Live(h) == Live(g)
    ensures h.brk <= g.brk
  {
    if h.start < h.brk {
      var top := TopIsLive(h);
      assert top in Live(g);
    }
  }

  lemma {:induction false} ChunkFromLive(h: Heap, g: Heap, x: nat)
    requires WF(h) && WF(g) && h.start == g.start && Live(h) == Live(g)
    requires x in h.size
    ensures x in g.size && g.size[x] == h.size[x]
    ensures x in h.fl <==> x in g.fl
    decreases x
  {
    BrkFromLive(h, g);
    BrkFromLive(g, h);
    if x !in h.fl {
      assert x in Live(h);
    } else {
      var y := h.End(x);
      assert y in Live(h);
      assert y in Live(g);
      if h.start < x {
        var p := Predecessor(h, x);
        ChunkFromLive(h, g, p);
        assert g.End(p) == x;
      }
      assert x in g.size;
      assert x !in Live(h);
      var z := g.End(x);
      assert z in Live(g);
    }
  }

  /** History independence: two well-formed heaps with the same live blocks are equal,
      break, free list and all. */
  lemma DeterminedByLive(h: Heap, g: Heap)
    requires WF(h) && WF(g) && h.start == g.start && Live(h) == Live(g)
    ensures h == g
  {
    BrkFromLive(h, g);
    BrkFromLive(g, h);
    forall x ensures x in h.size ==> x in g.size && g.size[x] == h.size[x] && (x in h.fl <==> x in g.fl)
             ensures x in g.size ==> x in h.size && h.size[x] == g.size[x] && (x in h.fl <==> x in g.fl)
    {
      if x in h.size { ChunkFromLive(h, g, x); }
      if x in g.size { ChunkFromLive(g, h, x); }
    }
    assert h.size == g.size;
    IncreasingUnique(h.fl, g.fl);
  }

  /** With nothing live, the free list is empty and the break is back at the start. */
  lemma NothingLive(h: Heap)
    requires WF(h) && Live(h) == map[]
    ensures h.brk == h.start && h.fl == [] && h.size == map[]
  {
    if h.start < h.brk { var top := TopIsLive(h); }
    if h.fl != [] { FirstIsMember(h.fl); }
  }
}
