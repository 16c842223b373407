/** Allocation on the heap value: best fit, splitting, raising the break, and realloc's paths. */
module HeapAlloc {
  import opened HeapSpec
  import opened HeapOps

  // ----- malloc -----

  /** Index of the smallest of the first `n` free chunks that holds `len` bytes, the lowest
      one among equals; -1 when none does. */
  function Best(h: Heap, len: nat, n: nat): (k: int)
    requires Listed(h) && n <= |h.fl|
    ensures -1 <= k < n
    ensures k < 0 ==> forall j :: 0 <= j < n ==> h.size[h.fl[j]] < len
    ensures 0 <= k ==> IsBest(h, len, n, k)
  {
    if n == 0 then -1 else
    var k := Best(h, len, n - 1);
    var s := h.size[h.fl[n - 1]];
    if len <= s && (k < 0 || s < h.size[h.fl[k]]) then n - 1 else k
  }

  ghost predicate IsBest(h: Heap, len: nat, n: nat, k: nat)
    requires Listed(h) && k < n <= |h.fl|
  {
    && len <= h.size[h.fl[k]]
    && (forall j :: 0 <= j < n && len <= h.size[h.fl[j]] ==> h.size[h.fl[k]] <= h.size[h.fl[j]])
    && (forall j :: 0 <= j < k && len <= h.size[h.fl[j]] ==> h.size[h.fl[k]] < h.size[h.fl[j]])
  }

  /** An exact fit cannot be bettered, so the search may stop at the first. */
  lemma {:induction false} ExactIsBest(h: Heap, len: nat, k: nat, n: nat)
    requires Listed(h) && k < n <= |h.fl| && h.size[h.fl[k]] == len
    requires Best(h, len, k) < 0 || len < h.size[h.fl[Best(h, len, k)]]
    ensures Best(h, len, n) == k
  {
    if k + 1 < n { ExactIsBest(h, len, k, n - 1); }
  }

  /** Take the whole free chunk `k` off the list. */
  function TakeAll(h: Heap, k: nat): Heap
    requires k < |h.fl|
  {
    h.(fl := Without(h.fl, k))
  }

  /** Split free chunk `c`: the lower part stays free, the upper `len` bytes get a header. */
  function TakeUpper(h: Heap, c: nat, len: nat): Heap
    requires c in h.size && len + 2 <= h.size[c]
  {
    h.(size := h.size[c := h.size[c] - len - 2][c + h.size[c] - len := len])
  }

  /** Append a chunk of `len` bytes at the break. */
  function Raise(h: Heap, len: nat): Heap {
    h.(brk := h.brk + 2 + len, size := h.size[h.brk := len])
  }

  /** malloc(): the new heap, and the address returned (0 when memory is exhausted). */
  function Malloc(h: Heap, request: nat, limit: nat): (Heap, nat)
    requires Listed(h)
  {
    var len := if request < 2 then 2 else request;   // at least room for a free-list link
    var k := Best(h, len, |h.fl|);
    if 0 <= k then
      var c := h.fl[k];
      var s := h.size[c];
      if s - len < 4 then (TakeAll(h, k), c + 2)
      else (TakeUpper(h, c, len), c + s - len + 2)
    else if h.brk + 2 + len <= limit then (Raise(h, len), h.brk + 2)
    else (h, 0)
  }

  lemma TakeAllKeeps(h: Heap, k: nat)
    requires WF(h) && k < |h.fl|
    ensures WF(TakeAll(h, k)) && Live(TakeAll(h, k)) == Live(h)[h.fl[k] := h.size[h.fl[k]]]
  {
    RemoveMembers(h.fl, k);
    assert h.fl[k] in h.fl;
  }

  lemma TakeUpperTiles(h: Heap, c: nat, len: nat)
    requires Tiled(h) && c in h.size && 2 <= len && len + 4 <= h.size[c]
    ensures Tiled(TakeUpper(h, c, len)) && c + h.size[c] - len !in h.size
  {
    hide Tiles;
    CutTiles(h.start, h.brk, h.size, c, h.size[c] - len - 2);
  }

  lemma TakeUpperCoalesced(h: Heap, c: nat, len: nat)
    requires Listed(h) && Coalesced(h) && c in h.fl && len + 4 <= h.size[c]
    requires c + h.size[c] - len !in h.size && c + h.size[c] - len != h.brk
    ensures var g := TakeUpper(h, c, len); Listed(g) && Coalesced(g)
  {
    var g := TakeUpper(h, c, len);
    assert forall f :: f in h.fl && f != c ==> g.End(f) == h.End(f);
  }

  lemma TakeUpperLive(h: Heap, c: nat, len: nat)
    requires Listed(h) && c in h.fl && len + 4 <= h.size[c] && c + h.size[c] - len !in h.size
    ensures Live(TakeUpper(h, c, len)) == Live(h)[c + h.size[c] - len := len]
  {
  }

  lemma RaiseTiles(h: Heap, len: nat)
    requires Tiled(h) && 2 <= len
    ensures Tiled(Raise(h, len)) && h.brk !in h.size
  {
    var g := Raise(h, len);
    forall x | x in g.size && After(g.size, x) != g.brk ensures After(g.size, x) in g.size {
      if x in h.size { assert After(g.size, x) == After(h.size, x); }
    }
  }

  lemma RaiseRest(h: Heap, len: nat)
    requires Tiled(h) && Listed(h) && Coalesced(h) && h.brk !in h.size
    ensures var g := Raise(h, len); Listed(g) && Coalesced(g) && Live(g) == Live(h)[h.brk := len]
  {
    var g := Raise(h, len);
    assert forall f :: f in g.fl ==> g.End(f) == h.End(f);
  }

  /** malloc() keeps the heap well formed. */
  lemma MallocKeepsWF(h: Heap, len: nat, limit: nat)
    requires WF(h)
    ensures WF(Malloc(h, len, limit).0) && Malloc(h, len, limit).0.start == h.start
    ensures Malloc(h, len, limit).0.brk <= h.brk || Malloc(h, len, limit).0.brk <= limit
  {
    var n := if len < 2 then 2 else len;
    var k := Best(h, n, |h.fl|);
    if 0 <= k {
      var c := h.fl[k];
      assert c in h.fl;
      if h.size[c] - n < 4 {
        TakeAllKeeps(h, k);
      } else {
        TakeUpperTiles(h, c, n);
        TakeUpperCoalesced(h, c, n);
      }
    } else if h.brk + 2 + n <= limit {
      RaiseTiles(h, n);
      RaiseRest(h, n);
    }
  }

  /** `g` has one live block more than `h`: the one at `a`, with room for `len` bytes. */
  ghost predicate AddsBlock(h: Heap, g: Heap, a: nat, len: nat) {
    && !IsLive(h, a) && IsLive(g, a) && len <= g.size[a]
    && Live(g) == Live(h)[a := g.size[a]]
  }

  /** On success malloc() adds exactly one live block, of at least the size asked for; on
      failure it changes nothing. */
  lemma MallocAddsOne(h: Heap, len: nat, limit: nat)
    requires WF(h)
    ensures var (g, p) := Malloc(h, len, limit);
            && (p == 0 ==> g == h)
            && (p != 0 ==> 2 <= p && AddsBlock(h, g, p - 2, len))
  {
    hide Tiles, Coalesced, Increasing;
    var n := if len < 2 then 2 else len;
    var k := Best(h, n, |h.fl|);
    if 0 <= k {
      var c := h.fl[k];
      assert c in h.fl;
      if h.size[c] - n < 4 {
        TakeAllKeeps(h, k);
        RemoveMembers(h.fl, k);
      } else {
        TakeUpperTiles(h, c, n);
        TakeUpperLive(h, c, n);
      }
    } else if h.brk + 2 + n <= limit {
      RaiseTiles(h, n);
      RaiseRest(h, n);
    }
  }

  /** `c` is a smallest free chunk holding `len` bytes, the lowest one among equals. */
  ghost predicate IsBestChunk(h: Heap, len: nat, c: nat)
    requires Listed(h)
  {
    && c in h.fl && len <= h.size[c]
    && forall f :: f in h.fl && len <= h.size[f] ==>
         h.size[c] < h.size[f] || (h.size[c] == h.size[f] && c <= f)
  }

  lemma BestIsBestChunk(h: Heap, len: nat)
    requires Listed(h)
    ensures var k := Best(h, len, |h.fl|);
            if 0 <= k then IsBestChunk(h, len, h.fl[k])
            else forall f :: f in h.fl ==> h.size[f] < len
  {
    var k := Best(h, len, |h.fl|);
    forall f | f in h.fl ensures if k < 0 then h.size[f] < len else len <= h.size[f] ==>
         h.size[h.fl[k]] < h.size[f] || (h.size[h.fl[k]] == h.size[f] && h.fl[k] <= f)
    {
      var j :| 0 <= j < |h.fl| && h.fl[j] == f;
    }
  }

  /** Best fit: when a free chunk is large enough, the smallest such chunk is used and the break
      stays; the chunk is split, its upper end going to the caller, exactly when the rest can
      still hold a free-list node. */
  lemma MallocIsBestFit(h: Heap, request: nat, limit: nat, c: nat)
    requires WF(h) && IsBestChunk(h, if request < 2 then 2 else request, c)
    ensures var (g, p) := Malloc(h, request, limit);
            var len := if request < 2 then 2 else request;
            p != 0 && g.brk == h.brk &&
            if h.size[c] < len + 4 then p == c + 2 && c !in g.fl && g.size == h.size
            else g.fl == h.fl && p + len == h.End(c) &&
                 g.size == h.size[c := h.size[c] - len - 2][p - 2 := len]
  {
    var len := if request < 2 then 2 else request;
    BestIsBestChunk(h, len);
    RemoveMembers(h.fl, Best(h, len, |h.fl|));
  }

  /** The break rises only when no free chunk fits, and malloc fails only when it cannot rise
      far enough below the limit. */
  lemma MallocRaisesLast(h: Heap, request: nat, limit: nat)
    requires WF(h) && forall f :: f in h.fl ==> h.size[f] < if request < 2 then 2 else request
    ensures var (g, p) := Malloc(h, request, limit);
            var len := if request < 2 then 2 else request;
            && (p != 0 <==> h.brk + 2 + len <= limit)
            && (p != 0 ==> p == h.brk + 2 && g.brk == p + len && g.fl == h.fl && g.size == h.size[h.brk := len])
  {
    var len := if request < 2 then 2 else request;
    BestIsBestChunk(h, len);
  }

  /** malloc fails exactly when no free chunk fits and the break cannot rise. */
  lemma MallocFailsIff(h: Heap, request: nat, limit: nat)
    requires WF(h)
    ensures Malloc(h, request, limit).1 == 0 <==>
            (forall f :: f in h.fl ==> h.size[f] < if request < 2 then 2 else request) &&
            limit < h.brk + 2 + if request < 2 then 2 else request
  {
    hide Tiles, Coalesced;
    var len := if request < 2 then 2 else request;
    BestIsBestChunk(h, len);
  }

  /** The block with header `b` is larger than asked for by less than a free-list node, and not at all
      when its header is new; otherwise it was a free chunk, and nothing else moved. */
  ghost predicate Tight(h: Heap, g: Heap, b: nat, len: nat) {
    && b in g.size && len <= g.size[b] < len + 4
    && if b in h.size then b in h.fl && g.size == h.size && g.brk == h.brk else g.size[b] == len
  }

  lemma MallocGrants(h: Heap, request: nat, limit: nat)
    requires WF(h)
    ensures var (g, p) := Malloc(h, request, limit);
            p != 0 ==> 2 <= p && Tight(h, g, p - 2, if request < 2 then 2 else request)
  {
    hide Tiles, Coalesced, Malloc;
    var len := if request < 2 then 2 else request;
    var k := Best(h, len, |h.fl|);
    BestIsBestChunk(h, len);
    if 0 <= k {
      if h.size[h.fl[k]] >= len + 4 { TakeUpperTiles(h, h.fl[k], len); }
      MallocIsBestFit(h, request, limit, h.fl[k]);
    } else {
      RaiseTiles(h, len);
      MallocRaisesLast(h, request, limit);
    }
  }
}
