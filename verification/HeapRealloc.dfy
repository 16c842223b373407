/** realloc on the heap value, with the 16-bit pointer arithmetic of the source. */
module HeapRealloc {
  import opened HeapSpec
  import opened HeapOps
  import opened HeapAlloc

  /** A well-formed heap inside a 16-bit address space. */
  ghost predicate Fits(h: Heap) {
    WF(h) && h.brk < ADDRESSES
  }

  /** Cut the block at `a` down to `len` bytes; the rest becomes a block of its own. */
  function Shrunk(h: Heap, a: nat, len: nat): Heap
    requires a in h.size && len + 4 <= h.size[a]
  {
    h.(size := h.size[a := len][a + 2 + len := h.size[a] - len - 2])
  }

  /** Cut the block at `a` down and free the part cut off. */
  function CutOff(h: Heap, a: nat, len: nat): Heap
    requires WF(h) && IsLive(h, a) && len + 4 <= h.size[a]
  {
    ShrunkLive(h, a, len);
    Freed(Shrunk(h, a, len), a + 2 + len)
  }

  /** Grow the block at `a` into free chunk `k` just above it, keeping the rest free. */
  function GrownSplit(h: Heap, a: nat, k: nat, len: nat): Heap
    requires Listed(h) && a in h.size && k < |h.fl| && h.size[a] <= len && len < h.size[a] + h.size[h.fl[k]]
  {
    var up := h.fl[k];
    var rest := h.size[up] - (len - h.size[a]);
    h.(size := (h.size - {up})[a := len][a + 2 + len := rest], fl := h.fl[k := a + 2 + len])
  }

  /** Grow the block at `a` over the whole of free chunk `k` just above it. */
  function GrownOver(h: Heap, a: nat, k: nat): Heap
    requires Listed(h) && a in h.size && k < |h.fl|
  {
    h.(size := Merged(h.size, a, h.fl[k]), fl := Without(h.fl, k))
  }

  /** Largest payload on the free list. */
  function MaxFree(h: Heap, n: nat): (m: nat)
    requires Listed(h) && n <= |h.fl|
    ensures forall j :: 0 <= j < n ==> h.size[h.fl[j]] <= m
    ensures m == 0 || exists j :: 0 <= j < n && h.size[h.fl[j]] == m
  {
    if n == 0 then 0 else
    var m := MaxFree(h, n - 1);
    if m < h.size[h.fl[n - 1]] then h.size[h.fl[n - 1]] else m
  }

  /** The free chunk just above `a` can take the `incr` bytes that `a` lacks. */
  predicate CanGrow(h: Heap, a: nat, incr: nat)
    requires Listed(h) && a in h.size
  {
    h.End(a) in h.fl && incr <= h.size[h.End(a)] + 2
  }

  /** realloc() of the block with header `a`: the new heap and the address returned. */
  function Realloc(h: Heap, a: nat, len: nat, limit: nat): (Heap, nat)
    requires WF(h) && IsLive(h, a)
  {
    var p := a + 2;
    var s := h.size[a];
    var cp := (p + len) % ADDRESSES;
    if cp < a then (h, 0)
    else if len <= s then
      if s <= 4 || s - 4 < len then (h, p)
      else (CutOff(h, a, len), p)
    else if CanGrow(h, a, len - s) then
      var k := Pos(h.fl, h.End(a));
      NextIsPos(h, a);
      if h.size[h.End(a)] + 2 - (len - s) > 4 then (GrownSplit(h, a, k, len), p)
      else (GrownOver(h, a, k), p)
    else if h.brk == h.End(a) && MaxFree(h, |h.fl|) < len then
      if cp < limit then (Extended(h, a, len, cp), p) else (h, 0)
    else
      Moved(h, a, len, limit)
  }

  /** Allocate elsewhere, then free the block at `a`. */
  function Moved(h: Heap, a: nat, len: nat, limit: nat): (Heap, nat)
    requires WF(h) && IsLive(h, a)
  {
    var (g, q) := Malloc(h, len, limit);
    if q == 0 then (h, 0)
    else
      MallocKeepsWF(h, len, limit);
      MallocAddsOne(h, len, limit);
      assert a in Live(g);
      (Freed(g, a), q)
  }

  lemma ShrunkLive(h: Heap, a: nat, len: nat)
    requires WF(h) && IsLive(h, a) && len + 4 <= h.size[a]
    ensures var g := Shrunk(h, a, len);
            a + 2 + len !in h.size && Listed(g) && IsLive(g, a + 2 + len) && IsLive(g, a)
  {
  }

  lemma {:induction false} PosOfMember(fl: seq<nat>, a: nat)
    requires Increasing(fl) && a in fl
    ensures Pos(fl, a) < |fl| && fl[Pos(fl, a)] == a
  {
    if fl[0] != a {
      assert a in fl[1..];
      PosOfMember(fl[1..], a);
    }
  }

  lemma NextIsPos(h: Heap, a: nat)
    requires WF(h) && IsLive(h, a) && h.End(a) in h.fl
    ensures var k := Pos(h.fl, h.End(a)); k < |h.fl| && h.fl[k] == h.End(a)
  {
    PosOfMember(h.fl, h.End(a));
  }

  // ----- shrinking -----

  lemma ShrunkKeeps(h: Heap, a: nat, len: nat)
    requires WF(h) && IsLive(h, a) && 2 <= len && len + 4 <= h.size[a]
    ensures var g := Shrunk(h, a, len);
            WF(g) && Live(g) == Live(h)[a := len][a + 2 + len := h.size[a] - len - 2]
  {
    ShrunkLive(h, a, len);
    ShrunkTiles(h, a, len);
    ShrunkRest(h, a, len);
  }

  lemma ShrunkRest(h: Heap, a: nat, len: nat)
    requires Listed(h) && Coalesced(h) && IsLive(h, a) && len + 4 <= h.size[a] && a + 2 + len !in h.size
    ensures var g := Shrunk(h, a, len);
            Listed(g) && Coalesced(g) && Live(g) == Live(h)[a := len][a + 2 + len := h.size[a] - len - 2]
  {
    hide Increasing;
    var g := Shrunk(h, a, len);
    assert forall f :: f in g.fl ==> g.End(f) == h.End(f);
  }

  lemma ShrunkTiles(h: Heap, a: nat, len: nat)
    requires Tiled(h) && a in h.size && 2 <= len && len + 4 <= h.size[a]
    ensures Tiled(Shrunk(h, a, len))
  {
    hide Tiles;
    CutTiles(h.start, h.brk, h.size, a, len);
  }

  ghost predicate SameBlock(h: Heap, g: Heap, b: nat) {
    IsLive(h, b) && IsLive(g, b) && g.size[b] == h.size[b]
  }

  lemma JoinLeaves(h: Heap, k: nat, b: nat)
    requires Listed(h) && k < |h.fl| && IsLive(h, b)
    ensures Listed(JoinLower(h, k)) && SameBlock(h, JoinLower(h, k), b)
  {
    JoinListed(h, k);
    RemoveMembers(h.fl, k);
    assert h.fl[k] in h.fl && (0 < k ==> h.fl[k - 1] in h.fl);
  }

  lemma TrimLeaves(h: Heap, b: nat)
    requires Listed(h) && IsLive(h, b)
    ensures SameBlock(h, Trim(h), b)
  {
    if h.fl != [] {
      assert h.fl[|h.fl| - 1] in h.fl;
      RemoveMembers(h.fl, |h.fl| - 1);
    }
  }

  /** free() leaves every other live block as it is, even in a heap that is not well formed. */
  lemma FreedLeavesOthers(h: Heap, a: nat, b: nat)
    requires Listed(h) && IsLive(h, a) && IsLive(h, b) && a != b
    ensures SameBlock(h, Freed(h, a), b)
  {
    var k := Pos(h.fl, a);
    InsertListed(h, a);
    var g := Insert(h, a, k);
    assert k < |h.fl| ==> h.fl[k] in h.fl;
    assert SameBlock(h, g, b);
    JoinLeaves(g, k, b);
    TrimLeaves(JoinLower(g, k), b);
  }

  // ----- growing in place -----

  lemma GrownSplitTiles(h: Heap, a: nat, k: nat, len: nat)
    requires Tiled(h) && Listed(h) && a in h.size && k < |h.fl| && h.fl[k] == h.End(a)
    requires h.size[a] < len && len + 2 < h.size[a] + h.size[h.fl[k]]
    ensures Tiled(GrownSplit(h, a, k, len))
  {
    var up := h.fl[k];
    assert up in h.fl;
    MergeTiles(h.start, h.brk, h.size, a, up);
    var over := h.(size := Merged(h.size, a, up), fl := []);
    ShrunkTiles(over, a, len);
    assert GrownSplit(h, a, k, len).size == Shrunk(over, a, len).size;
  }

  lemma GrownSplitRest(h: Heap, a: nat, k: nat, len: nat)
    requires WF(h) && IsLive(h, a) && k < |h.fl| && h.fl[k] == h.End(a)
    requires h.size[a] < len && len + 2 < h.size[a] + h.size[h.fl[k]]
    ensures var g := GrownSplit(h, a, k, len);
            Listed(g) && Coalesced(g) && Live(g) == Live(h)[a := len]
  {
    var g := GrownSplit(h, a, k, len);
    var up, new' := h.fl[k], a + 2 + len;
    assert up in h.fl && up in h.size;
    assert new' !in h.size;
    ReplaceMembers(h.fl, k, new');
    assert Increasing(g.fl) by {
      forall i | 0 <= i < |h.fl| && i != k ensures if i < k then h.fl[i] < new' else new' < h.fl[i] {
        assert h.fl[i] in h.fl && h.fl[i] in h.size;
      }
    }
    assert g.End(new') == h.End(up);
    assert forall f :: f in h.fl && f != up ==> g.End(f) == h.End(f);
    assert Coalesced(g) by {
      forall f | f in g.fl ensures g.End(f) != g.brk && g.End(f) !in g.fl {
        if f != new' { assert h.End(f) in h.size; }
      }
    }
  }

  lemma GrownOverKeeps(h: Heap, a: nat, k: nat)
    requires WF(h) && IsLive(h, a) && k < |h.fl| && h.fl[k] == h.End(a)
    ensures var g := GrownOver(h, a, k);
            WF(g) && Live(g) == Live(h)[a := h.size[a] + 2 + h.size[h.fl[k]]]
  {
    hide Tiles, Coalesced;
    var g := GrownOver(h, a, k);
    var up := h.fl[k];
    assert up in h.fl;
    RemoveMembers(h.fl, k);
    MergeTiles(h.start, h.brk, h.size, a, up);
    GrownOverCoalesced(h, a, k);
  }

  lemma GrownOverCoalesced(h: Heap, a: nat, k: nat)
    requires Listed(h) && Coalesced(h) && IsLive(h, a) && k < |h.fl| && h.fl[k] == h.End(a)
    ensures var g := GrownOver(h, a, k); Listed(g) && Coalesced(g)
  {
    var g := GrownOver(h, a, k);
    assert h.fl[k] in h.fl;
    RemoveMembers(h.fl, k);
    assert forall f :: f in g.fl ==> g.End(f) == h.End(f);
  }

  // ----- realloc -----

  /** The requests realloc serves properly.  Two are excluded: a shrink that leaves the block
      too small for a free-list link (only malloc() raises a request to two bytes), and an
      extension of the topmost block whose end wraps past the top of the address space without
      the wrap test noticing. */
  predicate ReallocSafe(h: Heap, a: nat, len: nat, limit: nat)
    requires a in h.size
  {
    && !(len < 2 && 5 <= h.size[a])
    && !(ADDRESSES - 2 <= len && h.End(a) == h.brk && a + 2 + len - ADDRESSES < limit)
  }

  function Extended(h: Heap, a: nat, len: nat, brk: nat): Heap {
    h.(brk := brk, size := h.size[a := len])
  }

  lemma ExtendedTiles(h: Heap, a: nat, len: nat)
    requires Tiled(h) && a in h.size && h.End(a) == h.brk && h.size[a] <= len
    ensures Tiled(Extended(h, a, len, a + 2 + len))
  {
    var g := Extended(h, a, len, a + 2 + len);
    forall x | x in g.size && After(g.size, x) != g.brk ensures After(g.size, x) in g.size {
      assert After(g.size, x) == After(h.size, x);
    }
  }

  lemma ExtendedRest(h: Heap, a: nat, len: nat, brk: nat)
    requires Listed(h) && Coalesced(h) && IsLive(h, a)
    requires forall f :: f in h.fl ==> h.End(f) != brk
    ensures var g := Extended(h, a, len, brk); Listed(g) && Coalesced(g) && Live(g) == Live(h)[a := len]
  {
    var g := Extended(h, a, len, brk);
    assert forall f :: f in g.fl ==> g.End(f) == h.End(f);
  }

  /** What a caller sees of a successful realloc: the block at `a` became the block at `b`. */
  ghost predicate Replaces(h: Heap, g: Heap, a: nat, b: nat, len: nat) {
    && IsLive(h, a) && IsLive(g, b) && len <= g.size[b]
    && (b != a ==> !IsLive(h, b))
    && Live(g) == (Live(h) - {a})[b := g.size[b]]
  }

  lemma ShrinkPath(h: Heap, a: nat, len: nat)
    requires Fits(h) && IsLive(h, a) && 2 <= len && len + 4 <= h.size[a]
    ensures var g := CutOff(h, a, len);
            Fits(g) && g.start == h.start && Replaces(h, g, a, a, len)
  {
    hide Freed, Tiles, Coalesced;
    ShrunkKeeps(h, a, len);
    var m, up := Shrunk(h, a, len), a + 2 + len;
    ShrunkLive(h, a, len);
    FreedKeeps(m, up);
    FreedLeavesOthers(m, up, a);
    assert Live(m) - {up} == Live(h)[a := len];
    assert a in Live(Freed(m, up));
  }

  lemma ShrinkTooFar(h: Heap, a: nat, len: nat)
    requires WF(h) && IsLive(h, a) && len < 2 && len + 4 <= h.size[a]
    ensures !WF(CutOff(h, a, len))
  {
    ShrunkLive(h, a, len);
    FreedLeavesOthers(Shrunk(h, a, len), a + 2 + len, a);
  }

  lemma GrownFrame(h: Heap, a: nat, k: nat, len: nat)
    requires Listed(h) && a in h.size && k < |h.fl| && h.size[a] <= len && len < h.size[a] + h.size[h.fl[k]]
    ensures GrownSplit(h, a, k, len).brk == h.brk && GrownSplit(h, a, k, len).start == h.start
  {
  }

  lemma GrownOverFrame(h: Heap, a: nat, k: nat)
    requires Listed(h) && a in h.size && k < |h.fl|
    ensures GrownOver(h, a, k).brk == h.brk && GrownOver(h, a, k).start == h.start
    ensures GrownOver(h, a, k).fl == Without(h.fl, k)
  {
  }

  lemma GrowPath(h: Heap, a: nat, len: nat, k: nat)
    requires Fits(h) && IsLive(h, a) && h.size[a] < len && k < |h.fl| && h.fl[k] == h.End(a)
    requires len <= h.size[a] + 2 + h.size[h.fl[k]]
    ensures var g := if h.size[h.fl[k]] + 2 - (len - h.size[a]) > 4 then GrownSplit(h, a, k, len) else GrownOver(h, a, k);
            Fits(g) && g.start == h.start && Replaces(h, g, a, a, len)
  {
    hide Tiles, Coalesced, GrownSplit, GrownOver;
    if h.size[h.fl[k]] + 2 - (len - h.size[a]) > 4 {
      GrownSplitTiles(h, a, k, len);
      GrownSplitRest(h, a, k, len);
      GrownFrame(h, a, k, len);
      assert a in Live(GrownSplit(h, a, k, len));
    } else {
      GrownOverKeeps(h, a, k);
      assert GrownOver(h, a, k).brk == h.brk && GrownOver(h, a, k).start == h.start by { GrownOverFrame(h, a, k); }
      assert a in Live(GrownOver(h, a, k));
    }
  }

  lemma ExtendPath(h: Heap, a: nat, len: nat, limit: nat)
    requires Fits(h) && IsLive(h, a) && h.size[a] < len && h.End(a) == h.brk && a + 2 + len < limit < ADDRESSES
    ensures var g := Extended(h, a, len, a + 2 + len);
            Fits(g) && g.start == h.start && Replaces(h, g, a, a, len)
  {
    ExtendedTiles(h, a, len);
    ExtendedRest(h, a, len, a + 2 + len);
  }

  lemma MovePath(h: Heap, a: nat, len: nat, limit: nat)
    requires Fits(h) && IsLive(h, a) && len < ADDRESSES && limit < ADDRESSES
    requires Malloc(h, len, limit).1 != 0
    ensures var (g, q) := Malloc(h, len, limit);
            WF(g) && IsLive(g, a) && 2 <= q && Fits(Freed(g, a)) && g.start == h.start &&
            Freed(g, a).start == h.start && Replaces(h, Freed(g, a), a, q - 2, len)
  {
    hide Freed, Malloc, Tiles, Coalesced, Increasing;
    var (g, q) := Malloc(h, len, limit);
    MallocKeepsWF(h, len, limit);
    MallocAddsOne(h, len, limit);
    assert a in Live(g);
    FreedKeeps(g, a);
    FreedLeavesOthers(g, a, q - 2);
    assert q - 2 in Live(Freed(g, a));
  }

  lemma NoWrap(h: Heap, a: nat, len: nat, limit: nat)
    requires Fits(h) && IsLive(h, a) && len < ADDRESSES && limit < ADDRESSES
    requires ADDRESSES <= a + 2 + len && a <= (a + 2 + len) % ADDRESSES
    ensures h.size[a] < len && ADDRESSES - 2 <= len && (a + 2 + len) % ADDRESSES == a + 2 + len - ADDRESSES
    ensures !CanGrow(h, a, len - h.size[a])
    ensures h.End(a) == h.brk ==> MaxFree(h, |h.fl|) < len
    ensures Malloc(h, len, limit) == (h, 0)
  {
  }

  /** A block allocated above the old break stays topmost when the old one is freed. */
  lemma MovedBreak(h: Heap, a: nat, len: nat, limit: nat)
    requires Fits(h) && IsLive(h, a) && len < ADDRESSES && limit < ADDRESSES && Malloc(h, len, limit).1 != 0
    ensures var g := Malloc(h, len, limit).0; g.brk <= h.brk || Moved(h, a, len, limit).0.brk == g.brk
  {
    hide Freed, Tiles, Coalesced, Increasing;
    var (g, q) := Malloc(h, len, limit);
    MovePath(h, a, len, limit);
    FreedKeeps(g, a);
    if h.brk < g.brk {
      RaisedTop(h, len, limit);
      LiveBounds(Freed(g, a), q - 2);
      assert q - 2 in Live(Freed(g, a)) && q - 2 in Live(g);
      assert Live(Freed(g, a))[q - 2] == Live(g)[q - 2];
    }
  }

  lemma RaisedTop(h: Heap, len: nat, limit: nat)
    requires Fits(h)
    ensures var (g, q) := Malloc(h, len, limit); h.brk < g.brk ==> 2 <= q && q - 2 in g.size && g.End(q - 2) == g.brk
  {
  }

  /** Which branch an unsafe request takes. */
  lemma WhenUnsafe(h: Heap, a: nat, len: nat, limit: nat)
    requires Fits(h) && IsLive(h, a) && len < ADDRESSES && limit < ADDRESSES
    ensures var cp := (a + 2 + len) % ADDRESSES;
            && (a + 2 + len < ADDRESSES ==> cp == a + 2 + len)
            && (len <= h.size[a] ==> (ReallocSafe(h, a, len, limit) <==> !(len < 2 && 5 <= h.size[a])))
            && (cp < a ==> ReallocSafe(h, a, len, limit))
            && (h.size[a] < len && a <= cp ==>
                  (ReallocSafe(h, a, len, limit) <==> !(cp != a + 2 + len && h.End(a) == h.brk && cp < limit)))
            && (a <= cp != a + 2 + len ==>
                  Listed(h) && !CanGrow(h, a, len - h.size[a]) && (h.End(a) == h.brk ==> MaxFree(h, |h.fl|) < len))
  {
    hide MaxFree, CanGrow, Coalesced, Listed, Tiles;
    LiveBounds(h, a);
    var x := a + 2 + len;
    assert x % ADDRESSES == if x < ADDRESSES then x else x - ADDRESSES;
    if ADDRESSES <= x && a <= x % ADDRESSES { NoWrap(h, a, len, limit); }
  }

  lemma LiveBounds(h: Heap, a: nat)
    requires Fits(h) && IsLive(h, a)
    ensures Listed(h) && 2 <= h.size[a] && h.End(a) <= h.brk < ADDRESSES
  {
  }

  /** What a caller sees of realloc(): failure changes nothing, success replaces the block. */
  ghost predicate Served(h: Heap, r: (Heap, nat), a: nat, len: nat) {
    && Fits(r.0) && r.0.start == h.start
    && (r.1 == 0 ==> r.0 == h)
    && (r.1 != 0 ==> 2 <= r.1 && Replaces(h, r.0, a, r.1 - 2, len))
  }

  lemma KeptServes(h: Heap, a: nat, len: nat)
    requires Fits(h) && IsLive(h, a) && len <= h.size[a]
    ensures Served(h, (h, a + 2), a, len)
  {
    assert a in Live(h);
  }

  lemma ReallocServes(h: Heap, a: nat, len: nat, limit: nat)
    requires Fits(h) && IsLive(h, a) && len < ADDRESSES && limit < ADDRESSES
    requires ReallocSafe(h, a, len, limit)
    ensures Served(h, Realloc(h, a, len, limit), a, len)
  {
    hide Tiles, Coalesced, CutOff, GrownSplit, GrownOver, Extended, Malloc, Live;
    var s, cp := h.size[a], (a + 2 + len) % ADDRESSES;
    if cp < a {
    } else if ADDRESSES <= a + 2 + len {
      NoWrap(h, a, len, limit);
    } else if len <= s {
      if 4 < s && len + 4 <= s { ShrinkPath(h, a, len); } else { KeptServes(h, a, len); }
    } else if CanGrow(h, a, len - s) {
      NextIsPos(h, a);
      GrowPath(h, a, len, Pos(h.fl, h.End(a)));
    } else if h.brk == h.End(a) && MaxFree(h, |h.fl|) < len {
      if cp < limit { ExtendPath(h, a, len, limit); }
    } else if Malloc(h, len, limit).1 != 0 {
      MovePath(h, a, len, limit);
    }
  }

  lemma ReallocBreaks(h: Heap, a: nat, len: nat, limit: nat)
    requires Fits(h) && IsLive(h, a) && len < ADDRESSES && limit < ADDRESSES
    requires !ReallocSafe(h, a, len, limit)
    ensures !WF(Realloc(h, a, len, limit).0)
  {
    hide CutOff, GrownSplit, GrownOver, Moved, Freed, Malloc, MaxFree, Live, Tiles, Coalesced, Increasing, Extended;
    LiveBounds(h, a);
    if len < 2 && 5 <= h.size[a] {
      ShrinkTooFar(h, a, len);
    } else {
      NoWrap(h, a, len, limit);
      ExtendedBeyond(h, a, len, a + 2 + len - ADDRESSES);
    }
  }

  lemma ExtendedBeyond(h: Heap, a: nat, len: nat, brk: nat)
    requires brk < a + 2 + len
    ensures !WF(Extended(h, a, len, brk))
  {
    assert a in Extended(h, a, len, brk).size;
  }

  /** realloc() keeps the heap well formed exactly when the request is safe. */
  lemma ReallocKeepsWF(h: Heap, a: nat, len: nat, limit: nat)
    requires Fits(h) && IsLive(h, a) && len < ADDRESSES && limit < ADDRESSES
    ensures WF(Realloc(h, a, len, limit).0) <==> ReallocSafe(h, a, len, limit)
  {
    if ReallocSafe(h, a, len, limit) {
      ReallocServes(h, a, len, limit);
    } else {
      ReallocBreaks(h, a, len, limit);
    }
  }

  /** A block of ten bytes shrunk to none: malloc() may now put a header on the two bytes where
      free() will store this block's link. */
  lemma ShrunkToNothing()
    ensures var h := Heap(256, 268, map[256 := 10], []);
            && Fits(h) && IsLive(h, 256)
            && Realloc(h, 256, 0, 1000) == (Heap(256, 258, map[256 := 0], []), 258)
  {
    hide Tiles, Coalesced, Malloc, Moved, MaxFree, CanGrow, GrownSplit, GrownOver, Extended, Freed;
    var h := Heap(256, 268, map[256 := 10], []);
    OneBlockFits();
    ShrunkLive(h, 256, 0);
    assert Shrunk(h, 256, 0).size == map[256 := 0, 258 := 8];
    TailFreed();
  }

  lemma OneBlockFits()
    ensures Fits(Heap(256, 268, map[256 := 10], []))
  {
    var h := Heap(256, 268, map[256 := 10], []);
    assert h.End(256) == 268;
  }

  lemma TailFreed()
    ensures var g := Heap(256, 268, map[256 := 0, 258 := 8], []);
            Listed(g) && IsLive(g, 258) && Freed(g, 258) == Heap(256, 258, map[256 := 0], [])
  {
    var g := Heap(256, 268, map[256 := 0, 258 := 8], []);
    var l := Linked(g, 258);
    assert l == g.(fl := [258]);
    assert Joined(g, 258) == l && l.End(258) == 268;
    assert g.size - {258} == map[256 := 0] && Without([258], 0) == [];
  }

  /** The topmost block extended to 65534 bytes: the break falls back to the start of the heap, below
      the block that was granted. */
  lemma ExtendedPastTop()
    ensures var h := Heap(256, 268, map[256 := 10], []);
            && Fits(h) && IsLive(h, 256)
            && Realloc(h, 256, 65534, 60000) == (Heap(256, 256, map[256 := 65534], []), 258)
  {
    var h := Heap(256, 268, map[256 := 10], []);
    assert h.End(256) == 268;
    assert h.size[256 := 65534] == map[256 := 65534];
  }
}
