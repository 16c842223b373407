/** What every realloc request gets: the address returned and the live blocks afterwards, which by
    DeterminedByLive fix the whole heap. */
module HeapOutcomes {
  import opened HeapSpec
  import opened HeapOps
  import opened HeapAlloc
  import opened HeapRealloc

  /** A new end past the top of the address space is refused. */
  lemma WrappedFails(h: Heap, a: nat, len: nat, limit: nat)
    requires Fits(h) && IsLive(h, a) && len < ADDRESSES && limit < ADDRESSES && ReallocSafe(h, a, len, limit)
    requires ADDRESSES <= a + 2 + len
    ensures Realloc(h, a, len, limit) == (h, 0)
  {
    hide Tiles, Coalesced, Malloc, MaxFree, Moved, CutOff, GrownSplit, GrownOver;
    LiveBounds(h, a);
    if a <= (a + 2 + len) % ADDRESSES { NoWrap(h, a, len, limit); MovedFails(h, a, len, limit); }
  }

  lemma MovedFails(h: Heap, a: nat, len: nat, limit: nat)
    requires WF(h) && IsLive(h, a) && Malloc(h, len, limit).1 == 0
    ensures Moved(h, a, len, limit) == (h, 0)
  {
  }

  /** Shrinking succeeds in place: by four bytes or more when the block is larger than that the block
      gets exactly the size asked for, else nothing changes. */
  lemma ShrinkingOutcome(h: Heap, a: nat, len: nat, limit: nat)
    requires Fits(h) && IsLive(h, a) && len < ADDRESSES && limit < ADDRESSES && ReallocSafe(h, a, len, limit)
    requires len <= h.size[a]
    ensures var r := Realloc(h, a, len, limit);
            r.1 == a + 2 &&
            if 4 < h.size[a] && 4 <= h.size[a] - len then Live(r.0) == Live(h)[a := len] else r.0 == h
  {
    hide Tiles, Coalesced, Freed;
    LiveBounds(h, a);
    if 4 < h.size[a] && 4 <= h.size[a] - len {
      ShrunkKeeps(h, a, len);
      ShrunkLive(h, a, len);
      FreedKeeps(Shrunk(h, a, len), a + 2 + len);
      assert a + 2 + len !in Live(h);
      assert Live(h)[a := len][a + 2 + len := h.size[a] - len - 2] - {a + 2 + len} == Live(h)[a := len];
    }
  }

  /** A free chunk just above that is large enough is grown into, in place and without moving the
      break: up to exactly the size asked for when more than four bytes are left over, else over all of it. */
  lemma GrowingOutcome(h: Heap, a: nat, len: nat, limit: nat)
    requires Fits(h) && IsLive(h, a) && len < ADDRESSES && limit < ADDRESSES
    requires h.size[a] < len && h.End(a) in h.fl && len - h.size[a] <= h.size[h.End(a)] + 2
    ensures var r, up := Realloc(h, a, len, limit), h.size[h.End(a)];
            && r.1 == a + 2 && r.0.brk == h.brk
            && Live(r.0) == Live(h)[a := if 4 < up + 2 - (len - h.size[a]) then len else h.size[a] + 2 + up]
  {
    hide Tiles, Coalesced, GrownSplit, GrownOver, Malloc, MaxFree, Moved, CutOff;
    var k := Pos(h.fl, h.End(a));
    NextIsPos(h, a);
    AboveEnds(h, a);
    if h.size[h.End(a)] + 2 - (len - h.size[a]) > 4 {
      GrownSplitRest(h, a, k, len);
      GrownFrame(h, a, k, len);
    } else {
      GrownOverKeeps(h, a, k);
      GrownOverFrame(h, a, k);
    }
  }

  lemma AboveEnds(h: Heap, a: nat)
    requires Fits(h) && IsLive(h, a) && h.End(a) in h.fl
    ensures h.End(a) in h.size && h.End(a) + 2 + h.size[h.End(a)] <= h.brk < ADDRESSES
  {
  }

  /** The topmost block, when no free chunk would do, is extended in place exactly when its new end stays
      below the limit. */
  lemma ExtendingOutcome(h: Heap, a: nat, len: nat, limit: nat)
    requires Fits(h) && IsLive(h, a) && len < ADDRESSES && limit < ADDRESSES && a + 2 + len < ADDRESSES
    requires h.size[a] < len && h.End(a) == h.brk && forall f :: f in h.fl ==> h.size[f] < len
    ensures var r := Realloc(h, a, len, limit);
            if a + 2 + len < limit then r.1 == a + 2 && r.0.brk == a + 2 + len && Live(r.0) == Live(h)[a := len]
            else r == (h, 0)
  {
    hide Tiles, Coalesced, GrownSplit, GrownOver, Malloc, MaxFree, Moved, CutOff;
    TopHasNothingAbove(h, a);
    LargestFree(h, len);
    if a + 2 + len < limit {
      ExtendedTiles(h, a, len);
      TopRest(h, a, len);
    }
  }

  lemma TopHasNothingAbove(h: Heap, a: nat)
    requires Fits(h) && IsLive(h, a) && h.End(a) == h.brk
    ensures h.End(a) !in h.fl
  {
  }

  lemma TopRest(h: Heap, a: nat, len: nat)
    requires Fits(h) && IsLive(h, a) && h.End(a) == h.brk && h.size[a] < len
    ensures Live(Extended(h, a, len, a + 2 + len)) == Live(h)[a := len]
  {
  }

  lemma LargestFree(h: Heap, len: nat)
    requires Listed(h) && 0 < len
    ensures MaxFree(h, |h.fl|) < len <==> forall f :: f in h.fl ==> h.size[f] < len
  {
    forall f | f in h.fl ensures h.size[f] <= MaxFree(h, |h.fl|) {
      var j :| 0 <= j < |h.fl| && h.fl[j] == f;
    }
  }

  /** Any other growing request goes the way of malloc, and when that succeeds the old block is freed. */
  lemma MovingOutcome(h: Heap, a: nat, len: nat, limit: nat)
    requires Fits(h) && IsLive(h, a) && len < ADDRESSES && limit < ADDRESSES && a + 2 + len < ADDRESSES
    requires h.size[a] < len && !(h.End(a) in h.fl && len - h.size[a] <= h.size[h.End(a)] + 2)
    requires !(h.End(a) == h.brk && forall f :: f in h.fl ==> h.size[f] < len)
    ensures var r, (g, q) := Realloc(h, a, len, limit), Malloc(h, len, limit);
            r.1 == q && if q == 0 then r.0 == h else Live(r.0) == Live(g) - {a}
  {
    hide Tiles, Coalesced, GrownSplit, GrownOver, Malloc, MaxFree, CutOff, Freed;
    LargestFree(h, len);
    var (g, q) := Malloc(h, len, limit);
    if q != 0 {
      MovePath(h, a, len, limit);
      FreedKeeps(g, a);
    }
  }

  /** When realloc fails, without naming a path: the end wraps, or the block must grow, the chunk above
      cannot take it, no free chunk fits, and the break, over the block itself if that is topmost, cannot
      rise far enough. */
  lemma ReallocFailsIff(h: Heap, a: nat, len: nat, limit: nat)
    requires Fits(h) && IsLive(h, a) && len < ADDRESSES && limit < ADDRESSES && ReallocSafe(h, a, len, limit)
    ensures Realloc(h, a, len, limit).1 == 0 <==>
            ADDRESSES <= a + 2 + len ||
            (h.size[a] < len &&
             !(h.End(a) in h.fl && len - h.size[a] <= h.size[h.End(a)] + 2) &&
             (forall f :: f in h.fl ==> h.size[f] < len) &&
             if h.End(a) == h.brk then limit <= a + 2 + len else limit < h.brk + 2 + len)
  {
    hide Realloc, Malloc, Tiles, Coalesced, ReallocSafe;
    LiveBounds(h, a);
    if ADDRESSES <= a + 2 + len {
      WrappedFails(h, a, len, limit);
    } else if len <= h.size[a] {
      ShrinkingOutcome(h, a, len, limit);
    } else if h.End(a) in h.fl && len - h.size[a] <= h.size[h.End(a)] + 2 {
      GrowingOutcome(h, a, len, limit);
    } else if h.End(a) == h.brk && forall f :: f in h.fl ==> h.size[f] < len {
      ExtendingOutcome(h, a, len, limit);
    } else {
      MovingOutcome(h, a, len, limit);
      MallocFailsIff(h, len, limit);
    }
  }
}
