/** malloc, free and realloc as avr-libc runs them: on RAM bytes, a break and a list head. */
module Allocator {
  import opened HeapSpec
  import opened HeapOps
  import opened HeapAlloc
  import opened HeapRealloc
  import opened HeapBytes
  import opened ReallocBytes

  class Allocator {
    const ram: array<byte>
    const heapStart: nat
    var brkval: nat        // first address not yet allocated; 0 before the first malloc
    var flp: nat           // head of the free list, 0 when empty
    ghost var heap: Heap   // what the bytes stand for

    ghost predicate Valid()
      reads this, ram
    {
      && ram.Length <= ADDRESSES
      && Represents(ram[..], flp, heap) && heap.start == heapStart
      && (brkval == heap.brk || (brkval == 0 && heap.brk == heapStart))
    }

    constructor (ram: array<byte>, heapStart: nat)
      requires 2 <= heapStart <= ram.Length <= ADDRESSES && heapStart < ADDRESSES
      ensures Valid() && this.ram == ram && heap == Heap(heapStart, heapStart, map[], [])
    {
      this.ram := ram;
      this.heapStart := heapStart;
      brkval, flp := 0, 0;
      heap := Heap(heapStart, heapStart, map[], []);
    }

    /** The 16-bit field at `a`. */
    function Load(a: nat): nat
      reads ram
    {
      if a + 1 < ram.Length then ram[a] as int + 256 * (ram[a + 1] as int) else 0
    }

    method Store(a: nat, v: nat)
      requires a + 1 < ram.Length && v < ADDRESSES
      modifies ram
      ensures Stored(old(ram[..]), ram[..], a, v)
    {
      ram[a] := v % 256;
      ram[a + 1] := v / 256;
    }

    /** Lead the link before list entry `k`, kept in entry `prev` or in the list head, to `to`. */
    method Relink(prev: nat, to: nat, ghost k: nat)
      requires Tiled(heap) && Listed(heap) && heap.brk <= ram.Length
      requires k <= |heap.fl| && prev == Prev(heap.fl, k) && to < ADDRESSES
      modifies this`flp, ram
      ensures Relinked(old(ram[..]), old(flp), ram[..], flp, heap, k, to)
      ensures Within(old(ram[..]), ram[..], heap.start, heap.brk)
    {
      ghost var m := ram[..];
      if 0 < k { assert heap.fl[k - 1] in heap.fl; }
      WithinSelf(m, heap.start, heap.brk);
      if prev != 0 {
        Store(prev + 2, to);
        StoreElsewhere(m, ram[..], heap, prev, prev + 2, to);
        StoreWithin(m, ram[..], prev + 2, to, heap.start, heap.brk);
      } else {
        flp := to;
      }
    }

    /** Walking the list: entry `k` and its words are what memory says. */
    lemma AtEntry(k: nat)
      requires Valid() && k < |heap.fl|
      ensures heap.fl[k] in heap.size && heap.fl[k] != 0 && heap.fl[k] + 4 <= ram.Length
      ensures Load(heap.fl[k]) == heap.size[heap.fl[k]] && Load(heap.fl[k] + 2) == Link(heap.fl, k + 1)
      ensures Link(heap.fl, k + 1) < ADDRESSES
    {
      hide Tiles, Increasing, Coalesced, Word, Load, Links, Headers;
      EntryBounds(k);
      EntryWords(k);
    }

    /** Disconnect free chunk `c`, list entry `k`, and hand all of it to the caller. */
    method TakeWhole(prev: nat, c: nat, ghost k: nat) returns (p: nat)
      requires Valid() && k < |heap.fl| && c == heap.fl[k] && prev == Prev(heap.fl, k)
      modifies this, ram
      ensures Valid() && heap == TakeAll(old(heap), k) && p == c + 2
      ensures KeepsPayloads(old(ram[..]), ram[..], old(heap), 0)
      ensures Within(old(ram[..]), ram[..], heapStart, heap.brk)
    {
      hide Tiles, Coalesced, Listed, Load, Links, Headers, KeepsPayloads, Within;
      AtEntry(k);
      ghost var m, f := ram[..], flp;
      Relink(prev, Load(c + 2), k);
      UnlinkHolds(m, f, ram[..], flp, heap, k);
      TakeAllKeeps(heap, k);
      heap := TakeAll(heap, k);
      p := c + 2;
    }

    lemma AtHead()
      requires Valid()
      ensures Listed(heap) && flp == Link(heap.fl, 0) && 0 !in heap.fl
    {
    }

    /** Step 1 of malloc: walk the list for an exact fit, noting the smallest chunk that is
        larger.  `s` is the size of the chunk chosen, 0 when none fits. */
    method FindFit(len: nat) returns (s: nat, sfp1: nat, sfp2: nat)
      requires Valid() && 2 <= len
      ensures Noted(heap, len, |heap.fl|, s, sfp1, sfp2)
    {
      hide Valid, Represents, WF, Tiles, Tiled, Coalesced, Listed, Increasing, Load, Best, IsBest;
      AtHead();
      s, sfp1, sfp2 := 0, 0, 0;
      var fp1, fp2 := flp, 0;
      ghost var k := 0;
      NotedNone(heap, len);
      while fp1 != 0
        invariant k <= |heap.fl| && fp1 == Link(heap.fl, k) && fp2 == Prev(heap.fl, k)
        invariant Noted(heap, len, k, s, sfp1, sfp2) && s != len
        decreases |heap.fl| - k
      {
        AtEntry(k);
        NoteNext(heap, len, k, s, sfp1, sfp2);
        if Load(fp1) >= len {
          if Load(fp1) == len {
            ExactIsNoted(heap, len, k, s, sfp1, sfp2);
            return len, fp1, fp2;
          } else if s == 0 || Load(fp1) < s {
            s, sfp1, sfp2 := Load(fp1), fp1, fp2;
          }
        }
        fp2, fp1 := fp1, Load(fp1 + 2);
        k := k + 1;
      }
      LinkNotNull(k);
    }

    method Malloc(request: nat, limit: nat) returns (p: nat)
      requires Valid() && request < ADDRESSES && limit <= ram.Length && limit < ADDRESSES
      modifies this, ram
      ensures Valid()
      ensures (heap, p) == HeapAlloc.Malloc(old(heap), request, limit)
      ensures KeepsPayloads(old(ram[..]), ram[..], old(heap), 0)
      ensures Within(old(ram[..]), ram[..], heapStart, heap.brk) && old(heap).brk <= heap.brk
    {
      hide Represents, IsBest, SameBytes, Tiles, Coalesced, Within;
      var len := request;
      if len < 2 { len := 2; }
      var s, sfp1, sfp2 := FindFit(len);
      AtHead();
      ghost var b := Best(heap, len, |heap.fl|);
      if s != 0 {
        assert heap.fl[b] in heap.fl;
        if s - len < 4 {
          p := TakeWhole(sfp2, sfp1, b);
        } else {
          p := SplitUpper(sfp1, s, len);
        }
      } else {
        p := RaiseBreak(len, limit);
      }
    }

    /** Step 2 of malloc: the upper end of free chunk `c`, of payload size `s`, goes to the caller. */
    method SplitUpper(c: nat, s: nat, len: nat) returns (p: nat)
      requires Valid() && c in heap.fl && heap.size[c] == s && 2 <= len && len + 4 <= s
      modifies this`heap, ram
      ensures Valid() && heap == TakeUpper(old(heap), c, len) && p == c + s - len + 2
      ensures KeepsPayloads(old(ram[..]), ram[..], old(heap), 0)
      ensures Within(old(ram[..]), ram[..], heapStart, heap.brk)
    {
      var cp := c + (s - len);
      hide Tiles, Coalesced, Increasing, Word, Load, Links, Headers, KeepsPayloads, Stored, Live, Within;
      SplitBounds(c, len);
      ghost var m := ram[..];
      Store(cp, len);
      ghost var m1 := ram[..];
      Store(c, s - len - 2);
      StoreWithin(m, m1, cp, len, heapStart, heap.brk);
      StoreWithin(m1, ram[..], c, s - len - 2, heapStart, heap.brk);
      WithinMore(m, m1, ram[..], heapStart, heap.brk, heapStart, heap.brk);
      TakeUpperHolds(m, m1, ram[..], flp, heap, c, len);
      TakeUpperTiles(heap, c, len);
      TakeUpperCoalesced(heap, c, len);
      heap := TakeUpper(heap, c, len);
      p := cp + 2;
    }

    lemma BrkBounds()
      requires Valid()
      ensures 2 <= heapStart <= heap.brk <= ram.Length && heap.brk < ADDRESSES
    {
    }

    lemma SplitBounds(c: nat, len: nat)
      requires Valid() && c in heap.fl && 2 <= len && len + 4 <= heap.size[c]
      ensures c + 2 + heap.size[c] <= heap.brk <= ram.Length && heap.brk < ADDRESSES && c + heap.size[c] - len != heap.brk
      ensures heapStart <= c
    {
    }

    /** Step 3 of malloc: a new chunk at the break, unless it would pass `limit`. */
    method RaiseBreak(len: nat, limit: nat) returns (p: nat)
      requires Valid() && 2 <= len < ADDRESSES && limit <= ram.Length && limit < ADDRESSES
      modifies this`heap, this`brkval, ram
      ensures Valid() && KeepsPayloads(old(ram[..]), ram[..], old(heap), 0)
      ensures Within(old(ram[..]), ram[..], heapStart, heap.brk)
      ensures if old(heap).brk + 2 + len <= limit
              then heap == Raise(old(heap), len) && p == old(heap).brk + 2
              else heap == old(heap) && p == 0
    {
      hide Tiles, Coalesced, Increasing, Word, Load, Links, Headers, KeepsPayloads, Stored, Live, Within;
      BrkBounds();
      KeepsSelf(ram[..], heap, 0);
      WithinSelf(ram[..], heapStart, heap.brk);
      if brkval == 0 { brkval := heapStart; }
      if limit <= brkval { return 0; }
      var avail := limit - brkval;
      if avail >= len && avail >= (len + 2) % ADDRESSES {
        ghost var m := ram[..];
        var fp1 := brkval;
        brkval := brkval + len + 2;
        Store(fp1, len);
        StoreWithin(m, ram[..], fp1, len, heapStart, brkval);
        RaiseHolds(m, ram[..], flp, heap, len);
        RaiseTiles(heap, len);
        RaiseRest(heap, len);
        heap := Raise(heap, len);
        return fp1 + 2;
      }
      return 0;
    }
  
    // ----- free -----

    /** Between two steps of free: the bytes hold `heap`, which need not be coalesced. */
    ghost predicate Consistent()
      reads this, ram
    {
      ram.Length <= ADDRESSES && Holds(ram[..], flp, heap) && heap.start == heapStart && brkval == heap.brk
    }

    /** Where the chunk at `a` belongs: the list entries around it. */
    method FindPlace(a: nat, ghost h: Heap, ghost m0: seq<byte>) returns (fp1: nat, fp2: nat)
      requires Represents(m0, flp, h) && IsLive(h, a) && OthersSame(m0, ram[..], h, a)
      ensures var k := Pos(h.fl, a); fp1 == Link(h.fl, k) && fp2 == Prev(h.fl, k)
    {
      hide Represents, WF, Tiles, Tiled, Coalesced, Listed, Increasing, Load, OthersSame, IsLive;
      fp1, fp2 := flp, 0;
      ghost var k := 0;
      PlaceStart(a, h, m0);
      while fp1 != 0 && fp1 < a
        invariant k <= Pos(h.fl, a) && fp1 == Link(h.fl, k) && fp2 == Prev(h.fl, k)
        decreases |h.fl| - k
      {
        PlaceStep(a, h, m0, k);
        fp2, fp1 := fp1, Load(fp1 + 2);
        k := k + 1;
      }
      PlaceFound(a, h, k);
    }

    lemma PlaceStart(a: nat, h: Heap, m0: seq<byte>)
      requires Represents(m0, flp, h)
      ensures flp == Link(h.fl, 0) && WF(h)
    {
    }

    lemma PlaceStep(a: nat, h: Heap, m0: seq<byte>, k: nat)
      requires Represents(m0, flp, h) && IsLive(h, a) && OthersSame(m0, ram[..], h, a)
      requires k <= Pos(h.fl, a) && Link(h.fl, k) != 0 && Link(h.fl, k) < a
      ensures k < |h.fl| && k < Pos(h.fl, a) && Load(h.fl[k] + 2) == Link(h.fl, k + 1)
    {
      PosSplits(h.fl, a);
      assert h.fl[k] in h.fl;
      assert SameChunk(m0, ram[..], h, h.fl[k]);
      assert Load(h.fl[k] + 2) == Word(ram[..], h.fl[k] + 2);
    }

    lemma PlaceFound(a: nat, h: Heap, k: nat)
      requires WF(h) && IsLive(h, a) && k <= Pos(h.fl, a) && (Link(h.fl, k) == 0 || a <= Link(h.fl, k))
      ensures k == Pos(h.fl, a)
    {
      PosSplits(h.fl, a);
      assert k < |h.fl| ==> h.fl[k] in h.fl;
    }
  
    /** Link the freed chunk at `a` to the entry `fp1` above it, and assimilate that one if adjacent. */
    method LinkUpper(a: nat, fp1: nat, ghost h: Heap, ghost m0: seq<byte>)
      requires |m0| == ram.Length <= ADDRESSES && Represents(m0, flp, h) && IsLive(h, a)
      requires OthersSame(m0, ram[..], h, a) && Word(ram[..], a) == h.size[a] && Word(ram[..], a + 2) == 0
      requires fp1 == Link(h.fl, Pos(h.fl, a))
      modifies ram
      ensures OthersSame(m0, ram[..], h, a) && Within(old(ram[..]), ram[..], h.start, h.brk)
      ensures var k := Pos(h.fl, a); var g := Insert(h, a, k);
              Word(ram[..], a) == g.size[a] && Word(ram[..], a + 2) == Link(g.fl, k + 1)
    {
      hide Represents, WF, Tiles, Tiled, Coalesced, Listed, Increasing, Load, OthersSame, IsLive, Word, Insert, Within;
      LinkUpperFacts(a, h, m0);
      WithinSelf(ram[..], h.start, h.brk);
      if fp1 != 0 {
        ghost var m1 := ram[..];
        Store(a + 2, fp1);
        StoreWithin(m1, ram[..], a + 2, fp1, h.start, h.brk);
        StoreOthers(m0, m1, ram[..], h, a, a + 2, fp1);
        LoadsSame(a, h, m0);
        if a + 2 + Load(a) == fp1 {
          ghost var m2 := ram[..];
          Store(a, Load(a) + Load(fp1) + 2);
          StoreWithin(m2, ram[..], a, h.size[a] + 2 + h.size[fp1], h.start, h.brk);
          WithinMore(m1, m2, ram[..], h.start, h.brk, h.start, h.brk);
          StoreOthers(m0, m2, ram[..], h, a, a, h.size[a] + 2 + h.size[fp1]);
          LoadsSame(a, h, m0);
          ghost var m3 := ram[..];
          Store(a + 2, Load(fp1 + 2));
          StoreWithin(m3, ram[..], a + 2, Link(h.fl, Pos(h.fl, a) + 1), h.start, h.brk);
          WithinMore(m1, m3, ram[..], h.start, h.brk, h.start, h.brk);
          StoreOthers(m0, m3, ram[..], h, a, a + 2, Link(h.fl, Pos(h.fl, a) + 1));
        }
      }
    }

    lemma LinkUpperFacts(a: nat, h: Heap, m0: seq<byte>)
      requires Represents(m0, flp, h) && IsLive(h, a) && |m0| == ram.Length
      ensures WF(h) && Tiled(h) && Listed(h) && h.brk <= ram.Length && a + 4 <= ram.Length && a in h.size
      ensures h.start <= a && a + 4 <= h.brk
      ensures var k := Pos(h.fl, a);
              var fp1 := Link(h.fl, k);
              var g := Insert(h, a, k);
              && (fp1 != 0 ==> fp1 in h.size && fp1 != a && fp1 < ADDRESSES && Link(h.fl, k + 1) < ADDRESSES)
              && if fp1 != 0 && h.End(a) == fp1
                 then h.size[a] + 2 + h.size[fp1] < ADDRESSES && g.size[a] == h.size[a] + 2 + h.size[fp1] &&
                      Link(g.fl, k + 1) == Link(h.fl, k + 1)
                 else g.size[a] == h.size[a] && Link(g.fl, k + 1) == fp1
    {
      hide Headers, Links, Word, Coalesced;
      var k := Pos(h.fl, a);
      PosSplits(h.fl, a);
      assert k < |h.fl| ==> h.fl[k] in h.fl;
      assert k + 1 < |h.fl| ==> h.fl[k + 1] in h.fl;
    }

    lemma LoadsSame(a: nat, h: Heap, m0: seq<byte>)
      requires Represents(m0, flp, h) && IsLive(h, a) && OthersSame(m0, ram[..], h, a)
      ensures Load(a) == Word(ram[..], a)
      ensures var k := Pos(h.fl, a);
              var fp1 := Link(h.fl, k);
              fp1 != 0 ==> fp1 in h.size && Load(fp1) == h.size[fp1] && Load(fp1 + 2) == Link(h.fl, k + 1)
    {
      hide Tiles, Coalesced, Increasing, Word, Load;
      LoadIsWord(a);
      var k := Pos(h.fl, a);
      if k < |h.fl| {
        assert h.fl[k] in h.fl;
        assert SameChunk(m0, ram[..], h, h.fl[k]);
        LoadIsWord(h.fl[k]);
        LoadIsWord(h.fl[k] + 2);
      }
    }

    /** Lead the list to the freed chunk at `a`; `heap` becomes the heap with it inserted. */
    method LinkLower(a: nat, fp2: nat, ghost m0: seq<byte>)
      requires ram.Length <= ADDRESSES && heap.start == heapStart && brkval == heap.brk
      requires Represents(m0, flp, heap) && IsLive(heap, a) && a < ADDRESSES && OthersSame(m0, ram[..], heap, a)
      requires fp2 == Prev(heap.fl, Pos(heap.fl, a))
      requires var k := Pos(heap.fl, a); var g := Insert(heap, a, k);
               Word(ram[..], a) == g.size[a] && Word(ram[..], a + 2) == Link(g.fl, k + 1)
      modifies this`flp, this`heap, ram
      ensures Consistent() && heap == Insert(old(heap), a, Pos(old(heap).fl, a))
      ensures KeepsPayloads(m0, ram[..], old(heap), a)
      ensures Within(old(ram[..]), ram[..], heapStart, old(heap).brk) && heap.brk == old(heap).brk
    {
      hide Represents, WF, Tiles, Tiled, Coalesced, Listed, Increasing, IsLive, Word, Holds, Within;
      ghost var k, m1, f := Pos(heap.fl, a), ram[..], flp;
      LinkLowerFacts(a, m0);
      Relink(fp2, a, k);
      LinkLowerDone(m0, f, m1, ram[..], flp, heap, a);
      heap := Insert(heap, a, k);
    }

    lemma LinkLowerFacts(a: nat, m0: seq<byte>)
      requires Represents(m0, flp, heap) && IsLive(heap, a) && |m0| == ram.Length
      ensures WF(heap) && Tiled(heap) && Listed(heap) && heap.brk <= ram.Length && a in heap.size
      ensures var k := Pos(heap.fl, a); var fp2 := Prev(heap.fl, k);
              (0 < k <==> fp2 != 0) && (0 < k ==> fp2 in heap.size && fp2 != a && fp2 + 2 + heap.size[fp2] <= a && 2 <= heap.size[fp2])
    {
      PosSplits(heap.fl, a);
      var k := Pos(heap.fl, a);
      assert 0 < k ==> heap.fl[k - 1] in heap.fl;
    }
  
    /** Merge list entry `k`, the chunk at `a`, into the entry `fp2` before it when they touch. */
    method JoinBelow(a: nat, fp2: nat, ghost k: nat)
      requires Consistent() && 0 < k < |heap.fl| && heap.fl[k] == a && fp2 == heap.fl[k - 1]
      modifies this`heap, ram
      ensures Consistent() && heap == JoinLower(old(heap), k)
      ensures KeepsPayloads(old(ram[..]), ram[..], old(heap), 0)
      ensures Within(old(ram[..]), ram[..], heapStart, old(heap).brk) && heap.brk == old(heap).brk
    {
      hide WF, Tiles, Coalesced, Increasing, IsLive, Word, Load, Links, Headers, KeepsPayloads, Within;
      EntryBounds(k - 1);
      EntryBounds(k);
      EntryWords(k - 1);
      EntryWords(k);
      ghost var m := ram[..];
      KeepsSelf(m, heap, 0);
      WithinSelf(m, heapStart, heap.brk);
      if fp2 + 2 + Load(fp2) == a {
        Store(fp2, Load(fp2) + Load(a) + 2);
        ghost var m1 := ram[..];
        StoreWithin(m, m1, fp2, heap.size[fp2] + heap.size[a] + 2, heapStart, heap.brk);
        LoadAfter(m, fp2, heap.size[fp2] + heap.size[a] + 2, a + 2);
        Store(fp2 + 2, Load(a + 2));
        StoreWithin(m1, ram[..], fp2 + 2, Link(heap.fl, k + 1), heapStart, heap.brk);
        WithinMore(m, m1, ram[..], heapStart, heap.brk, heapStart, heap.brk);
        JoinLowerHolds(m, m1, ram[..], flp, heap, k);
      }
      heap := JoinLower(heap, k);
    }

    lemma EntryBounds(k: nat)
      requires Holds(ram[..], flp, heap) && ram.Length <= ADDRESSES && k < |heap.fl|
      ensures var f := heap.fl[k];
              && f in heap.size && f != 0 && f + 4 <= ram.Length && f + 2 + heap.size[f] <= heap.brk < ADDRESSES
              && heap.start <= f && f + 4 <= heap.brk <= ram.Length
              && Link(heap.fl, k + 1) < ADDRESSES
              && (k + 1 < |heap.fl| ==> heap.fl[k + 1] in heap.size && f + 4 <= heap.fl[k + 1] &&
                                        heap.size[f] + 2 + heap.size[heap.fl[k + 1]] < ADDRESSES)
    {
      hide Headers, Links, Word;
      assert heap.fl[k] in heap.fl;
      assert k + 1 < |heap.fl| ==> heap.fl[k + 1] in heap.fl;
    }

    lemma EntryWords(k: nat)
      requires Holds(ram[..], flp, heap) && ram.Length <= ADDRESSES && k < |heap.fl|
      ensures heap.fl[k] in heap.size && Load(heap.fl[k]) == heap.size[heap.fl[k]]
      ensures Load(heap.fl[k] + 2) == Link(heap.fl, k + 1) == Word(ram[..], heap.fl[k] + 2)
    {
      hide Tiles, Increasing, Listed, Word, Load;
      EntryBounds(k);
      LoadIsWord(heap.fl[k]);
      LoadIsWord(heap.fl[k] + 2);
    }

    lemma LoadIsWord(a: nat)
      ensures Load(a) == Word(ram[..], a)
    {
    }

    lemma LoadAfter(m: seq<byte>, x: nat, v: nat, b: nat)
      requires Stored(m, ram[..], x, v) && x + 2 <= b && b + 1 < |m|
      ensures Load(b) == Word(m, b)
    {
    }

    /** If the last free chunk has become topmost, drop it and lower the break. */
    method TrimTop()
      requires Consistent() && heap.fl != []
      modifies this, ram
      ensures Consistent() && heap == Trim(old(heap))
      ensures KeepsPayloads(old(ram[..]), ram[..], old(heap), 0)
      ensures Within(old(ram[..]), ram[..], heapStart, old(heap).brk)
    {
      hide WF, Tiles, Coalesced, Increasing, IsLive, Word, Load, Links, Headers, KeepsPayloads, Within;
      ghost var n := |heap.fl| - 1;
      var fp1, fp2 := LastEntry();
      EntryBounds(n);
      EntryWords(n);
      ghost var m, f := ram[..], flp;
      KeepsSelf(m, heap, 0);
      WithinSelf(m, heapStart, heap.brk);
      if fp1 + 2 + Load(fp1) == brkval {
        Relink(fp2, 0, n);
        TrimHolds(m, f, ram[..], flp, heap);
        brkval := fp1;
      }
      heap := Trim(heap);
    }

    /** Walk to the last list entry, remembering the one before it. */
    method LastEntry() returns (fp1: nat, fp2: nat)
      requires Consistent() && heap.fl != []
      ensures fp1 == heap.fl[|heap.fl| - 1] && fp2 == Prev(heap.fl, |heap.fl| - 1)
    {
      hide WF, Tiles, Coalesced, Increasing, IsLive, Word, Load, Links, Headers;
      fp1, fp2 := flp, 0;
      ghost var k := 0;
      HeadFacts();
      EntryWords(0);
      while Load(fp1 + 2) != 0
        invariant k < |heap.fl| && fp1 == heap.fl[k] && fp2 == Prev(heap.fl, k)
        invariant Load(fp1 + 2) == Link(heap.fl, k + 1)
        decreases |heap.fl| - k
      {
        k := k + 1;
        EntryWords(k);
        fp2, fp1 := fp1, Load(fp1 + 2);
      }
      if k + 1 < |heap.fl| { EntryBounds(k + 1); }
    }

    lemma HeadFacts()
      requires Consistent() && heap.fl != []
      ensures flp == heap.fl[0]
    {
    }
  
    /** The trivial case of free: no list yet. */
    method FreeIntoEmptyList(a: nat, ghost m0: seq<byte>)
      requires ram.Length <= ADDRESSES && heap.start == heapStart && brkval == heap.brk && |m0| == ram.Length
      requires flp == 0 && Represents(m0, flp, heap) && IsLive(heap, a) && heap.fl == [] && OthersSame(m0, ram[..], heap, a)
      requires Word(ram[..], a) == heap.size[a] && Word(ram[..], a + 2) == 0 && a + 3 < ram.Length
      modifies this, ram
      ensures Valid() && heap == Freed(old(heap), a) && KeepsPayloads(m0, ram[..], old(heap), a)
      ensures Within(old(ram[..]), ram[..], heapStart, old(heap).brk) && heap.brk <= old(heap).brk
    {
      hide Tiles, Coalesced, Increasing, Word, Load, KeepsPayloads, OthersSame, Links, Headers, Live, Within;
      BlockAt(heap, a);
      WithinSelf(ram[..], heapStart, heap.brk);
      ghost var h := heap;
      FreedIntoEmptyList(h, a);
      FreedKeeps(h, a);
      LoadIsWord(a);
      if a + 2 + Load(a) == brkval {
        TopFreedIntoEmptyList(m0, ram[..], h, a);
        brkval := a;
        heap := Freed(h, a);
      } else {
        LinkLower(a, 0, m0);
      }
    }

    lemma BlockAt(h: Heap, a: nat)
      requires WF(h) && IsLive(h, a)
      ensures h.start <= a && a + 4 <= h.brk
    {
    }

    /** fpnew->nx = 0 */
    method ClearLink(p: nat)
      requires p + 1 < ram.Length
      modifies ram
      ensures ram[..] == LinkCleared(old(ram[..]), p) && Stored(old(ram[..]), ram[..], p, 0)
    {
      Store(p, 0);
      assert ram[p] as int + 256 * (ram[p + 1] as int) == 0;
    }

    method Free(p: nat)
      requires Valid() && (p == 0 || (2 <= p && IsLive(heap, p - 2)))
      modifies this, ram
      ensures Valid()
      ensures p == 0 ==> heap == old(heap) && ram[..] == old(ram[..])
      ensures p != 0 ==> heap == Freed(old(heap), p - 2) && KeepsPayloads(old(ram[..]), ram[..], old(heap), p - 2)
      ensures Within(old(ram[..]), ram[..], heapStart, old(heap).brk) && heap.brk <= old(heap).brk
    {
      hide Represents, WF, Tiles, Tiled, Coalesced, Listed, Increasing, IsLive, Word, Load, KeepsPayloads, OthersSame,
           Holds, Insert, JoinLower, Trim, Within;
      BrkBounds();
      WithinSelf(ram[..], heapStart, heap.brk);
      if p == 0 { return; }
      var cpnew := p - 2;
      ghost var h, m0 := heap, ram[..];
      LiveFacts(cpnew);
      BlockAt(h, cpnew);
      ClearLink(p);
      StoreOthers(m0, m0, ram[..], h, cpnew, cpnew + 2, 0);
      StoreWithin(m0, ram[..], p, 0, heapStart, h.brk);
      ghost var n0 := ram[..];
      if flp == 0 {
        FreeIntoEmptyList(cpnew, m0);
        WithinMore(m0, n0, ram[..], heapStart, h.brk, heapStart, h.brk);
        return;
      }
      var fp1, fp2 := FindPlace(cpnew, h, m0);
      LinkUpper(cpnew, fp1, h, m0);
      ghost var n1 := ram[..];
      WithinMore(m0, n0, n1, heapStart, h.brk, heapStart, h.brk);
      LinkLower(cpnew, fp2, m0);
      WithinMore(m0, n1, ram[..], heapStart, h.brk, heapStart, h.brk);
      if fp2 == 0 {
        HeadFreed(h, cpnew, fp2);
        FreedKeeps(h, cpnew);
        StillValid();
        return;
      }
      ghost var k, m1 := Pos(h.fl, cpnew), ram[..];
      GeneralCase(h, cpnew, fp2);
      JoinBelow(cpnew, fp2, k);
      ghost var m2 := ram[..];
      WithinMore(m0, m1, m2, heapStart, h.brk, heapStart, h.brk);
      TrimTop();
      WithinMore(m0, m2, ram[..], heapStart, h.brk, heapStart, h.brk);
      FreePayloads(m0, m1, m2, ram[..], h, cpnew);
      FreedKeeps(h, cpnew);
      StillValid();
    }

    lemma GeneralCase(h: Heap, a: nat, fp2: nat)
      requires WF(h) && IsLive(h, a) && fp2 == Prev(h.fl, Pos(h.fl, a)) != 0
      ensures 0 < Pos(h.fl, a) && Linked(h, a).fl[Pos(h.fl, a) - 1] == fp2 && Joined(h, a).fl != []
    {
    }

    lemma LiveFacts(a: nat)
      requires Valid() && IsLive(heap, a)
      ensures a + 3 < ram.Length && a in heap.size && Tiled(heap) && heap.brk <= ram.Length && brkval == heap.brk
      ensures OthersSame(ram[..], ram[..], heap, a) && Load(a) == heap.size[a] == Word(ram[..], a) && WF(heap)
      ensures flp == 0 <==> heap.fl == []
    {
      assert heap.fl != [] ==> heap.fl[0] in heap.fl;
    }

    lemma PrevNotNull(h: Heap, k: nat)
      requires WF(h) && 0 < k <= |h.fl|
      ensures Prev(h.fl, k) != 0
    {
      assert h.fl[k - 1] in h.fl;
    }

    lemma StillValid()
      requires Consistent() && WF(heap)
      ensures Valid()
    {
    }

    lemma HeadFreed(h: Heap, a: nat, fp2: nat)
      requires WF(h) && IsLive(h, a) && h.fl != [] && fp2 == Prev(h.fl, Pos(h.fl, a)) == 0
      ensures Freed(h, a) == Insert(h, a, Pos(h.fl, a))
    {
      if 0 < Pos(h.fl, a) { PrevNotNull(h, Pos(h.fl, a)); }
      FreedAtHead(h, a);
    }
  
    // ----- realloc -----

    /** Shrink in place: give the tail a header of its own and free it. */
    method Shrink(a: nat, cp: nat, len: nat)
      requires Valid() && IsLive(heap, a) && 2 <= len && len + 4 <= heap.size[a] && cp == a + 2 + len
      modifies this, ram
      ensures Valid() && heap == CutOff(old(heap), a, len)
      ensures KeepsPayloads(old(ram[..]), ram[..], old(heap), a)
      ensures CopiesPrefix(old(ram[..]), ram[..], a + 2, a + 2, len)
      ensures Within(old(ram[..]), ram[..], heapStart, Max(old(heap).brk, heap.brk))
    {
      hide Tiles, Tiled, Coalesced, Listed, Increasing, Word, Load, KeepsPayloads, OthersSame, Links, Headers, Freed,
           SameBytes, CopiesPrefix, Stored, Within;
      ghost var h, m := heap, ram[..];
      BlockBounds(a);
      Store(cp, Load(a) - len - 2);
      ghost var m1 := ram[..];
      Store(a, len);
      ghost var m2 := ram[..];
      StoreWithin(m, m1, cp, h.size[a] - len - 2, heapStart, h.brk);
      StoreWithin(m1, m2, a, len, heapStart, h.brk);
      WithinMore(m, m1, m2, heapStart, h.brk, heapStart, h.brk);
      ShrunkHolds(m, m1, m2, flp, h, a, len);
      ShrunkLive(h, a, len);
      heap := Shrunk(h, a, len);
      Free(cp + 2);
      WithinMore(m, m2, ram[..], heapStart, h.brk, heapStart, h.brk);
      ShrunkPayloads(m, m2, ram[..], h, a, len);
    }

    lemma BlockBounds(a: nat)
      requires Valid() && IsLive(heap, a)
      ensures a in heap.size && 2 <= heap.size[a] && a + 2 + heap.size[a] <= heap.brk <= ram.Length && heap.brk < ADDRESSES
      ensures Load(a) == heap.size[a] && brkval == heap.brk && 2 <= a && heapStart <= a
    {
    }
    /** Grow block `a` into free chunk `fp3` just above it, list entry `k`, and leave the rest free.
        The new list node may overlap the old one, so its link is written before its size. */
    method GrowSplitting(a: nat, fp3: nat, ofp3: nat, len: nat, ghost k: nat)
      requires Valid() && IsLive(heap, a) && len < ADDRESSES && heap.size[a] < len
      requires k < |heap.fl| && heap.fl[k] in heap.size && fp3 == heap.fl[k] == heap.End(a) && ofp3 == Prev(heap.fl, k)
      requires heap.size[fp3] + 2 - (len - heap.size[a]) > 4
      modifies this, ram
      ensures Valid() && heap == GrownSplit(old(heap), a, k, len)
      ensures KeepsPayloads(old(ram[..]), ram[..], old(heap), a)
      ensures CopiesPrefix(old(ram[..]), ram[..], a + 2, a + 2, old(heap).size[a])
      ensures Within(old(ram[..]), ram[..], heapStart, Max(old(heap).brk, heap.brk))
    {
      hide Tiles, Coalesced, Increasing, Word, Load, KeepsPayloads, OthersSame, Links, Headers, SameBytes, Stored,
           GrownSplit, Relinked, Live, CopiesPrefix, IsLive, Within;
      ghost var h, m, f := heap, ram[..], flp;
      BlockBounds(a);
      AtEntry(k);
      AboveBounds(a, k);
      LoadIsWord(fp3);
      LoadIsWord(fp3 + 2);
      var incr := len - Load(a);
      var fp2 := a + 2 + len;
      Store(fp2 + 2, Load(fp3 + 2));
      ghost var m1 := ram[..];
      LoadIsWord(fp3);
      SizeSurvives(m, m1, h, a, fp3, len);
      Store(fp2, Load(fp3) - incr);
      ghost var m2 := ram[..];
      Store(a, len);
      ghost var m3 := ram[..];
      StoreWithin(m, m1, fp2 + 2, Word(m, fp3 + 2), heapStart, h.brk);
      StoreWithin(m1, m2, fp2, Word(m1, fp3) - incr, heapStart, h.brk);
      WithinMore(m, m1, m2, heapStart, h.brk, heapStart, h.brk);
      StoreWithin(m2, m3, a, len, heapStart, h.brk);
      WithinMore(m, m2, m3, heapStart, h.brk, heapStart, h.brk);
      GrownSplitWords(m, m1, m2, m3, h, a, fp3, len);
      Relink(ofp3, fp2, k);
      WithinMore(m, m3, ram[..], heapStart, h.brk, heapStart, h.brk);
      GrownSplitHolds(m, f, m3, ram[..], flp, h, a, k, len);
      SameBytesChain(m, m3, ram[..], a + 2, h.End(a));
      SameIsCopy(m, ram[..], a + 2, h.size[a]);
      GrownFrame(h, a, k, len);
      heap := GrownSplit(h, a, k, len);
    }

    /** Grow block `a` over the whole of free chunk `fp3` just above it, list entry `k`. */
    method GrowWhole(a: nat, fp3: nat, ofp3: nat, ghost k: nat)
      requires Valid() && IsLive(heap, a)
      requires k < |heap.fl| && heap.fl[k] in heap.size && fp3 == heap.fl[k] == heap.End(a) && ofp3 == Prev(heap.fl, k)
      modifies this, ram
      ensures Valid() && heap == GrownOver(old(heap), a, k)
      ensures KeepsPayloads(old(ram[..]), ram[..], old(heap), a)
      ensures CopiesPrefix(old(ram[..]), ram[..], a + 2, a + 2, old(heap).size[a])
      ensures Within(old(ram[..]), ram[..], heapStart, Max(old(heap).brk, heap.brk))
    {
      hide Tiles, Coalesced, Increasing, Word, Load, KeepsPayloads, OthersSame, Links, Headers, SameBytes, Stored,
           GrownOver, Relinked, Live, CopiesPrefix, IsLive, Within;
      ghost var h, m, f := heap, ram[..], flp;
      BlockBounds(a);
      AtEntry(k);
      AboveBounds(a, k);
      LoadIsWord(fp3 + 2);
      Store(a, Load(a) + Load(fp3) + 2);
      ghost var m1 := ram[..];
      StoreWithin(m, m1, a, h.size[a] + h.size[fp3] + 2, heapStart, h.brk);
      NextSurvives(m, m1, h, a, fp3);
      LoadIsWord(fp3 + 2);
      Relink(ofp3, Load(fp3 + 2), k);
      WithinMore(m, m1, ram[..], heapStart, h.brk, heapStart, h.brk);
      GrownOverHolds(m, f, m1, ram[..], flp, h, a, k);
      SameIsCopy(m, ram[..], a + 2, h.size[a]);
      GrownOverFrame(h, a, k);
      heap := GrownOver(h, a, k);
    }

    lemma AboveBounds(a: nat, k: nat)
      requires Valid() && IsLive(heap, a) && k < |heap.fl| && heap.fl[k] == heap.End(a)
      ensures Tiled(heap) && Listed(heap) && heap.End(a) in heap.size
      ensures heap.End(a) + 2 + heap.size[heap.End(a)] <= heap.brk
    {
      assert heap.fl[k] in heap.fl;
    }

    /** Raise the break over the growth of the topmost block. */
    method ExtendTop(a: nat, cp: nat, len: nat)
      requires Valid() && IsLive(heap, a) && heap.size[a] < len && heap.End(a) == heap.brk
      requires cp == a + 2 + len < ADDRESSES && cp <= ram.Length
      modifies this, ram
      ensures Valid() && heap == Extended(old(heap), a, len, cp)
      ensures KeepsPayloads(old(ram[..]), ram[..], old(heap), a)
      ensures CopiesPrefix(old(ram[..]), ram[..], a + 2, a + 2, old(heap).size[a])
      ensures Within(old(ram[..]), ram[..], heapStart, Max(old(heap).brk, heap.brk))
    {
      hide Tiles, Coalesced, Increasing, Word, Load, KeepsPayloads, Links, Headers, SameBytes, Stored, Live, CopiesPrefix, Within;
      ghost var h, m := heap, ram[..];
      BlockBounds(a);
      brkval := cp;
      Store(a, len);
      StoreWithin(m, ram[..], a, len, heapStart, cp);
      ExtendedHolds(m, ram[..], flp, h, a, len);
      SameIsCopy(m, ram[..], a + 2, h.size[a]);
      heap := Extended(h, a, len, cp);
    }

    method CopyBytes(dst: nat, src: nat, n: nat)
      requires dst + n <= ram.Length && src + n <= ram.Length && (dst + n <= src || src + n <= dst)
      modifies ram
      ensures CopiesPrefix(old(ram[..]), ram[..], src, dst, n)
      ensures SameBytes(old(ram[..]), ram[..], 0, dst) && SameBytes(old(ram[..]), ram[..], dst + n, ram.Length)
      ensures Within(old(ram[..]), ram[..], dst, dst + n)
    {
      for i := 0 to n
        invariant forall j :: dst <= j < dst + i ==> ram[j] == old(ram[j - dst + src])
        invariant forall j :: 0 <= j < ram.Length && !(dst <= j < dst + i) ==> ram[j] == old(ram[j])
      {
        ram[dst + i] := ram[src + i];
      }
    }

    /** Allocate a new chunk, copy the data over, release the old region. */
    method Move(a: nat, len: nat, limit: nat) returns (memp: nat)
      requires Valid() && IsLive(heap, a) && heap.size[a] < len < ADDRESSES && limit <= ram.Length && limit < ADDRESSES
      modifies this, ram
      ensures Valid() && (heap, memp) == Moved(old(heap), a, len, limit)
      ensures KeepsPayloads(old(ram[..]), ram[..], old(heap), if memp == 0 then 0 else a)
      ensures memp != 0 ==> CopiesPrefix(old(ram[..]), ram[..], a + 2, memp, old(heap).size[a])
      ensures Within(old(ram[..]), ram[..], heapStart, Max(old(heap).brk, heap.brk))
    {
      hide Tiles, Tiled, Coalesced, Listed, Increasing, Word, Load, KeepsPayloads, Links, Headers, SameBytes,
           CopiesPrefix, Freed, HeapAlloc.Malloc, Live, Within;
      ghost var h, m := heap, ram[..];
      BlockBounds(a);
      memp := Malloc(len, limit);
      MallocAddsOne(h, len, limit);
      if memp == 0 { return; }
      ghost var g, m1 := heap, ram[..];
      MovePath(h, a, len, limit);
      BlockBounds(a);
      BlockBounds(memp - 2);
      StillThere(h, g, a, memp - 2);
      CopyBytes(memp, a + 2, Load(a));
      ghost var m2 := ram[..];
      WithinMore(m, m1, m2, heapStart, g.brk, memp, memp + h.size[a]);
      PayloadWritten(m1, m2, flp, g, memp - 2, h.size[a]);
      Free(a + 2);
      WithinMore(m, m2, ram[..], heapStart, g.brk, heapStart, g.brk);
      MovedBreak(h, a, len, limit);
      if g.brk <= h.brk { WithinUp(m, ram[..], heapStart, g.brk, h.brk); }
      MovedPayloads(m, m1, m2, ram[..], h, g, a, memp - 2);
    }

    lemma StillThere(h: Heap, g: Heap, a: nat, b: nat)
      requires WF(h) && WF(g) && IsLive(h, a) && IsLive(g, a) && IsLive(g, b) && !IsLive(h, b)
      requires Live(g) == Live(h)[b := g.size[b]]
      ensures g.size[a] == h.size[a] && 0 !in h.size && a != b && (g.End(a) <= b || g.End(b) <= a)
    {
      assert a in Live(h);
      assert Live(g)[a] == Live(h)[a];
    }

    /** realloc.  Before a store that would break the heap the model stops, with `sound` false; what the
        source would leave behind is Realloc's value, which ReallocBreaks shows not to be well formed. */
    method Realloc(ptr: nat, len: nat, limit: nat) returns (r: nat, sound: bool)
      requires Valid() && len < ADDRESSES && limit <= ram.Length && limit < ADDRESSES
      requires ptr == 0 || (2 <= ptr && IsLive(heap, ptr - 2))
      modifies this, ram
      ensures Valid()
      ensures sound <==> ptr == 0 || ReallocSafe(old(heap), ptr - 2, len, limit)
      ensures !sound ==> r == 0 && heap == old(heap)
      ensures ptr == 0 ==> (heap, r) == HeapAlloc.Malloc(old(heap), len, limit)
      ensures ptr != 0 && sound ==> (heap, r) == HeapRealloc.Realloc(old(heap), ptr - 2, len, limit)
      ensures KeepsPayloads(old(ram[..]), ram[..], old(heap), if r == 0 || ptr == 0 then 0 else ptr - 2)
      ensures ptr != 0 && r != 0 ==> CopiesPrefix(old(ram[..]), ram[..], ptr, r, Min(old(heap).size[ptr - 2], len))
      ensures Within(old(ram[..]), ram[..], heapStart, Max(old(heap).brk, heap.brk))
    {
      hide Represents, WF, Tiles, Tiled, Coalesced, Listed, Increasing, IsLive, Word, Load, KeepsPayloads, OthersSame,
           Holds, Insert, JoinLower, Trim, Freed, CopiesPrefix, GrownSplit, GrownOver, Extended, HeapAlloc.Malloc,
           ReallocSafe, CutOff, Moved, MaxFree, Within, Max;
      sound := true;
      if ptr == 0 {
        r := Malloc(len, limit);
        MaxOf(old(heap).brk, heap.brk);
        return;
      }
      BrkBounds();
      WithinSelf(ram[..], heapStart, Max(heap.brk, heap.brk));
      var cp1 := ptr - 2;
      var cp := (ptr + len) % ADDRESSES;
      ghost var h, m := heap, ram[..];
      LiveFacts(cp1);
      BlockBounds(cp1);
      BlockUnchanged(cp1, Min(h.size[cp1], len));
      WhenUnsafe(h, cp1, len, limit);
      if cp < cp1 { return 0, true; }
      if len <= Load(cp1) {
        if Load(cp1) <= 4 || len > Load(cp1) - 4 { return ptr, true; }
        if len < 2 { return 0, false; }
        Shrink(cp1, cp, len);
        return ptr, true;
      }
      var incr := len - Load(cp1);
      var fp3, ofp3, s := FindAbove(ptr + Load(cp1), incr);
      if fp3 != 0 {
        ghost var k := Pos(h.fl, fp3);
        NextIsPos(h, cp1);
        AtEntry(k);
        if Load(fp3) + 2 - incr > 4 {
          GrowSplitting(cp1, fp3, ofp3, len, k);
        } else {
          GrowWhole(cp1, fp3, ofp3, k);
        }
        return ptr, true;
      }
      if brkval == ptr + Load(cp1) && len > s {
        if cp < limit {
          if cp != ptr + len { return 0, false; }
          ExtendTop(cp1, cp, len);
          return ptr, true;
        }
        return 0, true;
      }
      r := Move(cp1, len, limit);
    }

    lemma MaxOf(a: nat, b: nat)
      requires a <= b
      ensures Max(a, b) == b
    {
    }

    /** The client writes byte `i` of its block at `a`. */
    method PutByte(a: nat, i: nat, v: byte)
      requires Valid() && IsLive(heap, a) && i < heap.size[a]
      modifies ram
      ensures Valid() && a + 2 + i < ram.Length && ram[..] == old(ram[..])[a + 2 + i := v]
    {
      BlockBounds(a);
      ghost var m := ram[..];
      ram[a + 2 + i] := v;
      PayloadWritten(m, ram[..], flp, heap, a, heap.size[a]);
    }

    lemma BlockUnchanged(a: nat, n: nat)
      requires Valid() && IsLive(heap, a) && n <= heap.size[a]
      ensures CopiesPrefix(ram[..], ram[..], a + 2, a + 2, n)
      ensures KeepsPayloads(ram[..], ram[..], heap, 0) && KeepsPayloads(ram[..], ram[..], heap, a)
    {
      KeepsSelf(ram[..], heap, 0);
      KeepsSelf(ram[..], heap, a);
    }

    /** Look for the free chunk at `up`; `s` is the largest chunk seen on the way. */
    method FindAbove(up: nat, incr: nat) returns (fp3: nat, ofp3: nat, s: nat)
      requires Valid() && up != 0
      ensures if up in heap.fl && incr <= heap.size[up] + 2
              then fp3 == up && ofp3 == Prev(heap.fl, Pos(heap.fl, up))
              else fp3 == 0 && s == MaxFree(heap, |heap.fl|)
    {
      hide Valid, Represents, WF, Tiles, Tiled, Coalesced, Listed, Increasing, Load, MaxFree;
      fp3, ofp3, s := flp, 0, 0;
      ghost var k := 0;
      AtHead();
      MaxFreeNone(heap);
      while fp3 != 0
        invariant k <= |heap.fl| && fp3 == Link(heap.fl, k) && ofp3 == Prev(heap.fl, k)
        invariant s == MaxFree(heap, k)
        invariant up in heap.fl[..k] ==> heap.size[up] + 2 < incr
        decreases |heap.fl| - k
      {
        AtEntry(k);
        MaxFreeNext(heap, k);
        if fp3 == up && Load(fp3) + 2 >= incr {
          PosOfEntry(heap, k);
          return;
        }
        if Load(fp3) > s { s := Load(fp3); }
        ofp3, fp3 := fp3, Load(fp3 + 2);
        k := k + 1;
      }
      LinkNotNull(k);
      assert heap.fl[..k] == heap.fl;
    }

    lemma LinkNotNull(k: nat)
      requires Valid()
      ensures k < |heap.fl| ==> Link(heap.fl, k) != 0
    {
      if k < |heap.fl| { AtEntry(k); }
    }

    lemma MaxFreeNone(h: Heap)
      requires Listed(h)
      ensures MaxFree(h, 0) == 0
    {
    }

    lemma MaxFreeNext(h: Heap, k: nat)
      requires Listed(h) && k < |h.fl| && h.fl[k] in h.size
      ensures MaxFree(h, k + 1) == if MaxFree(h, k) < h.size[h.fl[k]] then h.size[h.fl[k]] else MaxFree(h, k)
    {
    }

    lemma PosOfEntry(h: Heap, k: nat)
      requires Listed(h) && k < |h.fl|
      ensures h.fl[k] in h.fl && Pos(h.fl, h.fl[k]) == k
    {
      PosOfMember(h.fl, h.fl[k]);
    }
  }
}
