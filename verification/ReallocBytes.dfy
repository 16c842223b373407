/** What realloc's stores do to the bytes, path by path. */
module ReallocBytes {
  import opened HeapSpec
  import opened HeapOps
  import opened HeapRealloc
  import opened HeapBytes

  /** Every chunk but `a` and `b` is the same in both. */
  ghost predicate SameBut(m: seq<byte>, m': seq<byte>, h: Heap, a: nat, b: nat) {
    |m'| == |m| && forall c :: c in h.size && c != a && c != b ==> SameChunk(m, m', h, c)
  }

  lemma SameButChain(m: seq<byte>, m1: seq<byte>, m2: seq<byte>, h: Heap, a: nat, b: nat)
    requires SameBut(m, m1, h, a, b) && SameBut(m1, m2, h, a, b)
    ensures SameBut(m, m2, h, a, b)
  {
    hide Word;
    forall c | c in h.size && c != a && c != b ensures SameChunk(m, m2, h, c) {
      assert SameChunk(m, m1, h, c) && SameChunk(m1, m2, h, c);
    }
  }

  lemma SameChunkSelf(m: seq<byte>, h: Heap, c: nat)
    requires Tiled(h) && h.brk <= |m| && c in h.size
    ensures SameChunk(m, m, h, c)
  {
  }

  // ----- shrinking -----

  /** The header of the part cut off, then the smaller size of the block itself. */
  lemma ShrunkWords(m: seq<byte>, m1: seq<byte>, m2: seq<byte>, h: Heap, a: nat, len: nat)
    requires Tiled(h) && h.brk <= |m| && a in h.size && 2 <= len && len + 4 <= h.size[a]
    requires Stored(m, m1, a + 2 + len, h.size[a] - len - 2) && Stored(m1, m2, a, len)
    ensures SameBut(m, m2, h, a, a) && Word(m2, a) == len && Word(m2, a + 2 + len) == h.size[a] - len - 2
    ensures SameBytes(m, m2, a + 2, a + 2 + len)
  {
    StoreElsewhere(m, m1, h, a, a + 2 + len, h.size[a] - len - 2);
    StoreElsewhere(m1, m2, h, a, a, len);
    SameButChain(m, m1, m2, h, a, a);
  }

  lemma ShrunkHolds(m: seq<byte>, m1: seq<byte>, m2: seq<byte>, flp: nat, h: Heap, a: nat, len: nat)
    requires Represents(m, flp, h) && IsLive(h, a) && 2 <= len && len + 4 <= h.size[a]
    requires Stored(m, m1, a + 2 + len, h.size[a] - len - 2) && Stored(m1, m2, a, len)
    ensures Represents(m2, flp, Shrunk(h, a, len)) && KeepsPayloads(m, m2, h, a)
    ensures SameBytes(m, m2, a + 2, a + 2 + len)
  {
    hide Tiles, Coalesced, Word, Links, Increasing, Live, Stored, SameChunk;
    ShrunkWords(m, m1, m2, h, a, len);
    ShrunkKeeps(h, a, len);
    OthersKept(m, m2, h, a);
    ShrunkHeaders(m, m2, h, a, len);
    FreeWordsKept(m, m2, h, a, a);
    LinksKept(m, m2, flp, h.fl);
  }

  /** Shrinking, then freeing the part cut off, seen as one step. */
  lemma ShrunkPayloads(m: seq<byte>, m2: seq<byte>, m3: seq<byte>, h: Heap, a: nat, len: nat)
    requires WF(h) && IsLive(h, a) && 2 <= len && len + 4 <= h.size[a] && |m| == |m2| == |m3| && h.brk <= |m|
    requires KeepsPayloads(m, m2, h, a) && SameBytes(m, m2, a + 2, a + 2 + len)
    requires KeepsPayloads(m2, m3, Shrunk(h, a, len), a + 2 + len)
    ensures KeepsPayloads(m, m3, h, a) && CopiesPrefix(m, m3, a + 2, a + 2, len)
  {
    hide Tiles, Coalesced, Live;
    ShrunkLive(h, a, len);
    var g := Shrunk(h, a, len);
    assert SameBytes(m2, m3, a + 2, g.End(a));
    forall b: nat | IsLive(h, b) && b != a ensures SameBytes(m, m3, b + 2, h.End(b)) {
      assert IsLive(g, b) && b != a + 2 + len && g.End(b) == h.End(b);
      assert SameBytes(m, m2, b + 2, h.End(b)) && SameBytes(m2, m3, b + 2, g.End(b));
    }
  }

  lemma ShrunkHeaders(m: seq<byte>, m2: seq<byte>, h: Heap, a: nat, len: nat)
    requires Headers(m, h) && a in h.size && len + 4 <= h.size[a] && SameBut(m, m2, h, a, a)
    requires Word(m2, a) == len && Word(m2, a + 2 + len) == h.size[a] - len - 2
    ensures Headers(m2, Shrunk(h, a, len))
  {
    hide Word;
    forall b | b in h.size && b != a ensures Word(m2, b) == h.size[b] { assert SameChunk(m, m2, h, b); }
  }

  lemma FreeWordsKept(m: seq<byte>, m': seq<byte>, h: Heap, a: nat, b: nat)
    requires Listed(h) && SameBut(m, m', h, a, b) && a !in h.fl && b !in h.fl
    ensures forall f :: f in h.fl ==> Word(m', f + 2) == Word(m, f + 2)
  {
    hide Word, Increasing;
    forall f | f in h.fl ensures Word(m', f + 2) == Word(m, f + 2) { assert SameChunk(m, m', h, f); }
  }

  // ----- growing into the chunk above -----

  /** The new free node may overlap the old one: the link is read and rewritten first, and the
      old size is still there when the new size is computed from it. */
  lemma GrownSplitWords(m: seq<byte>, m1: seq<byte>, m2: seq<byte>, m3: seq<byte>, h: Heap, a: nat, up: nat, len: nat)
    requires Tiled(h) && h.brk <= |m| && a in h.size && up in h.size && up == h.End(a) && Word(m, up) == h.size[up]
    requires h.size[a] < len && len + 2 < h.size[a] + h.size[up]
    requires Stored(m, m1, a + 2 + len + 2, Word(m, up + 2))
    requires Stored(m1, m2, a + 2 + len, Word(m1, up) - (len - h.size[a])) && Stored(m2, m3, a, len)
    ensures SameBut(m, m3, h, a, up) && Word(m1, up) == h.size[up]
    ensures Word(m3, a) == len && Word(m3, a + 2 + len) == h.size[up] - (len - h.size[a])
    ensures Word(m3, a + 2 + len + 2) == Word(m, up + 2)
    ensures SameBytes(m, m3, a + 2, h.End(a))
  {
    StoreElsewhere(m, m1, h, up, a + 2 + len + 2, Word(m, up + 2));
    StoreElsewhere(m1, m2, h, up, a + 2 + len, Word(m1, up) - (len - h.size[a]));
    StoreElsewhere(m2, m3, h, a, a, len);
    SameButChain(m, m1, m2, h, a, up);
    SameButChain(m, m2, m3, h, a, up);
  }

  /** Chunks untouched by a store to `a` and `up` and by a relinking before entry `k`. */
  lemma RelinkedChunks(m: seq<byte>, m1: seq<byte>, f: nat, m2: seq<byte>, f2: nat, h: Heap, a: nat, up: nat, k: nat, to: nat)
    requires Tiled(h) && h.brk <= |m| && Listed(h) && k < |h.fl| && h.fl[k] == up && IsLive(h, a)
    requires SameBut(m, m1, h, a, up) && Relinked(m1, f, m2, f2, h, k, to)
    ensures |m2| == |m|
    ensures forall b :: b in h.size && b != a && b != up && (k == 0 || b != h.fl[k - 1]) ==> SameChunk(m, m2, h, b)
    ensures 0 < k ==> h.fl[k - 1] in h.size && Word(m2, h.fl[k - 1]) == Word(m, h.fl[k - 1])
    ensures up in h.size && SameChunk(m1, m2, h, a) && SameChunk(m1, m2, h, up)
  {
    hide Word, Tiles;
    assert up in h.fl;
    if 0 < k {
      assert h.fl[k - 1] in h.fl;
      assert SameChunk(m, m1, h, h.fl[k - 1]);
    } else {
      SameChunkSelf(m1, h, a);
      SameChunkSelf(m1, h, up);
    }
    forall b | b in h.size && b != a && b != up && (k == 0 || b != h.fl[k - 1]) ensures SameChunk(m, m2, h, b) {
      assert SameChunk(m, m1, h, b);
      assert k == 0 || SameChunk(m1, m2, h, b);
    }
  }

  lemma SizeSurvives(m: seq<byte>, m1: seq<byte>, h: Heap, a: nat, up: nat, len: nat)
    requires a in h.size && up in h.size && up == h.End(a) && h.size[a] < len && up + 1 < |m|
    requires Stored(m, m1, a + 2 + len + 2, Word(m, up + 2))
    ensures Word(m1, up) == Word(m, up)
  {
  }

  lemma NextSurvives(m: seq<byte>, m1: seq<byte>, h: Heap, a: nat, up: nat)
    requires Tiled(h) && h.brk <= |m| && a in h.size && up in h.size && up == h.End(a)
    requires Stored(m, m1, a, h.size[a] + h.size[up] + 2)
    ensures Word(m1, up + 2) == Word(m, up + 2)
  {
    StoreElsewhere(m, m1, h, a, a, h.size[a] + h.size[up] + 2);
  }

  lemma SameBytesChain(m: seq<byte>, m1: seq<byte>, m2: seq<byte>, lo: nat, hi: nat)
    requires SameBytes(m, m1, lo, hi) && SameBytes(m1, m2, lo, hi)
    ensures SameBytes(m, m2, lo, hi)
  {
  }

  lemma SameIsCopy(m: seq<byte>, m': seq<byte>, lo: nat, n: nat)
    requires SameBytes(m, m', lo, lo + n)
    ensures CopiesPrefix(m, m', lo, lo, n)
  {
  }

  lemma RelinkedOthers(m: seq<byte>, m2: seq<byte>, h: Heap, a: nat, k: nat)
    requires Listed(h) && k < |h.fl| && IsLive(h, a)
    requires forall b :: b in h.size && b != a && b != h.fl[k] && (k == 0 || b != h.fl[k - 1]) ==> SameChunk(m, m2, h, b)
    ensures forall i :: 0 <= i < |h.fl| && i + 1 != k && i != k ==> Word(m2, h.fl[i] + 2) == Word(m, h.fl[i] + 2)
  {
    hide Word;
    forall i | 0 <= i < |h.fl| && i + 1 != k && i != k ensures Word(m2, h.fl[i] + 2) == Word(m, h.fl[i] + 2) {
      assert h.fl[i] in h.fl;
      assert SameChunk(m, m2, h, h.fl[i]);
    }
  }

  lemma RelinkedPayloads(m: seq<byte>, m2: seq<byte>, h: Heap, a: nat, k: nat)
    requires Listed(h) && k < |h.fl| && IsLive(h, a)
    requires forall b :: b in h.size && b != a && b != h.fl[k] && (k == 0 || b != h.fl[k - 1]) ==> SameChunk(m, m2, h, b)
    ensures KeepsPayloads(m, m2, h, a)
  {
    hide Word, Increasing;
    assert h.fl[k] in h.fl && (0 < k ==> h.fl[k - 1] in h.fl);
    forall b: nat | IsLive(h, b) && b != a ensures SameBytes(m, m2, b + 2, h.End(b)) {
      assert SameChunk(m, m2, h, b);
    }
  }

  lemma GrownSplitHolds(m: seq<byte>, f: nat, m3: seq<byte>, m4: seq<byte>, f4: nat, h: Heap, a: nat, k: nat, len: nat)
    requires Represents(m, f, h) && IsLive(h, a) && k < |h.fl| && h.fl[k] in h.size && h.fl[k] == h.End(a)
    requires h.size[a] < len && len + 2 < h.size[a] + h.size[h.fl[k]]
    requires SameBut(m, m3, h, a, h.fl[k]) && Word(m3, a) == len
    requires Word(m3, a + 2 + len) == h.size[h.fl[k]] - (len - h.size[a])
    requires Word(m3, a + 2 + len + 2) == Word(m, h.fl[k] + 2)
    requires Relinked(m3, f, m4, f4, h, k, a + 2 + len)
    ensures Represents(m4, f4, GrownSplit(h, a, k, len)) && KeepsPayloads(m, m4, h, a)
    ensures SameBytes(m3, m4, a + 2, h.End(a))
  {
    hide Tiles, Coalesced, Word, Links, Headers, Increasing, Live, SameChunk;
    RelinkedChunks(m, m3, f, m4, f4, h, a, h.fl[k], k, a + 2 + len);
    RelinkedPayloads(m, m4, h, a, k);
    GrownSplitTiles(h, a, k, len);
    GrownSplitRest(h, a, k, len);
    GrownSplitLinks(m, f, m3, m4, f4, h, a, k, len);
    GrownSplitHeaders(m, m3, m4, h, a, k, len);
    SameChunkPayload(m3, m4, h, a);
  }

  lemma GrownSplitLinks(m: seq<byte>, f: nat, m3: seq<byte>, m4: seq<byte>, f4: nat, h: Heap, a: nat, k: nat, len: nat)
    requires Holds(m, f, h) && IsLive(h, a) && k < |h.fl| && h.fl[k] in h.size && h.fl[k] == h.End(a)
    requires h.size[a] < len && len + 2 < h.size[a] + h.size[h.fl[k]]
    requires Word(m3, a + 2 + len + 2) == Word(m, h.fl[k] + 2) && SameChunk(m3, m4, h, h.fl[k])
    requires Relinked(m3, f, m4, f4, h, k, a + 2 + len)
    requires forall b :: b in h.size && b != a && b != h.fl[k] && (k == 0 || b != h.fl[k - 1]) ==> SameChunk(m, m4, h, b)
    ensures Links(m4, f4, h.fl[k := a + 2 + len])
  {
    hide Tiles, Word, Increasing, SameChunk, OthersSame, Links, Headers, IsLive;
    WordInChunk(m3, m4, h, h.fl[k], a + 2 + len + 2);
    LinkOf(m, f, h, k);
    RelinkedOthers(m, m4, h, a, k);
    LinkedInto(m, f, m4, f4, h.fl, k, a + 2 + len, 1);
    assert h.fl[k := a + 2 + len] == h.fl[..k] + [a + 2 + len] + h.fl[k + 1..];
  }

  lemma WordInChunk(m: seq<byte>, m': seq<byte>, h: Heap, c: nat, x: nat)
    requires c in h.size && SameChunk(m, m', h, c) && c <= x && x + 2 <= h.End(c)
    ensures Word(m', x) == Word(m, x)
  {
  }

  lemma SameChunkWord(m: seq<byte>, m': seq<byte>, h: Heap, c: nat)
    requires c in h.size && SameChunk(m, m', h, c)
    ensures Word(m', c + 2) == Word(m, c + 2)
  {
  }

  lemma LinkOf(m: seq<byte>, f: nat, h: Heap, k: nat)
    requires Links(m, f, h.fl) && k < |h.fl|
    ensures Word(m, h.fl[k] + 2) == Link(h.fl, k + 1)
  {
  }

  lemma GrownSplitHeaders(m: seq<byte>, m3: seq<byte>, m4: seq<byte>, h: Heap, a: nat, k: nat, len: nat)
    requires Listed(h) && Headers(m, h) && IsLive(h, a) && k < |h.fl| && h.fl[k] in h.size && h.fl[k] == h.End(a)
    requires h.size[a] < len && len + 2 < h.size[a] + h.size[h.fl[k]]
    requires Word(m3, a) == len && Word(m3, a + 2 + len) == h.size[h.fl[k]] - (len - h.size[a])
    requires SameChunk(m3, m4, h, a) && SameChunk(m3, m4, h, h.fl[k])
    requires forall b :: b in h.size && b != a && b != h.fl[k] && (k == 0 || b != h.fl[k - 1]) ==> SameChunk(m, m4, h, b)
    requires 0 < k ==> Word(m4, h.fl[k - 1]) == Word(m, h.fl[k - 1])
    ensures Headers(m4, GrownSplit(h, a, k, len))
  {
    WordInChunk(m3, m4, h, h.fl[k], a + 2 + len);
    hide Word, Increasing;
    assert 0 < k ==> h.fl[k - 1] in h.fl;
    forall b | b in h.size && b != a && b != h.fl[k] ensures Word(m4, b) == h.size[b] {
      if k == 0 || b != h.fl[k - 1] { assert SameChunk(m, m4, h, b); }
    }
  }

  lemma GrownOverHolds(m: seq<byte>, f: nat, m1: seq<byte>, m2: seq<byte>, f2: nat, h: Heap, a: nat, k: nat)
    requires Represents(m, f, h) && IsLive(h, a) && k < |h.fl| && h.fl[k] in h.size && h.fl[k] == h.End(a)
    requires Stored(m, m1, a, h.size[a] + 2 + h.size[h.fl[k]])
    requires Relinked(m1, f, m2, f2, h, k, Link(h.fl, k + 1))
    ensures Represents(m2, f2, GrownOver(h, a, k)) && KeepsPayloads(m, m2, h, a)
    ensures SameBytes(m, m2, a + 2, h.End(a))
  {
    hide Tiles, Coalesced, Word, Links, Headers, Increasing, Live, SameChunk, Stored, SameBytes, KeepsPayloads,
         GrownOver, OthersSame, Relinked;
    StoredInHeader(m, m1, h, a, h.size[a] + 2 + h.size[h.fl[k]]);
    assert SameBut(m, m1, h, a, h.fl[k]);
    SameChunkWord(m, m1, h, h.fl[k]);
    RelinkedChunks(m, m1, f, m2, f2, h, a, h.fl[k], k, Link(h.fl, k + 1));
    RelinkedPayloads(m, m2, h, a, k);
    GrownOverKeeps(h, a, k);
    GrownOverLinks(m, f, m1, m2, f2, h, a, k);
    GrownOverHeaders(m, m1, m2, h, a, k);
    SameChunkPayload(m1, m2, h, a);
    SameBytesChain(m, m1, m2, a + 2, h.End(a));
    GrownOverFrame(h, a, k);
  }

  lemma GrownOverLinks(m: seq<byte>, f: nat, m1: seq<byte>, m2: seq<byte>, f2: nat, h: Heap, a: nat, k: nat)
    requires Holds(m, f, h) && IsLive(h, a) && k < |h.fl| && h.fl[k] in h.size && h.fl[k] == h.End(a)
    requires SameChunk(m1, m2, h, h.fl[k]) && Word(m1, h.fl[k] + 2) == Word(m, h.fl[k] + 2)
    requires Relinked(m1, f, m2, f2, h, k, Link(h.fl, k + 1))
    requires forall b :: b in h.size && b != a && b != h.fl[k] && (k == 0 || b != h.fl[k - 1]) ==> SameChunk(m, m2, h, b)
    ensures Links(m2, f2, Without(h.fl, k))
  {
    hide Tiles, Word, Increasing, OthersSame, Links, Headers, IsLive, SameChunk;
    SameChunkWord(m1, m2, h, h.fl[k]);
    RelinkedOthers(m, m2, h, a, k);
    UnlinkedLinks(m, f, m2, f2, h.fl, k);
  }

  lemma GrownOverHeaders(m: seq<byte>, m1: seq<byte>, m2: seq<byte>, h: Heap, a: nat, k: nat)
    requires Listed(h) && Headers(m, h) && IsLive(h, a) && k < |h.fl| && h.fl[k] in h.size && h.fl[k] == h.End(a)
    requires Word(m1, a) == h.size[a] + 2 + h.size[h.fl[k]] && SameChunk(m1, m2, h, a)
    requires forall b :: b in h.size && b != a && b != h.fl[k] && (k == 0 || b != h.fl[k - 1]) ==> SameChunk(m, m2, h, b)
    requires 0 < k ==> Word(m2, h.fl[k - 1]) == Word(m, h.fl[k - 1])
    ensures Headers(m2, GrownOver(h, a, k))
  {
    hide Word, Increasing;
    assert 0 < k ==> h.fl[k - 1] in h.fl;
    forall b | b in h.size && b != a && b != h.fl[k] ensures Word(m2, b) == h.size[b] {
      if k == 0 || b != h.fl[k - 1] { assert SameChunk(m, m2, h, b); }
    }
  }

  // ----- extending the topmost block -----

  lemma ExtendedHolds(m: seq<byte>, m': seq<byte>, flp: nat, h: Heap, a: nat, len: nat)
    requires Represents(m, flp, h) && IsLive(h, a) && h.End(a) == h.brk && h.size[a] < len
    requires a + 2 + len < ADDRESSES && a + 2 + len <= |m| && Stored(m, m', a, len)
    ensures Represents(m', flp, Extended(h, a, len, a + 2 + len)) && KeepsPayloads(m, m', h, a)
    ensures SameBytes(m, m', a + 2, h.End(a))
  {
    hide Tiles, Coalesced, Word, Links, Increasing, Live, SameChunk;
    StoredInHeader(m, m', h, a, len);
    BelowBrk(h);
    ExtendedTiles(h, a, len);
    ExtendedRest(h, a, len, a + 2 + len);
    OthersKept(m, m', h, a);
    FreeWordsKept(m, m', h, a, a);
    LinksKept(m, m', flp, h.fl);
    ExtendedHeaders(m, m', h, a, len, a + 2 + len);
  }

  lemma StoredInHeader(m: seq<byte>, m': seq<byte>, h: Heap, a: nat, v: nat)
    requires Tiled(h) && h.brk <= |m| && a in h.size && Stored(m, m', a, v)
    ensures SameBut(m, m', h, a, a) && SameBytes(m, m', a + 2, h.End(a)) && Word(m', a) == v
  {
    StoreElsewhere(m, m', h, a, a, v);
  }

  lemma BelowBrk(h: Heap)
    requires Tiled(h) && Listed(h)
    ensures forall f :: f in h.fl ==> h.End(f) <= h.brk
  {
  }

  lemma ExtendedHeaders(m: seq<byte>, m': seq<byte>, h: Heap, a: nat, len: nat, brk: nat)
    requires Headers(m, h) && a in h.size && SameBut(m, m', h, a, a) && Word(m', a) == len
    ensures Headers(m', Extended(h, a, len, brk))
  {
    hide Word;
    forall b | b in h.size && b != a ensures Word(m', b) == h.size[b] { assert SameChunk(m, m', h, b); }
  }

  // ----- moving -----

  /** Writing inside the payload of live block `b` disturbs nothing else. */
  lemma PayloadWritten(m: seq<byte>, m': seq<byte>, flp: nat, h: Heap, b: nat, n: nat)
    requires Represents(m, flp, h) && IsLive(h, b) && n <= h.size[b]
    requires SameBytes(m, m', 0, b + 2) && SameBytes(m, m', b + 2 + n, |m|)
    ensures Represents(m', flp, h) && KeepsPayloads(m, m', h, b)
  {
    PayloadChunks(m, m', h, b, n);
    hide Tiles, Coalesced, Word, Links, SameBytes, SameChunk, Increasing;
    OthersKept(m, m', h, b);
    FreeWordsKept(m, m', h, b, b);
    LinksKept(m, m', flp, h.fl);
    PayloadHeaders(m, m', h, b);
  }

  lemma PayloadChunks(m: seq<byte>, m': seq<byte>, h: Heap, b: nat, n: nat)
    requires Tiled(h) && h.brk <= |m| && b in h.size && n <= h.size[b]
    requires SameBytes(m, m', 0, b + 2) && SameBytes(m, m', b + 2 + n, |m|)
    ensures SameBut(m, m', h, b, b) && Word(m', b) == Word(m, b)
  {
  }

  lemma PayloadHeaders(m: seq<byte>, m': seq<byte>, h: Heap, b: nat)
    requires Headers(m, h) && b in h.size && SameBut(m, m', h, b, b) && Word(m', b) == Word(m, b)
    ensures Headers(m', h)
  {
    hide Word;
    forall c | c in h.size && c != b ensures Word(m', c) == h.size[c] { assert SameChunk(m, m', h, c); }
  }

  /** malloc, memcpy and free seen as one step: `g` is the heap in between, `b` the new block. */
  lemma MovedPayloads(m: seq<byte>, m1: seq<byte>, m2: seq<byte>, m3: seq<byte>, h: Heap, g: Heap, a: nat, b: nat)
    requires IsLive(h, a) && h.End(a) <= |m| && IsLive(g, b) && !IsLive(h, b) && h.size[a] <= g.size[b]
    requires Live(g) == Live(h)[b := g.size[b]] && |m| == |m1| == |m2| == |m3|
    requires a != 0 && KeepsPayloads(m, m1, h, 0)
    requires KeepsPayloads(m1, m2, g, b) && CopiesPrefix(m1, m2, a + 2, b + 2, h.size[a])
    requires KeepsPayloads(m2, m3, g, a)
    requires 0 !in h.size
    ensures KeepsPayloads(m, m3, h, a) && CopiesPrefix(m, m3, a + 2, b + 2, h.size[a])
  {
    assert b != a;
    assert SameBytes(m2, m3, b + 2, g.End(b));
    assert SameBytes(m, m1, a + 2, h.End(a));
    forall c: nat | IsLive(h, c) && c != a ensures SameBytes(m, m3, c + 2, h.End(c)) {
      assert c in Live(h);
      assert c in Live(g) && IsLive(g, c) && Live(g)[c] == Live(h)[c];
      assert SameBytes(m, m1, c + 2, h.End(c)) && SameBytes(m1, m2, c + 2, g.End(c)) && SameBytes(m2, m3, c + 2, g.End(c));
    }
  }

  /** What shrinking to nothing leads to: malloc() puts its next header right behind the empty block,
      and when that block is freed the first statement of free() wipes the header out. */
  lemma HeaderWipedOut(m: seq<byte>)
    requires Headers(m, Heap(256, 262, map[256 := 0, 258 := 2], [])) && 262 <= |m|
    ensures HeapRealloc.Realloc(Heap(256, 268, map[256 := 10], []), 256, 0, 1000) == (Heap(256, 258, map[256 := 0], []), 258)
    ensures HeapAlloc.Malloc(Heap(256, 258, map[256 := 0], []), 2, 1000) == (Heap(256, 262, map[256 := 0, 258 := 2], []), 260)
    ensures Word(m, 258) == 2 && Word(LinkCleared(m, 258), 258) == 0
  {
    hide HeapRealloc.Realloc;
    ShrunkToNothing();
    assert map[256 := 0][258 := 2] == map[256 := 0, 258 := 2];
  }
}
