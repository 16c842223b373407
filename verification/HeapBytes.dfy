/** How a heap value lies in RAM bytes, and what storing one word does to it. */
module HeapBytes {
  import opened HeapSpec
  import opened HeapOps
  import opened HeapAlloc

  type byte = x: int | 0 <= x < 256

  /** The little-endian 16-bit word at `a`. */
  function Word(m: seq<byte>, a: nat): nat {
    if a + 1 < |m| then m[a] as int + 256 * (m[a + 1] as int) else 0
  }

  ghost predicate SameBytes(m: seq<byte>, m': seq<byte>, lo: nat, hi: nat) {
    hi <= |m| == |m'| && forall i :: lo <= i < hi ==> m'[i] == m[i]
  }

  /** `m'` is `m` with the word `v` stored at `a`. */
  ghost predicate Stored(m: seq<byte>, m': seq<byte>, a: nat, v: nat) {
    && a + 1 < |m| == |m'| && Word(m', a) == v
    && SameBytes(m, m', 0, a) && SameBytes(m, m', a + 2, |m|)
  }

  /** Nothing outside `lo`..`hi` has changed. */
  ghost predicate Within(m: seq<byte>, m': seq<byte>, lo: nat, hi: nat) {
    SameBytes(m, m', 0, lo) && SameBytes(m, m', hi, |m|)
  }

  lemma WithinSelf(m: seq<byte>, lo: nat, hi: nat)
    requires lo <= |m|
    ensures Within(m, m, lo, hi)
  {
  }

  /** One change more, inside the bounds. */
  lemma WithinMore(m: seq<byte>, m1: seq<byte>, m2: seq<byte>, lo: nat, hi: nat, a: nat, b: nat)
    requires Within(m, m1, lo, hi) && Within(m1, m2, a, b) && lo <= a && b <= hi
    ensures Within(m, m2, lo, hi)
  {
  }

  lemma WithinUp(m: seq<byte>, m': seq<byte>, lo: nat, hi: nat, top: nat)
    requires Within(m, m', lo, hi) && hi <= top
    ensures Within(m, m', lo, top)
  {
  }

  lemma StoreWithin(m: seq<byte>, m': seq<byte>, a: nat, v: nat, lo: nat, hi: nat)
    requires Stored(m, m', a, v) && lo <= a && a + 2 <= hi
    ensures Within(m, m', lo, hi)
  {
  }

  /** RAM after the first statement of free(p): the link is set to null. */
  function LinkCleared(m: seq<byte>, p: nat): seq<byte>
    requires p + 1 < |m|
  {
    m[p := 0][p + 1 := 0]
  }

  /** The list link that leads to entry `k`: its address, or null past the end. */
  function Link(fl: seq<nat>, k: nat): nat {
    if k < |fl| then fl[k] else 0
  }

  /** The entry before `k`, or null at the head of the list. */
  function Prev(fl: seq<nat>, k: nat): nat {
    if 0 < k <= |fl| then fl[k - 1] else 0
  }

  /** What malloc's search has noted of the first `k` entries: the best chunk, its size and the
      entry before it. */
  ghost predicate Noted(h: Heap, len: nat, k: nat, s: nat, sfp1: nat, sfp2: nat)
    requires Listed(h) && k <= |h.fl|
  {
    var b := Best(h, len, k);
    if b < 0 then s == 0 else sfp1 == h.fl[b] && sfp2 == Prev(h.fl, b) && s == h.size[sfp1] && len <= s
  }

  lemma NotedNone(h: Heap, len: nat)
    requires Listed(h)
    ensures Noted(h, len, 0, 0, 0, 0)
  {
  }

  lemma NoteNext(h: Heap, len: nat, k: nat, s: nat, sfp1: nat, sfp2: nat)
    requires Listed(h) && k < |h.fl| && 2 <= len && Noted(h, len, k, s, sfp1, sfp2)
    ensures var c := h.fl[k];
            if h.size[c] < len || (s != 0 && s <= h.size[c]) then Noted(h, len, k + 1, s, sfp1, sfp2)
            else Noted(h, len, k + 1, h.size[c], c, Prev(h.fl, k))
  {
  }

  lemma ExactIsNoted(h: Heap, len: nat, k: nat, s: nat, sfp1: nat, sfp2: nat)
    requires Listed(h) && k < |h.fl| && 2 <= len && Noted(h, len, k, s, sfp1, sfp2) && s != len
    requires h.size[h.fl[k]] == len
    ensures Noted(h, len, |h.fl|, len, h.fl[k], Prev(h.fl, k))
  {
    ExactIsBest(h, len, k, |h.fl|);
  }

  /** Each chunk's header holds its size, and each free chunk's link leads to the next. */
  ghost predicate Headers(m: seq<byte>, h: Heap) {
    forall a :: a in h.size ==> Word(m, a) == h.size[a]
  }

  ghost predicate Links(m: seq<byte>, flp: nat, fl: seq<nat>) {
    && flp == Link(fl, 0)
    && forall k :: 0 <= k < |fl| ==> Word(m, fl[k] + 2) == Link(fl, k + 1)
  }

  /** RAM `m` with list head `flp` holds heap `h`. */
  ghost predicate Holds(m: seq<byte>, flp: nat, h: Heap) {
    Tiled(h) && Listed(h) && h.brk < ADDRESSES && h.brk <= |m| && Headers(m, h) && Links(m, flp, h.fl)
  }

  /** As between two calls: the heap held is also fully coalesced. */
  ghost predicate Represents(m: seq<byte>, flp: nat, h: Heap) {
    WF(h) && Holds(m, flp, h)
  }

  /** Every live block but `except` keeps its payload. */
  ghost predicate KeepsPayloads(m: seq<byte>, m': seq<byte>, h: Heap, except: nat) {
    forall a: nat :: IsLive(h, a) && a != except ==> SameBytes(m, m', a + 2, h.End(a))
  }

  /** The `n` bytes at `src` before are the `n` bytes at `dst` after. */
  ghost predicate CopiesPrefix(m: seq<byte>, m': seq<byte>, src: nat, dst: nat, n: nat) {
    |m| == |m'| && src + n <= |m| && dst + n <= |m| && forall i :: dst <= i < dst + n ==> m'[i] == m[i - dst + src]
  }

  function Max(a: nat, b: nat): nat {
    if a <= b then b else a
  }

  function Min(a: nat, b: nat): nat {
    if a <= b then a else b
  }

  /** Chunk `b` is the same in both: payload, header, and the word where a free chunk keeps its link. */
  ghost predicate SameChunk(m: seq<byte>, m': seq<byte>, h: Heap, b: nat)
    requires b in h.size
  {
    SameBytes(m, m', b, h.End(b)) && Word(m', b) == Word(m, b) && Word(m', b + 2) == Word(m, b + 2)
  }

  /** A store inside chunk `c` leaves every other chunk alone. */
  lemma StoreElsewhere(m: seq<byte>, m': seq<byte>, h: Heap, c: nat, x: nat, v: nat)
    requires Tiled(h) && h.brk <= |m| && c in h.size && c <= x && x + 2 <= h.End(c)
    requires Stored(m, m', x, v)
    ensures forall b :: b in h.size && b != c ==> SameChunk(m, m', h, b)
    ensures c + 2 <= x ==> Word(m', c) == Word(m, c)
    ensures x + 2 <= c + 2 ==> Word(m', c + 2) == Word(m, c + 2)
  {
  }

  lemma StoreBeyond(m: seq<byte>, m': seq<byte>, h: Heap, x: nat, v: nat)
    requires Tiled(h) && h.brk <= x && Stored(m, m', x, v)
    ensures |m'| == |m| && Word(m', x) == v
    ensures forall b :: b in h.size ==> SameChunk(m, m', h, b)
  {
  }

  /** Only chunk `a` may differ between the two memories. */
  ghost predicate OthersSame(m: seq<byte>, m': seq<byte>, h: Heap, a: nat) {
    |m'| == |m| && forall b :: b in h.size && b != a ==> SameChunk(m, m', h, b)
  }

  /** The link before list entry `k`, in memory or the list head, has been led to `to`. */
  ghost predicate Relinked(m: seq<byte>, f: nat, m': seq<byte>, f': nat, h: Heap, k: nat, to: nat)
    requires k <= |h.fl|
  {
    if k == 0 then m' == m && f' == to
    else f' == f && OthersSame(m, m', h, h.fl[k - 1]) && Word(m', h.fl[k - 1]) == Word(m, h.fl[k - 1]) &&
         Word(m', h.fl[k - 1] + 2) == to
  }

  lemma RelinkedElsewhere(m: seq<byte>, flp: nat, m': seq<byte>, flp': nat, h: Heap, k: nat, to: nat)
    requires Holds(m, flp, h) && k <= |h.fl| && Relinked(m, flp, m', flp', h, k, to)
    ensures |m'| == |m| && forall b :: b in h.size && (k == 0 || b != h.fl[k - 1]) ==> SameChunk(m, m', h, b)
    ensures Headers(m', h)
  {
    hide Links, Word;
    if 0 < k { assert h.fl[k - 1] in h.fl; }
  }

  /** What a walk sees before position `k`: the head, or the link of the entry before. */
  ghost predicate LinkBefore(m: seq<byte>, flp: nat, m': seq<byte>, flp': nat, fl: seq<nat>, k: nat, to: nat)
    requires k <= |fl|
  {
    if k == 0 then flp' == to else flp' == flp && Word(m', fl[k - 1] + 2) == to
  }

  lemma UnlinkedLinks(m: seq<byte>, flp: nat, m': seq<byte>, flp': nat, fl: seq<nat>, k: nat)
    requires Links(m, flp, fl) && k < |fl| && LinkBefore(m, flp, m', flp', fl, k, Link(fl, k + 1))
    requires forall i :: 0 <= i < |fl| && i + 1 != k ==> Word(m', fl[i] + 2) == Word(m, fl[i] + 2)
    ensures Links(m', flp', Without(fl, k))
  {
    hide Word;
    var gl := Without(fl, k);
    forall j | 0 <= j < |gl| ensures Word(m', gl[j] + 2) == Link(gl, j + 1) {
      var i := if j < k then j else j + 1;
      assert gl[j] == fl[i];
    }
  }

  /** `gl` is `fl` with `a` put in at position `k`, in place of `over` entries. */
  /** The list with entry `a` at `k`, in place of `over` entries: away from `k` entries and links are
      the old ones. */
  lemma LinksShifted(fl: seq<nat>, k: nat, a: nat, over: nat, j: nat)
    requires over <= 1 && k + over <= |fl| && j < |fl| + 1 - over && (j + 1 < k || k < j)
    ensures var gl, i := fl[..k] + [a] + fl[k + over..], if j < k then j else j - 1 + over;
            i < |fl| && (i + 1 < k || k + over <= i) && gl[j] == fl[i] && Link(gl, j + 1) == Link(fl, i + 1)
  {
  }

  lemma LinkedInto(m: seq<byte>, flp: nat, m': seq<byte>, flp': nat, fl: seq<nat>, k: nat, a: nat, over: nat)
    requires Links(m, flp, fl) && over <= 1 && k + over <= |fl| && LinkBefore(m, flp, m', flp', fl, k, a)
    requires Word(m', a + 2) == Link(fl, k + over)
    requires forall i :: 0 <= i < |fl| && (i + 1 < k || k + over <= i) ==> Word(m', fl[i] + 2) == Word(m, fl[i] + 2)
    ensures Links(m', flp', fl[..k] + [a] + fl[k + over..])
  {
    hide Word;
    var gl := fl[..k] + [a] + fl[k + over..];
    assert gl[k] == a && Link(gl, k + 1) == Link(fl, k + over) && Link(gl, k) == a;
    forall j | 0 <= j < |gl| ensures Word(m', gl[j] + 2) == Link(gl, j + 1) {
      if j + 1 < k || k < j { LinksShifted(fl, k, a, over, j); }
    }
  }

  /** Links of unchanged free chunks are unchanged. */
  lemma SameLinks(m: seq<byte>, m': seq<byte>, h: Heap, but: nat, k: nat)
    requires Listed(h) && k < |h.fl| && h.fl[k] == but
    requires forall b :: b in h.size && b != but ==> SameChunk(m, m', h, b)
    ensures forall i :: 0 <= i < |h.fl| && i != k ==> Word(m', h.fl[i] + 2) == Word(m, h.fl[i] + 2)
  {
    forall i | 0 <= i < |h.fl| && i != k ensures Word(m', h.fl[i] + 2) == Word(m, h.fl[i] + 2) {
      assert h.fl[i] in h.fl;
    }
  }

  lemma UnlinkKeepsLinks(m: seq<byte>, flp: nat, m': seq<byte>, flp': nat, h: Heap, k: nat)
    requires Holds(m, flp, h) && k < |h.fl| && Relinked(m, flp, m', flp', h, k, Link(h.fl, k + 1))
    ensures Links(m', flp', Without(h.fl, k))
  {
    hide Tiles, Word, Increasing, Without;
    RelinkedElsewhere(m, flp, m', flp', h, k, Link(h.fl, k + 1));
    if 0 < k {
      SameLinks(m, m', h, h.fl[k - 1], k - 1);
    }
    UnlinkedLinks(m, flp, m', flp', h.fl, k);
  }

  /** Unlinking list entry `k`, as malloc and free do it. */
  lemma UnlinkHolds(m: seq<byte>, flp: nat, m': seq<byte>, flp': nat, h: Heap, k: nat)
    requires Holds(m, flp, h) && k < |h.fl| && Relinked(m, flp, m', flp', h, k, Link(h.fl, k + 1))
    ensures Holds(m', flp', TakeAll(h, k)) && KeepsPayloads(m, m', h, 0)
  {
    hide Tiles, Word, Live, Increasing, Without, Links;
    RelinkedElsewhere(m, flp, m', flp', h, k, Link(h.fl, k + 1));
    UnlinkKeepsLinks(m, flp, m', flp', h, k);
    RemoveMembers(h.fl, k);
    assert 0 < k ==> h.fl[k - 1] in h.fl;
  }

  lemma LinksKept(m: seq<byte>, m': seq<byte>, flp: nat, fl: seq<nat>)
    requires Links(m, flp, fl) && forall f :: f in fl ==> Word(m', f + 2) == Word(m, f + 2)
    ensures Links(m', flp, fl)
  {
    hide Word;
    forall k | 0 <= k < |fl| ensures Word(m', fl[k] + 2) == Link(fl, k + 1) {
      assert fl[k] in fl;
    }
  }

  lemma PayloadsKept(m: seq<byte>, m': seq<byte>, h: Heap, c: nat, except: nat)
    requires forall b :: b in h.size && b != c ==> SameChunk(m, m', h, b)
    requires c in h.fl || c !in h.size || c == except
    ensures KeepsPayloads(m, m', h, except)
  {
    hide Word;
    forall a: nat | IsLive(h, a) && a != except ensures SameBytes(m, m', a + 2, h.End(a)) {
      assert SameChunk(m, m', h, a);
    }
  }

  // ----- malloc -----

  lemma TakeUpperHolds(m: seq<byte>, m1: seq<byte>, m2: seq<byte>, flp: nat, h: Heap, c: nat, len: nat)
    requires Holds(m, flp, h) && c in h.fl && 2 <= len && len + 4 <= h.size[c]
    requires Stored(m, m1, c + h.size[c] - len, len) && Stored(m1, m2, c, h.size[c] - len - 2)
    ensures Holds(m2, flp, TakeUpper(h, c, len)) && KeepsPayloads(m, m2, h, 0)
  {
    hide Tiles, Word, Stored, Increasing, Links, IsLive;
    TakeUpperTiles(h, c, len);
    TakeUpperWords(m, m1, m2, h, c, len);
    PayloadsKept(m, m2, h, c, 0);
    LinksKept(m, m2, flp, h.fl);
  }

  lemma TakeUpperWords(m: seq<byte>, m1: seq<byte>, m2: seq<byte>, h: Heap, c: nat, len: nat)
    requires Tiled(h) && h.brk <= |m| && c in h.size && 2 <= len && len + 4 <= h.size[c]
    requires Stored(m, m1, c + h.size[c] - len, len) && Stored(m1, m2, c, h.size[c] - len - 2)
    ensures forall b :: b in h.size && b != c ==> SameChunk(m, m2, h, b)
    ensures Word(m2, c) == h.size[c] - len - 2 && Word(m2, c + h.size[c] - len) == len && |m2| == |m|
    ensures Word(m2, c + 2) == Word(m, c + 2)
  {
    StoreElsewhere(m, m1, h, c, c + h.size[c] - len, len);
    StoreElsewhere(m1, m2, h, c, c, h.size[c] - len - 2);
  }

  lemma RaiseHolds(m: seq<byte>, m': seq<byte>, flp: nat, h: Heap, len: nat)
    requires Holds(m, flp, h) && 2 <= len && h.brk + 2 + len < ADDRESSES && h.brk + 2 + len <= |m|
    requires Stored(m, m', h.brk, len)
    ensures Holds(m', flp, Raise(h, len)) && KeepsPayloads(m, m', h, 0)
  {
    hide Tiles, Word, Stored, Increasing, Links;
    var g := Raise(h, len);
    RaiseTiles(h, len);
    StoreBeyond(m, m', h, h.brk, len);
    LinksKept(m, m', flp, h.fl);
  }

  // ----- free -----

  /** After the freed chunk has been linked in: only it and the entry before it have changed. */
  ghost predicate LinkedIn(m: seq<byte>, flp: nat, m': seq<byte>, flp': nat, h: Heap, a: nat)
    requires Listed(h) && IsLive(h, a)
  {
    var k := Pos(h.fl, a);
    var g := Insert(h, a, k);
    && |m'| == |m|
    && (forall b :: b in h.size && b != a && (k == 0 || b != h.fl[k - 1]) ==> SameChunk(m, m', h, b))
    && Word(m', a) == g.size[a]
    && Word(m', a + 2) == Link(g.fl, k + 1)
    && if k == 0 then flp' == a
       else flp' == flp && Word(m', h.fl[k - 1]) == Word(m, h.fl[k - 1]) && Word(m', h.fl[k - 1] + 2) == a
  }

  lemma LinkedInLinks(m: seq<byte>, flp: nat, m': seq<byte>, flp': nat, h: Heap, a: nat)
    requires Holds(m, flp, h) && IsLive(h, a) && LinkedIn(m, flp, m', flp', h, a)
    ensures Links(m', flp', Insert(h, a, Pos(h.fl, a)).fl)
  {
    hide Tiles, Word, Increasing, Links, SameChunk;
    var k, fl := Pos(h.fl, a), h.fl;
    var over := if k < |fl| && h.End(a) == fl[k] then 1 else 0;
    var gl := Insert(h, a, k).fl;
    assert gl == fl[..k] + [a] + fl[k + over..];
    assert Link(gl, k + 1) == Link(fl, k + over);
    LinkedInOthers(m, flp, m', flp', h, a);
    LinkedInto(m, flp, m', flp', fl, k, a, over);
  }

  lemma LinkedInOthers(m: seq<byte>, flp: nat, m': seq<byte>, flp': nat, h: Heap, a: nat)
    requires Listed(h) && IsLive(h, a) && LinkedIn(m, flp, m', flp', h, a)
    ensures forall i :: 0 <= i < |h.fl| && i + 1 != Pos(h.fl, a) ==> Word(m', h.fl[i] + 2) == Word(m, h.fl[i] + 2)
  {
    hide Word;
    var k := Pos(h.fl, a);
    forall i | 0 <= i < |h.fl| && i + 1 != k ensures Word(m', h.fl[i] + 2) == Word(m, h.fl[i] + 2) {
      assert h.fl[i] in h.fl;
      assert SameChunk(m, m', h, h.fl[i]);
    }
  }

  lemma LinkedInHolds(m: seq<byte>, flp: nat, m': seq<byte>, flp': nat, h: Heap, a: nat)
    requires Holds(m, flp, h) && IsLive(h, a) && LinkedIn(m, flp, m', flp', h, a)
    ensures Holds(m', flp', Insert(h, a, Pos(h.fl, a)))
  {
    hide Tiles, Word, Increasing, Links, SameChunk;
    var k := Pos(h.fl, a);
    InsertTiles(h, a, k);
    InsertListed(h, a);
    LinkedInLinks(m, flp, m', flp', h, a);
    LinkedInHeaders(m, flp, m', flp', h, a);
  }

  lemma LinkedInHeaders(m: seq<byte>, flp: nat, m': seq<byte>, flp': nat, h: Heap, a: nat)
    requires Listed(h) && IsLive(h, a) && Headers(m, h) && LinkedIn(m, flp, m', flp', h, a)
    ensures Headers(m', Insert(h, a, Pos(h.fl, a)))
  {
    hide Word;
    var k := Pos(h.fl, a);
    assert 0 < k ==> h.fl[k - 1] in h.fl;
    var g := Insert(h, a, k);
    forall b | b in g.size ensures Word(m', b) == g.size[b] {
      if b != a && (k == 0 || b != h.fl[k - 1]) { assert SameChunk(m, m', h, b); }
    }
  }

  /** Two stores merge entry `k` into the entry before it. */
  lemma JoinLowerHolds(m: seq<byte>, m1: seq<byte>, m2: seq<byte>, flp: nat, h: Heap, k: nat)
    requires Holds(m, flp, h) && 0 < k < |h.fl|
    requires h.fl[k - 1] in h.size && h.fl[k] in h.size && h.End(h.fl[k - 1]) == h.fl[k]
    requires Stored(m, m1, h.fl[k - 1], h.size[h.fl[k - 1]] + 2 + h.size[h.fl[k]])
    requires Stored(m1, m2, h.fl[k - 1] + 2, Link(h.fl, k + 1))
    ensures Holds(m2, flp, JoinLower(h, k)) && KeepsPayloads(m, m2, h, 0)
  {
    hide Tiles, Word, Increasing, Links, SameChunk;
    var low := h.fl[k - 1];
    assert low in h.fl;
    JoinLowerWords(m, m1, m2, h, k);
    PayloadsKept(m, m2, h, low, 0);
    JoinLowerTiles(h, k);
    JoinListed(h, k);
    JoinLowerLinks(m, m2, flp, h, k);
    JoinLowerHeaders(m, m2, h, k);
  }

  lemma JoinLowerHeaders(m: seq<byte>, m': seq<byte>, h: Heap, k: nat)
    requires Listed(h) && Headers(m, h) && 0 < k < |h.fl| && h.fl[k - 1] in h.size && h.fl[k] in h.size
    requires h.End(h.fl[k - 1]) == h.fl[k]
    requires Word(m', h.fl[k - 1]) == h.size[h.fl[k - 1]] + 2 + h.size[h.fl[k]]
    requires forall b :: b in h.size && b != h.fl[k - 1] ==> SameChunk(m, m', h, b)
    ensures Headers(m', JoinLower(h, k))
  {
    hide Word;
    var g := JoinLower(h, k);
    forall b | b in g.size ensures Word(m', b) == g.size[b] {
      if b != h.fl[k - 1] { assert SameChunk(m, m', h, b); }
    }
  }

  lemma JoinLowerWords(m: seq<byte>, m1: seq<byte>, m2: seq<byte>, h: Heap, k: nat)
    requires Tiled(h) && Listed(h) && h.brk <= |m| && 0 < k < |h.fl|
    requires h.fl[k - 1] in h.size && h.fl[k] in h.size && h.End(h.fl[k - 1]) == h.fl[k]
    requires Stored(m, m1, h.fl[k - 1], h.size[h.fl[k - 1]] + 2 + h.size[h.fl[k]])
    requires Stored(m1, m2, h.fl[k - 1] + 2, Link(h.fl, k + 1))
    ensures |m2| == |m| && forall b :: b in h.size && b != h.fl[k - 1] ==> SameChunk(m, m2, h, b)
    ensures Word(m2, h.fl[k - 1]) == h.size[h.fl[k - 1]] + 2 + h.size[h.fl[k]]
    ensures Word(m2, h.fl[k - 1] + 2) == Link(h.fl, k + 1)
  {
    var low := h.fl[k - 1];
    StoreElsewhere(m, m1, h, low, low, h.size[low] + 2 + h.size[h.fl[k]]);
    StoreElsewhere(m1, m2, h, low, low + 2, Link(h.fl, k + 1));
  }

  lemma JoinLowerLinks(m: seq<byte>, m': seq<byte>, flp: nat, h: Heap, k: nat)
    requires Listed(h) && 0 < k < |h.fl| && Links(m, flp, h.fl) && h.fl[k - 1] in h.size
    requires forall b :: b in h.size && b != h.fl[k - 1] ==> SameChunk(m, m', h, b)
    requires Word(m', h.fl[k - 1] + 2) == Link(h.fl, k + 1)
    ensures Links(m', flp, Without(h.fl, k))
  {
    hide Word, SameChunk, Increasing, Links;
    SameLinks(m, m', h, h.fl[k - 1], k - 1);
    UnlinkedLinks(m, flp, m', flp, h.fl, k);
  }

  /** Unlinking the last entry and lowering the break over it. */
  lemma TrimHolds(m: seq<byte>, flp: nat, m': seq<byte>, flp': nat, h: Heap)
    requires Holds(m, flp, h) && h.fl != []
    requires h.fl[|h.fl| - 1] in h.size && h.End(h.fl[|h.fl| - 1]) == h.brk
    requires Relinked(m, flp, m', flp', h, |h.fl| - 1, 0)
    ensures Holds(m', flp', Trim(h)) && KeepsPayloads(m, m', h, 0)
  {
    hide Tiles, Word, Increasing, Links;
    UnlinkHolds(m, flp, m', flp', h, |h.fl| - 1);
    TrimTilesAndLive(h);
  }

  lemma StoreOthers(m0: seq<byte>, m: seq<byte>, m': seq<byte>, h: Heap, c: nat, x: nat, v: nat)
    requires Tiled(h) && h.brk <= |m| && c in h.size && (x == c || x == c + 2) && OthersSame(m0, m, h, c)
    requires Stored(m, m', x, v)
    ensures OthersSame(m0, m', h, c) && Word(m', x) == v
    ensures x == c ==> Word(m', c + 2) == Word(m, c + 2)
    ensures x == c + 2 ==> Word(m', c) == Word(m, c)
  {
    StoreElsewhere(m, m', h, c, x, v);
    hide Tiles, Word;
    forall b | b in h.size && b != c ensures SameChunk(m0, m', h, b) {
      assert SameChunk(m0, m, h, b) && SameChunk(m, m', h, b);
    }
  }

  lemma KeepsChain(m0: seq<byte>, m1: seq<byte>, m2: seq<byte>, h: Heap, g: Heap, except: nat)
    requires KeepsPayloads(m0, m1, h, except) && KeepsPayloads(m1, m2, g, 0) && |m0| == |m1| == |m2|
    requires 0 !in g.size && forall b :: b in Live(h) && b != except ==> b in Live(g) && Live(g)[b] == Live(h)[b]
    ensures KeepsPayloads(m0, m2, h, except)
  {
    forall b: nat | IsLive(h, b) && b != except ensures SameBytes(m0, m2, b + 2, h.End(b)) {
      assert b in Live(h);
      assert b in Live(g) && IsLive(g, b);
      assert SameBytes(m1, m2, b + 2, g.End(b));
    }
  }

  lemma KeepsSelf(m: seq<byte>, h: Heap, except: nat)
    requires Tiled(h) && h.brk <= |m|
    ensures KeepsPayloads(m, m, h, except)
  {
  }

  // ----- where free()'s early exits agree with the general case -----

  lemma FreedIntoEmptyList(h: Heap, a: nat)
    requires WF(h) && IsLive(h, a) && h.fl == []
    ensures if h.End(a) == h.brk then Freed(h, a) == Heap(h.start, a, h.size - {a}, [])
            else Freed(h, a) == Insert(h, a, 0)
  {
  }

  lemma FreedAtHead(h: Heap, a: nat)
    requires WF(h) && IsLive(h, a) && h.fl != [] && Pos(h.fl, a) == 0
    ensures Freed(h, a) == Insert(h, a, 0)
  {
    hide Tiles, Increasing;
    InsertListed(h, a);
    var n := |h.fl| - 1;
    assert h.fl[n] in h.fl && h.fl[0] in h.fl;
    var g := Insert(h, a, 0);
    assert g.End(g.fl[|g.fl| - 1]) == h.End(h.fl[n]);
  }

  lemma LinkLowerChunks(m0: seq<byte>, f: nat, m1: seq<byte>, m2: seq<byte>, f2: nat, h: Heap, a: nat)
    requires WF(h) && IsLive(h, a) && OthersSame(m0, m1, h, a) && Relinked(m1, f, m2, f2, h, Pos(h.fl, a), a)
    ensures |m2| == |m0|
    ensures var k := Pos(h.fl, a);
            && (forall b :: b in h.size && b != a && (k == 0 || b != h.fl[k - 1]) ==> SameChunk(m0, m2, h, b))
            && Word(m2, a) == Word(m1, a) && Word(m2, a + 2) == Word(m1, a + 2)
            && (0 < k ==> Word(m2, h.fl[k - 1]) == Word(m0, h.fl[k - 1]))
  {
    hide Tiles, Word, Coalesced;
    var k := Pos(h.fl, a);
    if 0 < k {
      assert h.fl[k - 1] in h.fl;
      assert SameChunk(m1, m2, h, a);
      assert SameChunk(m0, m1, h, h.fl[k - 1]);
    }
    forall b | b in h.size && b != a && (k == 0 || b != h.fl[k - 1]) ensures SameChunk(m0, m2, h, b) {
      assert SameChunk(m0, m1, h, b);
      assert k == 0 || SameChunk(m1, m2, h, b);
    }
  }

  lemma LinkLowerDone(m0: seq<byte>, f: nat, m1: seq<byte>, m2: seq<byte>, f2: nat, h: Heap, a: nat)
    requires Represents(m0, f, h) && IsLive(h, a) && OthersSame(m0, m1, h, a) && Relinked(m1, f, m2, f2, h, Pos(h.fl, a), a)
    requires var k := Pos(h.fl, a); var g := Insert(h, a, k);
             Word(m1, a) == g.size[a] && Word(m1, a + 2) == Link(g.fl, k + 1)
    ensures Holds(m2, f2, Insert(h, a, Pos(h.fl, a))) && KeepsPayloads(m0, m2, h, a)
  {
    hide Tiles, Word, Coalesced, SameChunk, OthersSame, Links, Headers, Insert, Increasing;
    LinkLowerChunks(m0, f, m1, m2, f2, h, a);
    assert LinkedIn(m0, f, m2, f2, h, a);
    LinkedInHolds(m0, f, m2, f2, h, a);
    var k := Pos(h.fl, a);
    assert 0 < k ==> h.fl[k - 1] in h.fl;
    forall b: nat | IsLive(h, b) && b != a ensures SameBytes(m0, m2, b + 2, h.End(b)) {
      assert SameChunk(m0, m2, h, b);
      SameChunkPayload(m0, m2, h, b);
    }
  }

  lemma SameChunkPayload(m: seq<byte>, m': seq<byte>, h: Heap, b: nat)
    requires b in h.size && SameChunk(m, m', h, b)
    ensures SameBytes(m, m', b + 2, h.End(b))
  {
  }

  lemma TopFreedIntoEmptyList(m0: seq<byte>, m: seq<byte>, h: Heap, a: nat)
    requires Represents(m0, 0, h) && IsLive(h, a) && h.fl == [] && h.End(a) == h.brk && OthersSame(m0, m, h, a)
    ensures Represents(m, 0, Freed(h, a)) && Freed(h, a) == Heap(h.start, a, h.size - {a}, [])
    ensures KeepsPayloads(m0, m, h, a)
  {
    hide Tiles, Freed;
    FreedIntoEmptyList(h, a);
    FreedKeeps(h, a);
    OthersKept(m0, m, h, a);
  }

  lemma OthersKept(m0: seq<byte>, m: seq<byte>, h: Heap, a: nat)
    requires OthersSame(m0, m, h, a)
    ensures KeepsPayloads(m0, m, h, a)
  {
    hide Word;
    forall b: nat | IsLive(h, b) && b != a ensures SameBytes(m0, m, b + 2, h.End(b)) {
      assert SameChunk(m0, m, h, b);
    }
  }

  /** What free()'s second half leaves alone, from what each of its steps leaves alone. */
  lemma FreePayloads(m0: seq<byte>, m1: seq<byte>, m2: seq<byte>, m3: seq<byte>, h: Heap, a: nat)
    requires WF(h) && IsLive(h, a) && |m0| == |m1| == |m2| == |m3|
    requires KeepsPayloads(m0, m1, h, a)
    requires KeepsPayloads(m1, m2, Linked(h, a), 0) && KeepsPayloads(m2, m3, Joined(h, a), 0)
    ensures KeepsPayloads(m0, m3, h, a)
  {
    hide Tiles, Coalesced, KeepsPayloads, Insert, JoinLower, Live, Increasing;
    var k := Pos(h.fl, a);
    var g := Linked(h, a);
    var j := Joined(h, a);
    InsertLive(h, a);
    InsertTiles(h, a, k);
    JoinLowerLive(g, k);
    JoinLowerTiles(g, k);
    assert 0 !in g.size && 0 !in j.size by { ZeroIsNoChunk(g); ZeroIsNoChunk(j); }
    KeepsChain(m0, m1, m2, h, g, a);
    KeepsChain(m0, m2, m3, h, j, a);
  }

  lemma ZeroIsNoChunk(h: Heap)
    requires Tiled(h)
    ensures 0 !in h.size
  {
  }
}
