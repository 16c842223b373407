/** What malloc, free and realloc do to the heap value, and what they keep. */
module HeapOps {
  import opened HeapSpec

  // ----- sequences of addresses -----

  lemma ReplaceMembers(s: seq<nat>, k: nat, a: nat)
    requires Increasing(s) && k < |s|
    ensures forall x :: x in s[k := a] <==> (x in s && x != s[k]) || x == a
  {
    assert s[k := a][k] == a;
    forall x ensures x in s[k := a] <==> (x in s && x != s[k]) || x == a {
      if x in s && x != s[k] {
        var i :| 0 <= i < |s| && s[i] == x;
        assert s[k := a][i] == x;
      }
    }
  }

  function Without(s: seq<nat>, k: nat): seq<nat>
    requires k < |s|
  {
    s[..k] + s[k + 1..]
  }

  lemma RemoveMembers(s: seq<nat>, k: nat)
    requires Increasing(s) && k < |s|
    ensures Increasing(Without(s, k))
    ensures forall x :: x in Without(s, k) <==> x in s && x != s[k]
  {
    var t := Without(s, k);
    forall x ensures x in t <==> x in s && x != s[k] {
      if x in s && x != s[k] {
        var i :| 0 <= i < |s| && s[i] == x;
        assert if i < k then t[i] == x else t[i - 1] == x;
      }
    }
  }

  // ----- free -----

  /** How many free chunks lie below `a`: where `a` belongs on the list. */
  function Pos(fl: seq<nat>, a: nat): (k: nat)
    ensures k <= |fl|
  {
    if fl == [] || a <= fl[0] then 0 else 1 + Pos(fl[1..], a)
  }

  lemma {:induction false} PosSplits(fl: seq<nat>, a: nat)
    requires Increasing(fl) && a !in fl
    ensures forall i :: 0 <= i < Pos(fl, a) ==> fl[i] < a
    ensures forall i :: Pos(fl, a) <= i < |fl| ==> a < fl[i]
  {
    if fl != [] {
      assert fl[0] in fl;
      if fl[0] < a { PosSplits(fl[1..], a); }
    }
  }

  /** The chunk at `low` assimilates the one at `up`, which begins where `low` ends. */
  function Merged(size: map<nat, nat>, low: nat, up: nat): map<nat, nat>
    requires low in size && up in size
  {
    (size - {up})[low := size[low] + 2 + size[up]]
  }

  /** Put the chunk at `a` on the list at position `k`, assimilating a free chunk just above. */
  function Insert(h: Heap, a: nat, k: nat): Heap
    requires Listed(h) && a in h.size && k <= |h.fl|
  {
    if k < |h.fl| && h.End(a) == h.fl[k] then
      h.(size := Merged(h.size, a, h.fl[k]), fl := h.fl[k := a])
    else
      h.(fl := h.fl[..k] + [a] + h.fl[k..])
  }

  /** Merge list entry `k` into the entry before it when the two chunks touch. */
  function JoinLower(h: Heap, k: nat): Heap
    requires Listed(h) && k < |h.fl|
  {
    if 0 < k && h.End(h.fl[k - 1]) == h.fl[k] then
      h.(size := Merged(h.size, h.fl[k - 1], h.fl[k]), fl := Without(h.fl, k))
    else
      h
  }

  /** Lower the break over a topmost free chunk. */
  function Trim(h: Heap): Heap
    requires Listed(h)
  {
    var n := |h.fl| - 1;
    if 0 <= n && h.End(h.fl[n]) == h.brk then
      h.(brk := h.fl[n], size := h.size - {h.fl[n]}, fl := Without(h.fl, n))
    else
      h
  }

  /** The heap once the chunk at `a` is on the list, and once it is also merged downwards. */
  function Linked(h: Heap, a: nat): (g: Heap)
    requires Listed(h) && IsLive(h, a)
    ensures Listed(g) && Pos(h.fl, a) < |g.fl| && g.fl[Pos(h.fl, a)] == a
  {
    InsertListed(h, a);
    Insert(h, a, Pos(h.fl, a))
  }

  function Joined(h: Heap, a: nat): (g: Heap)
    requires Listed(h) && IsLive(h, a)
    ensures Listed(g)
  {
    JoinListed(Linked(h, a), Pos(h.fl, a));
    JoinLower(Linked(h, a), Pos(h.fl, a))
  }

  /** free(): the chunk at `a` joins the list, merges with what it touches, and the break
      comes down if the result is topmost. */
  function Freed(h: Heap, a: nat): Heap
    requires Listed(h) && IsLive(h, a)
  {
    Trim(Joined(h, a))
  }

  lemma InsertListed(h: Heap, a: nat)
    requires Listed(h) && IsLive(h, a)
    ensures var k := Pos(h.fl, a); var g := Insert(h, a, k);
            Listed(g) && k < |g.fl| && g.fl[k] == a && (forall x :: x in g.fl ==> x in h.fl || x == a)
  {
    hide Increasing, Pos;
    PosSplits(h.fl, a);
    var k := Pos(h.fl, a);
    if k < |h.fl| && h.End(a) == h.fl[k] {
      ReplaceMembers(h.fl, k, a);
      ReplaceIncreasing(h.fl, k, a);
    } else {
      InsertIncreasing(h.fl, k, a);
    }
  }

  lemma InsertIncreasing(s: seq<nat>, k: nat, a: nat)
    requires Increasing(s) && k <= |s|
    requires (forall i :: 0 <= i < k ==> s[i] < a) && (forall i :: k <= i < |s| ==> a < s[i])
    ensures var t := s[..k] + [a] + s[k..]; Increasing(t) && t[k] == a && (forall x :: x in t ==> x in s || x == a)
  {
    var t := s[..k] + [a] + s[k..];
    forall x | x in t ensures x in s || x == a {
      var i :| 0 <= i < |t| && t[i] == x;
      assert i != k ==> x == s[if i < k then i else i - 1];
    }
  }

  lemma ReplaceIncreasing(s: seq<nat>, k: nat, a: nat)
    requires Increasing(s) && k < |s| && a <= s[k] && forall i :: 0 <= i < k ==> s[i] < a
    ensures Increasing(s[k := a])
  {
  }

  lemma JoinListed(h: Heap, k: nat)
    requires Listed(h) && k < |h.fl|
    ensures Listed(JoinLower(h, k))
  {
    RemoveMembers(h.fl, k);
    assert 0 < k ==> h.fl[k - 1] in h.fl;
  }

  /** The chunk at `c` cut in two, `first` payload bytes staying with it. */
  function Cut(size: map<nat, nat>, c: nat, first: nat): map<nat, nat>
    requires c in size && first + 2 <= size[c]
  {
    size[c := first][c + 2 + first := size[c] - first - 2]
  }

  lemma CutIsNew(start: nat, brk: nat, size: map<nat, nat>, c: nat, first: nat)
    requires Tiles(start, brk, size) && c in size && 2 <= first && first + 4 <= size[c]
    ensures c + 2 + first !in size
  {
  }

  lemma CutApart(size: map<nat, nat>, c: nat, first: nat)
    requires c in size && first + 4 <= size[c] && c + 2 + first !in size
    requires forall a, b :: a in size && b in size && a < b ==> a + 2 + size[a] <= b
    ensures var g := Cut(size, c, first);
            forall a, b :: a in g && b in g && a < b ==> a + 2 + g[a] <= b
  {
    var g, up := Cut(size, c, first), c + 2 + first;
    forall a, b | a in g && b in g && a < b ensures a + 2 + g[a] <= b {
      var a', b' := if a == up then c else a, if b == up then c else b;
      assert a' in size && b' in size;
    }
  }

  lemma CutSuccessors(brk: nat, size: map<nat, nat>, c: nat, first: nat)
    requires c in size && first + 4 <= size[c] && c + 2 + first !in size
    requires forall a {:trigger After(size, a)} :: a in size && After(size, a) != brk ==> After(size, a) in size
    ensures var g := Cut(size, c, first);
            forall a {:trigger After(g, a)} :: a in g && After(g, a) != brk ==> After(g, a) in g
  {
    var g, up := Cut(size, c, first), c + 2 + first;
    forall x | x in g && After(g, x) != brk ensures After(g, x) in g {
      if x != c { assert After(g, x) == After(size, if x == up then c else x); }
    }
  }

  lemma CutBounds(start: nat, brk: nat, size: map<nat, nat>, c: nat, first: nat)
    requires c in size && 2 <= first && first + 4 <= size[c]
    requires forall a :: a in size ==> start <= a && 2 <= size[a] && a + 2 + size[a] <= brk
    ensures var g := Cut(size, c, first);
            forall a :: a in g ==> start <= a && 2 <= g[a] && a + 2 + g[a] <= brk
  {
  }

  lemma CutTiles(start: nat, brk: nat, size: map<nat, nat>, c: nat, first: nat)
    requires Tiles(start, brk, size) && c in size && 2 <= first && first + 4 <= size[c]
    ensures Tiles(start, brk, Cut(size, c, first)) && c + 2 + first !in size
  {
    hide Cut, After;
    CutIsNew(start, brk, size, c, first);
    CutBounds(start, brk, size, c, first);
    CutApart(size, c, first);
    CutSuccessors(brk, size, c, first);
    assert start in size ==> start in Cut(size, c, first) by { CutKeeps(size, c, first); }
  }

  lemma CutKeeps(size: map<nat, nat>, c: nat, first: nat)
    requires c in size && first + 2 <= size[c]
    ensures forall a :: a in size ==> a in Cut(size, c, first)
  {
  }

  lemma MergeTiles(start: nat, brk: nat, size: map<nat, nat>, low: nat, up: nat)
    requires Tiles(start, brk, size) && low in size && up in size && After(size, low) == up
    ensures Tiles(start, brk, Merged(size, low, up))
  {
    var g := Merged(size, low, up);
    forall x | x in g && After(g, x) != brk ensures After(g, x) in g {
      var last := if x == low then up else x;
      assert After(g, x) == After(size, last);
    }
  }

  lemma DropTopTiles(h: Heap, top: nat)
    requires Tiled(h) && top in h.size && h.End(top) == h.brk
    ensures Tiles(h.start, top, h.size - {top})
  {
    var g := h.size - {top};
    if h.start < top { var p := Predecessor(h, top); }
    forall x | x in g && After(g, x) != top ensures After(g, x) in g {
      assert After(g, x) == After(h.size, x);
    }
  }

  /** Only `a` may be topmost, and only the chunk below `a` may touch a free chunk. */
  ghost predicate CoalescedBut(h: Heap, a: nat)
    requires Listed(h)
  {
    forall f :: f in h.fl ==> (h.End(f) == h.brk ==> f == a) && (h.End(f) in h.fl ==> h.End(f) == a)
  }

  lemma InsertTiles(h: Heap, a: nat, k: nat)
    requires Tiled(h) && Listed(h) && a in h.size && k <= |h.fl|
    ensures Tiled(Insert(h, a, k))
  {
    if k < |h.fl| && h.End(a) == h.fl[k] {
      assert h.fl[k] in h.fl;
      MergeTiles(h.start, h.brk, h.size, a, h.fl[k]);
    }
  }

  lemma InsertLive(h: Heap, a: nat)
    requires Listed(h) && IsLive(h, a)
    ensures Live(Insert(h, a, Pos(h.fl, a))) == Live(h) - {a}
  {
    InsertListed(h, a);
    var k := Pos(h.fl, a);
    var g := Insert(h, a, k);
    if k < |h.fl| && h.End(a) == h.fl[k] {
      ReplaceMembers(h.fl, k, a);
      assert h.fl[k] in h.fl;
    } else {
      assert forall x :: x in g.fl <==> x in h.fl || x == a;
    }
  }

  lemma UpperIsNext(h: Heap, a: nat)
    requires WF(h) && IsLive(h, a) && h.End(a) in h.fl
    ensures var k := Pos(h.fl, a); k < |h.fl| && h.fl[k] == h.End(a)
  {
    PosSplits(h.fl, a);
    var k := Pos(h.fl, a);
    var j :| 0 <= j < |h.fl| && h.fl[j] == h.End(a);
    assert h.fl[k] in h.fl && h.fl[k] in h.size;
  }

  lemma InsertCoalesced(h: Heap, a: nat)
    requires WF(h) && IsLive(h, a)
    ensures var g := Insert(h, a, Pos(h.fl, a));
            Listed(g) && CoalescedBut(g, a)
  {
    InsertListed(h, a);
    var k := Pos(h.fl, a);
    var g := Insert(h, a, k);
    if k < |h.fl| && h.End(a) == h.fl[k] {
      var up := h.fl[k];
      ReplaceMembers(h.fl, k, a);
      assert up in h.fl;
      assert g.End(a) == h.End(up);
      assert forall f :: f in g.fl && f != a ==> g.End(f) == h.End(f);
    } else {
      if h.End(a) in h.fl { UpperIsNext(h, a); }
      assert forall f :: f in g.fl ==> g.End(f) == h.End(f);
    }
  }

  lemma JoinLowerTiles(h: Heap, k: nat)
    requires Tiled(h) && Listed(h) && k < |h.fl|
    ensures Tiled(JoinLower(h, k))
  {
    if 0 < k && h.End(h.fl[k - 1]) == h.fl[k] {
      assert h.fl[k - 1] in h.fl && h.fl[k] in h.fl;
      MergeTiles(h.start, h.brk, h.size, h.fl[k - 1], h.fl[k]);
    }
  }

  lemma JoinLowerLive(h: Heap, k: nat)
    requires Listed(h) && k < |h.fl|
    ensures Live(JoinLower(h, k)) == Live(h)
  {
    RemoveMembers(h.fl, k);
    assert 0 < k ==> h.fl[k - 1] in h.fl;
  }

  lemma LowerIsPrevious(h: Heap, f: nat, k: nat)
    requires Tiled(h) && Listed(h) && k < |h.fl| && f in h.fl && h.End(f) == h.fl[k]
    ensures 0 < k && h.fl[k - 1] == f
  {
    var i :| 0 <= i < |h.fl| && h.fl[i] == f;
    assert i < k;
    assert h.fl[k - 1] in h.fl && h.fl[k - 1] in h.size;
  }

  lemma JoinLowerCoalesced(h: Heap, k: nat)
    requires Tiled(h) && Listed(h) && k < |h.fl| && CoalescedBut(h, h.fl[k])
    ensures var g := JoinLower(h, k);
            Listed(g) && forall f :: f in g.fl ==> g.End(f) !in g.fl
  {
    var a := h.fl[k];
    var g := JoinLower(h, k);
    JoinListed(h, k);
    assert a in h.fl;
    if 0 < k && h.End(h.fl[k - 1]) == a {
      RemoveMembers(h.fl, k);
      var low := h.fl[k - 1];
      assert low in h.fl;
      forall f | f in g.fl ensures g.End(f) !in g.fl {
        assert g.End(f) == h.End(if f == low then a else f);
        if h.End(f) == a { LowerIsPrevious(h, f, k); }
      }
    } else {
      forall f | f in h.fl ensures h.End(f) !in h.fl {
        if h.End(f) == a { LowerIsPrevious(h, f, k); }
      }
    }
  }

  lemma OnlyLastIsTop(h: Heap, f: nat)
    requires Tiled(h) && Listed(h) && f in h.fl && h.End(f) == h.brk
    ensures f == h.fl[|h.fl| - 1]
  {
    var i :| 0 <= i < |h.fl| && h.fl[i] == f;
    assert h.fl[|h.fl| - 1] in h.fl && h.fl[|h.fl| - 1] in h.size;
  }

  lemma BelowBreak(h: Heap, a: nat)
    requires Tiled(h) && a in h.size
    ensures h.start <= a && 2 <= h.size[a] && h.End(a) <= h.brk
  {
  }

  lemma TrimTilesAndLive(h: Heap)
    requires Tiled(h) && Listed(h)
    ensures Tiled(Trim(h)) && Listed(Trim(h)) && Live(Trim(h)) == Live(h) && Trim(h).brk <= h.brk
  {
    hide Increasing, Tiles;
    var n := |h.fl| - 1;
    if 0 <= n && h.End(h.fl[n]) == h.brk {
      assert h.fl[n] in h.fl;
      RemoveMembers(h.fl, n);
      DropTopTiles(h, h.fl[n]);
      BelowBreak(h, h.fl[n]);
    }
  }

  lemma TrimCoalesced(h: Heap)
    requires Tiled(h) && Listed(h) && forall f :: f in h.fl ==> h.End(f) !in h.fl
    ensures Listed(Trim(h)) && Coalesced(Trim(h))
  {
    var n := |h.fl| - 1;
    var g := Trim(h);
    if 0 <= n {
      assert h.fl[n] in h.fl;
      RemoveMembers(h.fl, n);
      forall f | f in g.fl ensures g.End(f) == h.End(f) && h.End(f) != g.brk {
        if h.End(f) == h.brk { OnlyLastIsTop(h, f); }
      }
    }
  }

  /** free() of a live block keeps the heap well formed and takes away exactly that block. */
  lemma FreedKeeps(h: Heap, a: nat)
    requires WF(h) && IsLive(h, a)
    ensures WF(Freed(h, a)) && Live(Freed(h, a)) == Live(h) - {a}
    ensures Freed(h, a).start == h.start && Freed(h, a).brk <= h.brk
  {
    var k := Pos(h.fl, a);
    InsertListed(h, a);
    InsertTiles(h, a, k);
    InsertLive(h, a);
    InsertCoalesced(h, a);
    var g := Insert(h, a, k);
    JoinLowerTiles(g, k);
    JoinLowerLive(g, k);
    JoinLowerCoalesced(g, k);
    TrimTilesAndLive(JoinLower(g, k));
    TrimCoalesced(JoinLower(g, k));
  }
}
