/** A client and its data: whatever calls it makes and whatever it writes into its blocks, it finds
    there what it last wrote. */
module HeapClient {
  import opened HeapSpec
  import opened HeapOps
  import opened HeapAlloc
  import opened HeapRealloc
  import opened HeapRuns
  import opened HeapBytes
  import Allocator

  /** The client calls the allocator, or writes byte `i` of its block at `a`. */
  datatype Action = Ask(call: Call) | Put(a: nat, i: nat, v: byte)

  /** The calls a correct client makes, with a stack limit inside RAM, and writes inside its blocks. */
  ghost predicate May(h: Heap, x: Action, ram: nat) {
    match x
    case Ask(c) => Allowed(h, c) && (c.Allocate? ==> c.limit <= ram) && (c.Resize? ==> c.limit <= ram)
    case Put(a, i, v) => IsLive(h, a) && i < h.size[a]
  }

  ghost function HeapAfter(h: Heap, x: Action, ram: nat): (g: Heap)
    requires Fits(h) && May(h, x, ram)
    ensures Fits(g)
  {
    match x
    case Ask(c) => StepFits(h, c); Step(h, c)
    case Put(a, i, v) => h
  }

  /** Address `y` lies in the payload of the block at `a`. */
  ghost predicate Inside(h: Heap, a: nat, y: nat) {
    IsLive(h, a) && a + 2 <= y < h.End(a)
  }

  ghost function Elsewhere(h: Heap, a: nat, known: map<nat, byte>): map<nat, byte> {
    map y | y in known && !Inside(h, a, y) :: known[y]
  }

  /** Where the byte now at `y` was when what is at `dst` was at `src`. */
  function Origin(y: int, src: int, dst: int): int {
    y - dst + src
  }

  /** The `n` bytes known at `src`, now at `dst`. */
  function Carried(known: map<nat, byte>, src: nat, dst: nat, n: nat): map<nat, byte> {
    map y: nat | dst <= y < dst + n && Origin(y, src, dst) in known :: known[Origin(y, src, dst)]
  }

  /** What a resizing call returns. */
  ghost function Returned(h: Heap, a: nat, len: nat, limit: nat): nat
    requires Fits(h) && IsLive(h, a)
  {
    Realloc(h, a, len, limit).1
  }

  /** The bytes the client can count on after an action: what it wrote last, as far as the block still
      is its own and has not been cut off. */
  ghost function KnownAfter(h: Heap, x: Action, ram: nat, known: map<nat, byte>): map<nat, byte>
    requires Fits(h) && May(h, x, ram)
  {
    match x
    case Put(a, i, v) => known[a + 2 + i := v]
    case Ask(Allocate(len, limit)) => known
    case Ask(Release(a)) => Elsewhere(h, a, known)
    case Ask(Resize(a, len, limit)) =>
      var q := Returned(h, a, len, limit);
      if q == 0 then known
      else Elsewhere(h, a, known) + Carried(known, a + 2, q, Min(h.size[a], len))
  }

  /** The bytes known lie in live blocks, and RAM holds them. */
  ghost predicate Kept(h: Heap, m: seq<byte>, known: map<nat, byte>) {
    forall y :: y in known ==> (exists a :: Inside(h, a, y)) && y < |m| && m[y] == known[y]
  }

  /** What a call does to the bytes of live blocks. */
  ghost predicate Effect(m: seq<byte>, h: Heap, c: Call, m': seq<byte>)
    requires Fits(h) && Allowed(h, c)
  {
    |m'| == |m| &&
    match c
    case Allocate(len, limit) => KeepsPayloads(m, m', h, 0)
    case Release(a) => KeepsPayloads(m, m', h, a)
    case Resize(a, len, limit) =>
      var q := Returned(h, a, len, limit);
      KeepsPayloads(m, m', h, if q == 0 then 0 else a) &&
      (q != 0 ==> CopiesPrefix(m, m', a + 2, q, Min(h.size[a], len)))
  }

  lemma AllocateKeeps(h: Heap, m: seq<byte>, known: map<nat, byte>, len: nat, limit: nat, m': seq<byte>)
    requires Fits(h) && Kept(h, m, known) && Allowed(h, Allocate(len, limit)) && Effect(m, h, Allocate(len, limit), m')
    ensures Kept(Step(h, Allocate(len, limit)), m', known)
  {
    hide Malloc, Tiles, Coalesced;
    var (g, p) := Malloc(h, len, limit);
    MallocAddsOne(h, len, limit);
    forall y | y in known ensures (exists a :: Inside(g, a, y)) && y < |m'| && m'[y] == known[y] {
      var a :| Inside(h, a, y);
      NotNull(h, a);
      assert a in Live(h);
      assert a in Live(g) && Live(g)[a] == Live(h)[a];
      assert Inside(g, a, y);
    }
  }

  lemma NotNull(h: Heap, a: nat)
    requires Fits(h) && IsLive(h, a)
    ensures a != 0
  {
  }

  lemma ReleaseKeeps(h: Heap, m: seq<byte>, known: map<nat, byte>, a: nat, m': seq<byte>)
    requires Fits(h) && Kept(h, m, known) && Allowed(h, Release(a)) && Effect(m, h, Release(a), m')
    ensures Kept(Step(h, Release(a)), m', Elsewhere(h, a, known))
  {
    hide Freed, Tiles, Coalesced, KeepsPayloads, Kept, Elsewhere;
    var g := Freed(h, a);
    FreedKeeps(h, a);
    forall c | IsLive(h, c) && c != a ensures IsLive(g, c) && g.size[c] == h.size[c] {
      assert c in Live(h) && c in Live(g);
    }
    ElsewhereKept(h, m, known, g, m', a);
  }

  /** What the client knew of the resized block, now in the block at `b`. */
  lemma CarriedKept(h: Heap, m: seq<byte>, known: map<nat, byte>, g: Heap, m': seq<byte>, a: nat, b: nat, n: nat)
    requires Kept(h, m, known) && IsLive(g, b) && n <= g.size[b] && CopiesPrefix(m, m', a + 2, b + 2, n)
    ensures Kept(g, m', Carried(known, a + 2, b + 2, n))
  {
    var after := Carried(known, a + 2, b + 2, n);
    forall y | y in after ensures (exists c :: Inside(g, c, y)) && y < |m'| && m'[y] == after[y] {
      assert Inside(g, b, y);
      var y0 := Origin(y, a + 2, b + 2);
      assert y0 in known;
    }
  }

  /** What it knew of other blocks. */
  lemma ElsewhereKept(h: Heap, m: seq<byte>, known: map<nat, byte>, g: Heap, m': seq<byte>, a: nat)
    requires Fits(h) && Kept(h, m, known) && KeepsPayloads(m, m', h, a) && |m'| == |m|
    requires forall c :: IsLive(h, c) && c != a ==> IsLive(g, c) && g.size[c] == h.size[c]
    ensures Kept(g, m', Elsewhere(h, a, known))
  {
    hide Tiles, Coalesced, Fits;
    var after := Elsewhere(h, a, known);
    forall y | y in after ensures (exists c :: Inside(g, c, y)) && y < |m'| && m'[y] == after[y] {
      var c :| Inside(h, c, y);
      assert Inside(g, c, y);
    }
  }

  lemma UnionKept(g: Heap, m: seq<byte>, k1: map<nat, byte>, k2: map<nat, byte>)
    requires Kept(g, m, k1) && Kept(g, m, k2)
    ensures Kept(g, m, k1 + k2)
  {
  }

  lemma ResizeKeeps(h: Heap, m: seq<byte>, known: map<nat, byte>, a: nat, len: nat, limit: nat, ram: nat, m': seq<byte>)
    requires Fits(h) && Kept(h, m, known) && May(h, Ask(Resize(a, len, limit)), ram)
    requires Effect(m, h, Resize(a, len, limit), m')
    ensures Kept(Step(h, Resize(a, len, limit)), m', KnownAfter(h, Ask(Resize(a, len, limit)), ram, known))
  {
    hide Realloc, Tiles, Coalesced, KeepsPayloads, CopiesPrefix, Kept, Carried, Elsewhere, ReallocSafe;
    ReallocServes(h, a, len, limit);
    var (g, q) := Realloc(h, a, len, limit);
    var n := Min(h.size[a], len);
    if q == 0 {
      Untouched(h, m, known, m');
    } else {
      OthersLive(h, g, a, q - 2, len);
      ElsewhereKept(h, m, known, g, m', a);
      CarriedKept(h, m, known, g, m', a, q - 2, n);
      UnionKept(g, m', Elsewhere(h, a, known), Carried(known, a + 2, q, n));
    }
  }

  lemma OthersLive(h: Heap, g: Heap, a: nat, b: nat, len: nat)
    requires Replaces(h, g, a, b, len)
    ensures forall c :: IsLive(h, c) && c != a ==> IsLive(g, c) && g.size[c] == h.size[c] && c != b
  {
    forall c | IsLive(h, c) && c != a ensures IsLive(g, c) && g.size[c] == h.size[c] && c != b {
      assert c in Live(h) && c in Live(g);
    }
  }

  lemma Untouched(h: Heap, m: seq<byte>, known: map<nat, byte>, m': seq<byte>)
    requires Fits(h) && Kept(h, m, known) && KeepsPayloads(m, m', h, 0) && |m'| == |m|
    ensures Kept(h, m', known)
  {
    forall y | y in known ensures (exists c :: Inside(h, c, y)) && y < |m'| && m'[y] == known[y] {
      var c :| Inside(h, c, y);
      NotNull(h, c);
    }
  }

  lemma PutKeeps(h: Heap, m: seq<byte>, known: map<nat, byte>, a: nat, i: nat, v: byte)
    requires Kept(h, m, known) && IsLive(h, a) && i < h.size[a] && a + 2 + i < |m|
    ensures Kept(h, m[a + 2 + i := v], known[a + 2 + i := v])
  {
    assert Inside(h, a, a + 2 + i);
  }

  // ----- sessions -----

  ghost predicate Legal(h: Heap, xs: seq<Action>, ram: nat)
    requires Fits(h)
    decreases |xs|
  {
    xs == [] || (May(h, xs[0], ram) && Legal(HeapAfter(h, xs[0], ram), xs[1..], ram))
  }

  ghost function Final(h: Heap, xs: seq<Action>, ram: nat): (g: Heap)
    requires Fits(h) && Legal(h, xs, ram)
    ensures Fits(g)
    decreases |xs|
  {
    if xs == [] then h else Final(HeapAfter(h, xs[0], ram), xs[1..], ram)
  }

  ghost function FinalKnown(h: Heap, xs: seq<Action>, ram: nat, known: map<nat, byte>): map<nat, byte>
    requires Fits(h) && Legal(h, xs, ram)
    decreases |xs|
  {
    if xs == [] then known else FinalKnown(HeapAfter(h, xs[0], ram), xs[1..], ram, KnownAfter(h, xs[0], ram, known))
  }

  /** The allocator's code performs one action. */
  method Perform(al: Allocator.Allocator, x: Action, ghost known: map<nat, byte>)
    requires al.Valid() && Fits(al.heap) && May(al.heap, x, al.ram.Length) && Kept(al.heap, al.ram[..], known)
    modifies al, al.ram
    ensures al.Valid() && al.heap == HeapAfter(old(al.heap), x, al.ram.Length)
    ensures Kept(al.heap, al.ram[..], KnownAfter(old(al.heap), x, al.ram.Length, known))
  {
    hide Malloc, Freed, Realloc, Represents, KeepsPayloads, CopiesPrefix, Kept, Fits, ReallocSafe, Elsewhere, Carried;
    ghost var h, m := al.heap, al.ram[..];
    match x
    case Put(a, i, v) =>
      al.PutByte(a, i, v);
      PutKeeps(h, m, known, a, i, v);
    case Ask(Allocate(len, limit)) =>
      var p := al.Malloc(len, limit);
      AllocateKeeps(h, m, known, len, limit, al.ram[..]);
    case Ask(Release(a)) =>
      al.Free(a + 2);
      ReleaseKeeps(h, m, known, a, al.ram[..]);
    case Ask(Resize(a, len, limit)) =>
      var r, sound := al.Realloc(a + 2, len, limit);
      ResizeKeeps(h, m, known, a, len, limit, al.ram.Length, al.ram[..]);
  }

  /** After any session each byte the client can count on is where it should be, in a live block. */
  method Play(al: Allocator.Allocator, xs: seq<Action>, ghost known: map<nat, byte>)
    requires al.Valid() && Fits(al.heap) && Legal(al.heap, xs, al.ram.Length) && Kept(al.heap, al.ram[..], known)
    modifies al, al.ram
    ensures al.Valid() && al.heap == Final(old(al.heap), xs, al.ram.Length)
    ensures Kept(al.heap, al.ram[..], FinalKnown(old(al.heap), xs, al.ram.Length, known))
  {
    hide May, HeapAfter, KnownAfter, Kept, Fits;
    ghost var known' := known;
    var i := 0;
    while i < |xs|
      invariant 0 <= i <= |xs| && al.Valid() && Fits(al.heap) && Legal(al.heap, xs[i..], al.ram.Length)
      invariant Final(al.heap, xs[i..], al.ram.Length) == Final(old(al.heap), xs, al.ram.Length)
      invariant Kept(al.heap, al.ram[..], known')
      invariant FinalKnown(al.heap, xs[i..], al.ram.Length, known') == FinalKnown(old(al.heap), xs, al.ram.Length, known)
    {
      ghost var h := al.heap;
      assert xs[i..][0] == xs[i] && xs[i..][1..] == xs[i + 1..];
      Perform(al, xs[i], known');
      known' := KnownAfter(h, xs[i], al.ram.Length, known');
      i := i + 1;
    }
  }

  /** The action leaves byte `i` of the block at `a` alone. */
  ghost predicate Spares(x: Action, a: nat, i: nat) {
    match x
    case Put(b, j, v) => b != a || j != i
    case Ask(Allocate(len, limit)) => true
    case Ask(Release(b)) => b != a
    case Ask(Resize(b, len, limit)) => b != a
  }

  /** The client can count on what it wrote as long as it does not overwrite, free or resize it. */
  lemma {:induction false} LastWriteStands(h: Heap, xs: seq<Action>, ram: nat, known: map<nat, byte>, a: nat, i: nat)
    requires Fits(h) && Legal(h, xs, ram) && IsLive(h, a) && i < h.size[a] && a + 2 + i in known
    requires forall x :: x in xs ==> Spares(x, a, i)
    ensures var g, after := Final(h, xs, ram), FinalKnown(h, xs, ram, known);
            && IsLive(g, a) && g.size[a] == h.size[a]
            && a + 2 + i in after && after[a + 2 + i] == known[a + 2 + i]
    decreases |xs|
  {
    hide HeapAfter, KnownAfter, May, Spares, Fits;
    if xs != [] {
      assert xs[0] in xs && forall x :: x in xs[1..] ==> x in xs;
      SparedStays(h, xs[0], ram, known, a, i);
      LastWriteStands(HeapAfter(h, xs[0], ram), xs[1..], ram, KnownAfter(h, xs[0], ram, known), a, i);
    }
  }

  /** From the moment it is written. */
  lemma WrittenStands(h: Heap, a: nat, i: nat, v: byte, xs: seq<Action>, ram: nat, known: map<nat, byte>)
    requires Fits(h) && Legal(h, [Put(a, i, v)] + xs, ram) && forall x :: x in xs ==> Spares(x, a, i)
    ensures var after := FinalKnown(h, [Put(a, i, v)] + xs, ram, known);
            a + 2 + i in after && after[a + 2 + i] == v
  {
    hide Fits, Spares;
    var all := [Put(a, i, v)] + xs;
    assert all[0] == Put(a, i, v) && all[1..] == xs;
    LastWriteStands(h, xs, ram, known[a + 2 + i := v], a, i);
  }

  /** And what it wrote goes along with a resized block, as far as it has not been cut off. */
  lemma ResizeCarries(h: Heap, a: nat, len: nat, limit: nat, ram: nat, known: map<nat, byte>, i: nat)
    requires Fits(h) && IsLive(h, a) && i < h.size[a] && i < len
    requires a + 2 + i in known && May(h, Ask(Resize(a, len, limit)), ram)
    ensures StillKnown(known, a + 2 + i, KnownAfter(h, Ask(Resize(a, len, limit)), ram, known),
                       if Returned(h, a, len, limit) == 0 then a + 2 + i else Returned(h, a, len, limit) + i)
  {
    hide Returned, ReallocSafe, Tiles, Coalesced;
    var q := Returned(h, a, len, limit);
    assert Origin(q + i, a + 2, q) == a + 2 + i;
  }

  ghost predicate StillKnown(known: map<nat, byte>, y: nat, after: map<nat, byte>, y': nat) {
    y in known && y' in after && after[y'] == known[y]
  }

  lemma SparedStays(h: Heap, x: Action, ram: nat, known: map<nat, byte>, a: nat, i: nat)
    requires Fits(h) && May(h, x, ram) && IsLive(h, a) && i < h.size[a] && a + 2 + i in known && Spares(x, a, i)
    ensures var g, after := HeapAfter(h, x, ram), KnownAfter(h, x, ram, known);
            && IsLive(g, a) && g.size[a] == h.size[a]
            && a + 2 + i in after && after[a + 2 + i] == known[a + 2 + i]
  {
    hide Malloc, Freed, Realloc, Tiles, Coalesced, ReallocSafe;
    assert a in Live(h);
    match x
    case Put(b, j, v) =>
      if b != a { BlocksApart(h, a, b, a + 2 + i); }
    case Ask(Allocate(len, limit)) =>
      MallocAddsOne(h, len, limit);
      assert a in Live(Malloc(h, len, limit).0);
    case Ask(Release(b)) =>
      FreedKeeps(h, b);
      assert a in Live(Freed(h, b));
      BlocksApart(h, a, b, a + 2 + i);
    case Ask(Resize(b, len, limit)) =>
      ReallocServes(h, b, len, limit);
      BlocksApart(h, a, b, a + 2 + i);
      var (g, q) := Realloc(h, b, len, limit);
      if q != 0 {
        OthersLive(h, g, b, q - 2, len);
        BlocksApart(g, a, q - 2, a + 2 + i);
      }
  }

  lemma BlocksApart(h: Heap, a: nat, b: nat, y: nat)
    requires Fits(h) && a != b && Inside(h, a, y) && IsLive(h, b)
    ensures !Inside(h, b, y)
  {
  }
}
