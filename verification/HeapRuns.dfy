/** Whole runs of the allocator: any sequence of calls a correct client may make. */
module HeapRuns {
  import opened HeapSpec
  import opened HeapOps
  import opened HeapAlloc
  import opened HeapRealloc

  /** A call, with the stack limit in force when it is made. */
  datatype Call =
    | Allocate(len: nat, limit: nat)
    | Release(a: nat)
    | Resize(a: nat, len: nat, limit: nat)

  /** The client frees and resizes only live blocks, and resizes them safely. */
  ghost predicate Allowed(h: Heap, c: Call) {
    match c
    case Allocate(len, limit) => len < ADDRESSES && limit < ADDRESSES
    case Release(a) => IsLive(h, a)
    case Resize(a, len, limit) => IsLive(h, a) && len < ADDRESSES && limit < ADDRESSES && ReallocSafe(h, a, len, limit)
  }

  ghost function Step(h: Heap, c: Call): Heap
    requires WF(h) && Allowed(h, c)
  {
    match c
    case Allocate(len, limit) => Malloc(h, len, limit).0
    case Release(a) => Freed(h, a)
    case Resize(a, len, limit) => Realloc(h, a, len, limit).0
  }

  lemma StepFits(h: Heap, c: Call)
    requires Fits(h) && Allowed(h, c)
    ensures Fits(Step(h, c)) && Step(h, c).start == h.start
  {
    hide Malloc, Freed, Realloc, Tiles, Coalesced;
    match c
    case Allocate(len, limit) => MallocKeepsWF(h, len, limit);
    case Release(a) => FreedKeeps(h, a);
    case Resize(a, len, limit) => ReallocServes(h, a, len, limit);
  }

  ghost predicate Legal(h: Heap, calls: seq<Call>)
    requires Fits(h)
    decreases |calls|
  {
    calls == [] ||
    (Allowed(h, calls[0]) && (StepFits(h, calls[0]); Legal(Step(h, calls[0]), calls[1..])))
  }

  ghost function Run(h: Heap, calls: seq<Call>): (g: Heap)
    requires Fits(h) && Legal(h, calls)
    decreases |calls|
  {
    if calls == [] then h else
    StepFits(h, calls[0]);
    Run(Step(h, calls[0]), calls[1..])
  }

  /** The heap before the first call. */
  function Empty(start: nat): Heap {
    Heap(start, start, map[], [])
  }

  /** In every reachable state the chunks tile the heap, the free list is the free chunks in
      address order, no two free chunks touch and the topmost chunk is live. */
  lemma {:induction false} EveryRunWellFormed(h: Heap, calls: seq<Call>)
    requires Fits(h) && Legal(h, calls)
    ensures Fits(Run(h, calls)) && Run(h, calls).start == h.start
    decreases |calls|
  {
    if calls != [] {
      StepFits(h, calls[0]);
      EveryRunWellFormed(Step(h, calls[0]), calls[1..]);
    }
  }

  /** Live blocks never overlap: two payloads share no byte, nor does a payload reach a header. */
  lemma EveryRunDisjoint(start: nat, calls: seq<Call>, a: nat, b: nat)
    requires 2 <= start < ADDRESSES && Fits(Empty(start)) && Legal(Empty(start), calls)
    requires a != b && a in Live(Run(Empty(start), calls)) && b in Live(Run(Empty(start), calls))
    ensures var live := Live(Run(Empty(start), calls));
            a + 2 + live[a] <= b || b + 2 + live[b] <= a
  {
    EveryRunWellFormed(Empty(start), calls);
  }

  /** Two runs that leave the same live blocks leave the same heap, however they got there. */
  lemma RunsForgetHistory(start: nat, calls: seq<Call>, calls': seq<Call>)
    requires 2 <= start < ADDRESSES && Fits(Empty(start)) && Legal(Empty(start), calls) && Legal(Empty(start), calls')
    requires Live(Run(Empty(start), calls)) == Live(Run(Empty(start), calls'))
    ensures Run(Empty(start), calls) == Run(Empty(start), calls')
  {
    EveryRunWellFormed(Empty(start), calls);
    EveryRunWellFormed(Empty(start), calls');
    DeterminedByLive(Run(Empty(start), calls), Run(Empty(start), calls'));
  }

  function Releases(order: seq<nat>): seq<Call> {
    seq(|order|, i requires 0 <= i < |order| => Release(order[i]))
  }

  /** Freeing every live block, in any order, is legal and leaves the empty heap. */
  lemma {:induction false} FreeingAllEmpties(h: Heap, order: seq<nat>)
    requires Fits(h)
    requires forall a :: a in order <==> a in Live(h)
    requires forall i, j :: 0 <= i < j < |order| ==> order[i] != order[j]
    ensures Legal(h, Releases(order)) && Run(h, Releases(order)) == Empty(h.start)
    decreases |order|
  {
    hide Freed, Tiles, Coalesced;
    if order == [] {
      assert Live(h) == map[];
      NothingLive(h);
    } else {
      assert order[0] in order;
      FreedKeeps(h, order[0]);
      assert forall x :: x in order <==> x == order[0] || x in order[1..];
      FreeingAllEmpties(Freed(h, order[0]), order[1..]);
      assert Releases(order)[1..] == Releases(order[1..]);
    }
  }
}
