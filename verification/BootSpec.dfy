/** Optiboot with a virtual boot partition, as a value: page 0 is patched on its way to flash so that
    reset enters the boot loader, and un-patched on its way back so that the host can verify. */
module BootSpec {
  import opened Arith

  type byte = x: int | 0 <= x < 256

  /** `small` parts, up to 8 KB, have one-word vectors holding rjmp; others two-word vectors holding
      jmp.  `vect` is the number of the vector that takes over the application's reset jump, `main`
      the boot loader's word address. */
  datatype Config = Config(pageSize: nat, flashSize: nat, small: bool, vect: nat, main: nat) {
    const rst0: nat := if small then 0 else 2
    const rst1: nat := if small then 1 else 3
    const save0: nat := if small then 2 * vect else 4 * vect + 2
    const save1: nat := if small then 2 * vect + 1 else 4 * vect + 3

    /** Where the four bytes put aside lie in RAM, counted from the receive buffer. */
    const sav: nat := 2 * pageSize + 4

    /** What the source's compile-time check accepts, on a part whose flash holds the vector table. */
    ghost predicate Accepted() {
      && 4 <= pageSize && pageSize % 2 == 0 && flashSize % pageSize == 0 && pageSize <= flashSize <= 0x1_0000
      && 1 <= vect < pageSize && save1 < flashSize && main < 0x1_0000
      && (small ==> flashSize <= 0x2000)
    }

    /** What the check is meant to ensure: the save vector lies in page 0. */
    ghost predicate Valid() {
      Accepted() && save1 < pageSize
    }
  }

  /** `ram` begins with the receive buffer, one page; the source's macros place the bytes put aside
      behind it. */
  datatype Boot = Boot(address: nat, flash: seq<byte>, ram: seq<byte>)

  ghost predicate BootOK(c: Config, b: Boot) {
    && c.Accepted() && |b.flash| == c.flashSize && b.address < 0x1_0000
    && c.sav + 4 <= |b.ram| && c.save1 < |b.ram|
  }

  function Lo(w: nat): byte { w % 256 }

  function Hi(w: nat): byte
    requires w < 0x1_0000
  {
    w / 256
  }

  // ----- patching -----

  /** The 12-bit displacement in an rjmp with the given low and high bytes. */
  function Displacement(lo: byte, hi: byte): (d: nat)
    ensures d < 0x1000
  {
    lo + 256 * (hi % 16)
  }

  /** The word address an rjmp at word `at` reaches in a 4096-word flash. */
  function RjmpTarget(at: nat, d: nat): nat {
    (at + 1 + d) % 0x1000
  }

  /** The displacement moved from word 0 to word `vect`, in 16-bit then 12-bit arithmetic. */
  function Relocated(d: nat, vect: nat): (r: nat)
    ensures r < 0x1000
  {
    (d - vect) % 0x1_0000 % 0x1000
  }

  /** Page 0 as it goes to flash when the save vector lies in it. */
  function Patched(c: Config, data: seq<byte>): seq<byte>
    requires c.Valid() && |data| == c.pageSize
  {
    if c.small then
      var d := Relocated(Displacement(data[0], data[1]), c.vect);
      data[c.save0 := Lo(d)][c.save1 := Hi(d) + 0xC0][0 := Lo(c.main % 0x1000)][1 := Hi(c.main % 0x1000) + 0xC0]
    else
      data[c.save0 := data[2]][c.save1 := data[3]][2 := Lo(c.main)][3 := Hi(c.main)]
  }

  /** RAM once a page has been received. */
  function Received(ram: seq<byte>, data: seq<byte>): seq<byte>
    requires |data| <= |ram|
  {
    data + ram[|data|..]
  }

  /** RAM once the bytes about to be patched have been put aside, one store after the other. */
  function PutAside(c: Config, ram: seq<byte>): (r: seq<byte>)
    requires c.Accepted() && c.sav + 4 <= |ram| && c.save1 < |ram|
    ensures |r| == |ram|
  {
    var r := ram[c.sav := ram[c.rst0]];
    var r := r[c.sav + 1 := r[c.rst1]];
    var r := r[c.sav + 2 := r[c.save0]];
    r[c.sav + 3 := r[c.save1]]
  }

  /** RAM once the buffer has been patched; a save vector beyond the page is patched there. */
  function PatchedRam(c: Config, ram: seq<byte>): (r: seq<byte>)
    requires c.Accepted() && c.sav + 4 <= |ram| && c.save1 < |ram|
    ensures |r| == |ram|
  {
    var r := PutAside(c, ram);
    if c.small then
      var d := Relocated(Displacement(r[c.sav], r[c.sav + 1]), c.vect);
      r[c.save0 := Lo(d)][c.save1 := Hi(d) + 0xC0][0 := Lo(c.main % 0x1000)][1 := Hi(c.main % 0x1000) + 0xC0]
    else
      var r := r[c.save0 := r[c.sav]];
      var r := r[c.save1 := r[c.sav + 1]];
      r[2 := Lo(c.main)][3 := Hi(c.main)]
  }

  /** A page written at `at`. */
  function WritePage(flash: seq<byte>, at: nat, page: seq<byte>): seq<byte>
    requires at + |page| <= |flash|
  {
    flash[..at] + page + flash[at + |page|..]
  }

  /** PROG_PAGE with a full page at a page address. */
  function Program(c: Config, b: Boot, data: seq<byte>): Boot
    requires BootOK(c, b) && |data| == c.pageSize && b.address + c.pageSize <= c.flashSize
  {
    var ram := Received(b.ram, data);
    var ram := if b.address == 0 then PatchedRam(c, ram) else ram;
    b.(ram := ram, flash := WritePage(b.flash, b.address, ram[..c.pageSize]))
  }

  /** What READ_PAGE sends for address `x`: the bytes put aside stand in for the patched ones. */
  function ReadByte(c: Config, b: Boot, x: nat): byte
    requires x < |b.flash| && c.sav + 4 <= |b.ram|
  {
    if x == c.rst0 then b.ram[c.sav]
    else if x == c.rst1 then b.ram[c.sav + 1]
    else if x == c.save0 then b.ram[c.sav + 2]
    else if x == c.save1 then b.ram[c.sav + 3]
    else b.flash[x]
  }

  // ----- sessions -----

  datatype Command = LoadAddress(w: nat) | ProgPage(data: seq<byte>)

  /** LOAD_ADDRESS converts a word address to a 16-bit byte address. */
  function ByteAddress(w: nat): nat {
    (w + w) % 0x1_0000
  }

  ghost predicate Allowed(c: Config, b: Boot, k: Command)
    requires c.Accepted()
  {
    match k
    case LoadAddress(w) => w < 0x1_0000
    case ProgPage(data) => |data| == c.pageSize && PageAt(c, b.address)
  }

  /** `a` is the address of a page of flash. */
  ghost predicate PageAt(c: Config, a: nat)
    requires c.Accepted()
  {
    a % c.pageSize == 0 && a < c.flashSize
  }

  ghost function Step(c: Config, b: Boot, k: Command): (g: Boot)
    requires BootOK(c, b) && Allowed(c, b, k)
    ensures BootOK(c, g)
  {
    match k
    case LoadAddress(w) => b.(address := ByteAddress(w))
    case ProgPage(data) => PageFits(c, b.address); Program(c, b, data)
  }

  lemma PagesApart(a: nat, b: nat, page: nat)
    requires 0 < page && a % page == 0 && b % page == 0 && a < b
    ensures a + page <= b
  {
    var i, j := a / page, b / page;
    assert a == i * page && b == j * page;
    assert i < j;
    assert (i + 1) * page <= j * page;
  }

  lemma PageFits(c: Config, a: nat)
    requires c.Accepted() && PageAt(c, a)
    ensures a + c.pageSize <= c.flashSize
  {
    PagesApart(a, c.flashSize, c.pageSize);
  }

  /** What the host last sent for each page. */
  ghost function Sent(b: Boot, image: map<nat, seq<byte>>, k: Command): map<nat, seq<byte>> {
    match k
    case LoadAddress(w) => image
    case ProgPage(data) => image[b.address := data]
  }

  ghost predicate AsideAre(c: Config, b: Boot, r0: byte, r1: byte, s0: byte, s1: byte)
    requires c.sav + 4 <= |b.ram|
  {
    b.ram[c.sav] == r0 && b.ram[c.sav + 1] == r1 && b.ram[c.sav + 2] == s0 && b.ram[c.sav + 3] == s1
  }

  /** The page sent for address `a` is in flash, page 0 in its patched form. */
  ghost predicate PageIs(c: Config, flash: seq<byte>, a: nat, data: seq<byte>)
    requires c.Valid() && |flash| == c.flashSize
  {
    |data| == c.pageSize && PageAt(c, a) && a + c.pageSize <= c.flashSize && flash[a..a + c.pageSize] == PageFor(c, a, data)
  }

  ghost predicate PagesAre(c: Config, flash: seq<byte>, image: map<nat, seq<byte>>)
    requires c.Valid() && |flash| == c.flashSize
  {
    forall a :: a in image ==> PageIs(c, flash, a, image[a])
  }

  /** Flash holds the pages sent, and what the patched page 0 hides has been put aside. */
  ghost predicate Holds(c: Config, b: Boot, image: map<nat, seq<byte>>) {
    && BootOK(c, b) && c.Valid() && PagesAre(c, b.flash, image)
    && (0 in image ==> AsideAre(c, b, image[0][c.rst0], image[0][c.rst1], image[0][c.save0], image[0][c.save1]))
  }

  lemma WritePageAt(flash: seq<byte>, at: nat, page: seq<byte>, a: nat)
    requires at + |page| <= |flash| && a + |page| <= |flash|
    requires a == at || a + |page| <= at || at + |page| <= a
    ensures |WritePage(flash, at, page)| == |flash|
    ensures WritePage(flash, at, page)[a..a + |page|] == if a == at then page else flash[a..a + |page|]
  {
  }

  /** The page as PROG_PAGE hands it to flash. */
  function PageFor(c: Config, at: nat, data: seq<byte>): seq<byte>
    requires c.Valid() && |data| == c.pageSize
  {
    if at == 0 then Patched(c, data) else data
  }

  /** Programming one page leaves the others. */
  lemma PageAfter(c: Config, flash: seq<byte>, at: nat, page: seq<byte>, a: nat)
    requires c.Accepted() && |flash| == c.flashSize && |page| == c.pageSize && PageAt(c, at) && PageAt(c, a)
    ensures at + |page| <= |flash| && a + |page| <= |flash|
    ensures |WritePage(flash, at, page)| == |flash|
    ensures WritePage(flash, at, page)[a..a + |page|] == if a == at then page else flash[a..a + |page|]
  {
    PageFits(c, at);
    PageFits(c, a);
    if a < at {
      PagesApart(a, at, c.pageSize);
    } else if at < a {
      PagesApart(at, a, c.pageSize);
    }
    WritePageAt(flash, at, page, a);
  }

  lemma PatchedLength(c: Config, data: seq<byte>)
    requires c.Valid() && |data| == c.pageSize
    ensures |Patched(c, data)| == c.pageSize
  {
  }

  lemma ProgramIs(c: Config, b: Boot, data: seq<byte>)
    requires BootOK(c, b) && c.Valid() && |data| == c.pageSize && b.address + c.pageSize <= c.flashSize
    ensures |PageFor(c, b.address, data)| == c.pageSize
    ensures var g := Program(c, b, data);
            && g.address == b.address && g.flash == WritePage(b.flash, b.address, PageFor(c, b.address, data))
            && |g.ram| == |b.ram|
            && if b.address == 0 then AsideAre(c, g, data[c.rst0], data[c.rst1], data[c.save0], data[c.save1])
               else AsideAre(c, g, b.ram[c.sav], b.ram[c.sav + 1], b.ram[c.sav + 2], b.ram[c.sav + 3])
  {
    hide WritePage;
    PatchedLength(c, data);
    var ram := Received(b.ram, data);
    if b.address == 0 {
      PatchedRamIs(c, b.ram, data);
    } else {
      assert ram[..c.pageSize] == data;
    }
  }

  /** With the save vector in page 0, patching and putting aside do not disturb each other. */
  lemma PatchedRamIs(c: Config, ram: seq<byte>, data: seq<byte>)
    requires c.Valid() && |data| == c.pageSize && c.sav + 4 <= |ram|
    ensures var r := PatchedRam(c, Received(ram, data));
            && |r| == |ram| && r[..c.pageSize] == Patched(c, data)
            && r[c.sav] == data[c.rst0] && r[c.sav + 1] == data[c.rst1]
            && r[c.sav + 2] == data[c.save0] && r[c.sav + 3] == data[c.save1]
  {
    hide Relocated, Displacement, Lo, Hi;
    var got := Received(ram, data);
    var r := PutAside(c, got);
    assert forall i :: 0 <= i < c.pageSize ==> r[i] == data[i];
    var p, q := PatchedRam(c, got), Patched(c, data);
    assert forall i :: 0 <= i < c.pageSize ==> p[i] == q[i];
  }

  lemma PageKept(c: Config, flash: seq<byte>, at: nat, page: seq<byte>, a: nat, data: seq<byte>)
    requires c.Valid() && |flash| == c.flashSize && PageAt(c, at) && |page| == c.pageSize
    requires if a == at then |data| == c.pageSize && page == PageFor(c, at, data) else PageIs(c, flash, a, data)
    ensures at + |page| <= |flash| && |WritePage(flash, at, page)| == |flash| && PageIs(c, WritePage(flash, at, page), a, data)
  {
    hide WritePage, PageFor;
    PageAfter(c, flash, at, page, a);
  }

  lemma PagesKept(c: Config, flash: seq<byte>, at: nat, data: seq<byte>, image: map<nat, seq<byte>>)
    requires c.Valid() && |flash| == c.flashSize && PagesAre(c, flash, image) && PageAt(c, at)
    requires |data| == c.pageSize == |PageFor(c, at, data)|
    ensures at + c.pageSize <= c.flashSize
    ensures var g := WritePage(flash, at, PageFor(c, at, data)); |g| == c.flashSize && PagesAre(c, g, image[at := data])
  {
    hide WritePage, PageAt, Config.Valid, Config.Accepted, PageFor, PageIs;
    var page, sent := PageFor(c, at, data), image[at := data];
    PageKept(c, flash, at, page, at, data);
    var g := WritePage(flash, at, page);
    forall a | a in sent ensures PageIs(c, g, a, sent[a]) {
      PageKept(c, flash, at, page, a, sent[a]);
    }
  }

  lemma StepHolds(c: Config, b: Boot, image: map<nat, seq<byte>>, k: Command)
    requires Holds(c, b, image) && Allowed(c, b, k)
    ensures Holds(c, Step(c, b, k), Sent(b, image, k))
  {
    hide Program, WritePage, PageAt, Config.Valid, Config.Accepted, PagesAre, PageFor;
    match k
    case LoadAddress(w) =>
    case ProgPage(data) =>
      PageFits(c, b.address);
      ProgramIs(c, b, data);
      PagesKept(c, b.flash, b.address, data, image);
  }

  /** Any byte of any page sent reads back as sent, whatever was patched. */
  lemma ReadsBack(c: Config, b: Boot, image: map<nat, seq<byte>>, a: nat, i: nat)
    requires Holds(c, b, image) && a in image && i < c.pageSize
    ensures a + i < |b.flash| && c.sav + 4 <= |b.ram| && ReadByte(c, b, a + i) == image[a][i]
  {
    assert b.flash[a..a + c.pageSize][i] == b.flash[a + i];
    if a != 0 { PagesApart(0, a, c.pageSize); }
  }

  ghost predicate Legal(c: Config, b: Boot, ks: seq<Command>)
    requires BootOK(c, b)
    decreases |ks|
  {
    ks == [] || (Allowed(c, b, ks[0]) && Legal(c, Step(c, b, ks[0]), ks[1..]))
  }

  ghost function Run(c: Config, b: Boot, ks: seq<Command>): Boot
    requires BootOK(c, b) && Legal(c, b, ks)
    decreases |ks|
  {
    if ks == [] then b else Run(c, Step(c, b, ks[0]), ks[1..])
  }

  ghost function ImageOf(c: Config, b: Boot, image: map<nat, seq<byte>>, ks: seq<Command>): map<nat, seq<byte>>
    requires BootOK(c, b) && Legal(c, b, ks)
    decreases |ks|
  {
    if ks == [] then image else ImageOf(c, Step(c, b, ks[0]), Sent(b, image, ks[0]), ks[1..])
  }

  lemma {:induction false} RunHolds(c: Config, b: Boot, image: map<nat, seq<byte>>, ks: seq<Command>)
    requires BootOK(c, b) && Holds(c, b, image) && Legal(c, b, ks)
    ensures Holds(c, Run(c, b, ks), ImageOf(c, b, image, ks))
    decreases |ks|
  {
    hide Holds, Step, Sent, Allowed;
    if ks != [] {
      StepHolds(c, b, image, ks[0]);
      RunHolds(c, Step(c, b, ks[0]), Sent(b, image, ks[0]), ks[1..]);
    }
  }

  /** After any sequence of commands the host reads back the bytes it last sent for every page it
      programmed, page 0 included. */
  lemma EverySessionVerifies(c: Config, b: Boot, ks: seq<Command>, a: nat, i: nat)
    requires BootOK(c, b) && c.Valid() && Legal(c, b, ks)
    requires a in ImageOf(c, b, map[], ks) && i < c.pageSize
    ensures var g, image := Run(c, b, ks), ImageOf(c, b, map[], ks);
            a + i < |g.flash| && c.sav + 4 <= |g.ram| && |image[a]| == c.pageSize && ReadByte(c, g, a + i) == image[a][i]
  {
    assert Holds(c, b, map[]);
    RunHolds(c, b, map[], ks);
    ReadsBack(c, Run(c, b, ks), ImageOf(c, b, map[], ks), a, i);
  }

  /** And every page but page 0 lies in flash as it was sent. */
  lemma EverySessionStores(c: Config, b: Boot, ks: seq<Command>, a: nat)
    requires BootOK(c, b) && c.Valid() && Legal(c, b, ks) && a in ImageOf(c, b, map[], ks) && a != 0
    ensures var g, sent := Run(c, b, ks), ImageOf(c, b, map[], ks)[a];
            |sent| == c.pageSize && a + c.pageSize <= |g.flash| && g.flash[a..a + c.pageSize] == sent
  {
    hide Legal, Run, ImageOf;
    RunHolds(c, b, map[], ks);
  }

  // ----- what the patched page does -----

  /** Small parts: the relocated rjmp at the save vector reaches the word the application's own
      reset rjmp reached, for every displacement. */
  lemma RelocatedReachesSame(d: nat, vect: nat)
    requires d < 0x1000 && vect < 0x1000
    ensures RjmpTarget(vect, Relocated(d, vect)) == RjmpTarget(0, d)
  {
  }

  lemma ResetTarget(main: nat)
    ensures RjmpTarget(0, main % 0x1000) == (main + 1) % 0x1000
  {
  }

  /** An rjmp's bytes carry its displacement. */
  lemma RjmpBytes(d: nat)
    requires d < 0x1000
    ensures Hi(d) < 16 && Displacement(Lo(d), Hi(d) + 0xC0) == d && (Hi(d) as int + 0xC0) / 16 == 12
  {
  }

  lemma SmallBytes(c: Config, data: seq<byte>)
    requires c.Valid() && c.small && |data| == c.pageSize
    ensures var p, d := Patched(c, data), Relocated(Displacement(data[0], data[1]), c.vect);
            |p| == c.pageSize && p[c.save0] == Lo(d) && p[c.save1] == Hi(d) + 0xC0 &&
            p[0] == Lo(c.main % 0x1000) && p[1] == Hi(c.main % 0x1000) + 0xC0
  {
    hide Relocated, Displacement, Lo;
  }

  /** Small parts, in bytes: the save vector holds an rjmp to the application's entry, and the reset
      vector an rjmp.  The displacement stored there is the boot loader's address itself, so by the
      instruction's PC + 1 + k the jump arrives one word past it. */
  lemma SmallPage(c: Config, data: seq<byte>)
    requires c.Valid() && c.small && |data| == c.pageSize
    ensures var p := Patched(c, data);
            && p[c.save1] / 16 == 12 && p[1] / 16 == 12
            && RjmpTarget(c.vect, Displacement(p[c.save0], p[c.save1])) == RjmpTarget(0, Displacement(data[0], data[1]))
            && RjmpTarget(0, Displacement(p[0], p[1])) == (c.main + 1) % 0x1000
  {
    hide Displacement, Relocated, Patched, Lo, Hi, RjmpTarget;
    var d := Relocated(Displacement(data[0], data[1]), c.vect);
    SmallBytes(c, data);
    RjmpBytes(d);
    RjmpBytes(c.main % 0x1000);
    ResetTarget(c.main);
    RelocatedReachesSame(Displacement(data[0], data[1]), c.vect);
  }

  /** Large parts: the reset vector jumps to the boot loader, and the save vector ends up holding the
      application's whole reset instruction exactly when its slot held the same jmp opcode before,
      as the vector tables of applications do. */
  lemma LargePage(c: Config, data: seq<byte>)
    requires c.Valid() && !c.small && |data| == c.pageSize
    ensures var p, at := Patched(c, data), 4 * c.vect;
            && |p| == c.pageSize && (p[at..at + 4] == data[..4] <==> data[at..at + 2] == data[..2])
            && p[..2] == data[..2] && p[2] as int + 256 * (p[3] as int) == c.main
  {
    var p, at := Patched(c, data), 4 * c.vect;
    assert p[at..at + 4] == [p[at], p[at + 1], p[at + 2], p[at + 3]] && data[..4] == [data[0], data[1], data[2], data[3]];
    assert data[at..at + 2] == [data[at], data[at + 1]] && data[..2] == [data[0], data[1]];
  }

  /** After any sequence of commands that programmed page 0, the jump through the save vector enters
      the application the host last sent, and no byte but those of the two vectors has changed. */
  lemma EverySessionBoots(c: Config, b: Boot, ks: seq<Command>)
    requires BootOK(c, b) && c.Valid() && Legal(c, b, ks) && 0 in ImageOf(c, b, map[], ks)
    ensures var flash, sent := Run(c, b, ks).flash, ImageOf(c, b, map[], ks)[0];
            && |sent| == c.pageSize <= |flash|
            && (forall i :: 0 <= i < c.pageSize && i != c.rst0 && i != c.rst1 && i != c.save0 && i != c.save1 ==> flash[i] == sent[i])
            && if c.small then
                 flash[c.save1] / 16 == 12 &&
                 RjmpTarget(c.vect, Displacement(flash[c.save0], flash[c.save1])) == RjmpTarget(0, Displacement(sent[0], sent[1]))
               else
                 flash[4 * c.vect..4 * c.vect + 4] == sent[..4] <==> sent[4 * c.vect..4 * c.vect + 2] == sent[..2]
  {
    hide Patched, RjmpTarget, Displacement, Run, ImageOf;
    RunHolds(c, b, map[], ks);
    var flash, sent := Run(c, b, ks).flash, ImageOf(c, b, map[], ks)[0];
    assert flash[..c.pageSize] == Patched(c, sent);
    forall i | 0 <= i < c.pageSize && i != c.rst0 && i != c.rst1 && i != c.save0 && i != c.save1 ensures flash[i] == sent[i] {
      PatchedElsewhere(c, sent, i);
      assert flash[i] == flash[..c.pageSize][i];
    }
    if c.small {
      SmallPage(c, sent);
      assert flash[c.save0] == flash[..c.pageSize][c.save0] && flash[c.save1] == flash[..c.pageSize][c.save1];
    } else {
      LargePage(c, sent);
      assert flash[4 * c.vect..4 * c.vect + 4] == flash[..c.pageSize][4 * c.vect..4 * c.vect + 4];
    }
  }

  /** Patching touches the two vectors and nothing else. */
  lemma PatchedElsewhere(c: Config, data: seq<byte>, i: nat)
    requires c.Valid() && |data| == c.pageSize && i < c.pageSize
    requires i != c.rst0 && i != c.rst1 && i != c.save0 && i != c.save1
    ensures |Patched(c, data)| == c.pageSize && Patched(c, data)[i] == data[i]
  {
  }

  // ----- the compile-time check -----

  /** The host reads back every byte it sent. */
  ghost predicate Verifies(c: Config, b: Boot, ks: seq<Command>)
    requires BootOK(c, b) && Legal(c, b, ks)
  {
    var g, image := Run(c, b, ks), ImageOf(c, b, map[], ks);
    forall a, i: nat :: a in image && i < c.pageSize ==> AsSent(c, g, image[a], a, i)
  }

  ghost predicate AsSent(c: Config, g: Boot, page: seq<byte>, a: nat, i: nat) {
    a + i < |g.flash| && c.sav + 4 <= |g.ram| && i < |page| && ReadByte(c, g, a + i) == page[i]
  }

  ghost predicate ProgramsVectorPages(c: Config, b: Boot, ks: seq<Command>)
    requires BootOK(c, b) && Legal(c, b, ks)
  {
    0 in ImageOf(c, b, map[], ks) && VectorPage(c) in ImageOf(c, b, map[], ks)
  }

  function RoundedDown(x: nat, n: nat): nat
    requires 0 < n
  {
    x / n * n
  }

  /** The page that holds the save vector. */
  function VectorPage(c: Config): nat
    requires 0 < c.pageSize
  {
    RoundedDown(c.save0, c.pageSize)
  }

  /** The check compares the page size with a vector number.  Of all configurations it accepts, those
      whose save vector lies in page 0 are exactly those in which every session that programs page 0
      and the save vector's page verifies. */
  lemma VectorCheckIff(c: Config)
    requires c.Accepted()
    ensures c.save1 < c.pageSize <==>
            forall b, ks :: BootOK(c, b) && Legal(c, b, ks) && ProgramsVectorPages(c, b, ks) ==> Verifies(c, b, ks)
  {
    hide Legal, Run, ImageOf, ReadByte, Config.Accepted, Config.Valid, VectorPage;
    if c.save1 < c.pageSize {
      forall b, ks | BootOK(c, b) && Legal(c, b, ks) ensures Verifies(c, b, ks) { AllVerify(c, b, ks); }
    } else {
      var b, ks := Unverified(c);
    }
  }

  lemma AllVerify(c: Config, b: Boot, ks: seq<Command>)
    requires BootOK(c, b) && c.save1 < c.pageSize && Legal(c, b, ks)
    ensures Verifies(c, b, ks)
  {
    hide Legal, Run, ImageOf, ReadByte;
    var g, image := Run(c, b, ks), ImageOf(c, b, map[], ks);
    forall a, i: nat | a in image && i < c.pageSize ensures AsSent(c, g, image[a], a, i) {
      EverySessionVerifies(c, b, ks, a, i);
    }
  }

  /** A save vector beyond page 0: what is put aside for it is whatever lies behind the buffer, and is
      sent in place of the byte the host stored in the vector's own page. */
  lemma Unverified(c: Config) returns (b: Boot, ks: seq<Command>)
    requires c.Accepted() && c.pageSize <= c.save1
    ensures BootOK(c, b) && Legal(c, b, ks) && !Verifies(c, b, ks)
    ensures ProgramsVectorPages(c, b, ks)
  {
    hide PatchedRam, WritePage, VectorPage, ReadByte, PageAt, Legal, Run, ImageOf, Program;
    var at := VectorPage(c);
    VectorPageFacts(c);
    b := Boot(0, Zeros(c.flashSize), Zeros(c.sav + 4 + c.save1));
    var d0 := Zeros(c.pageSize);
    PageZero(c);
    var b1 := Step(c, b, ProgPage(d0));
    var b2 := Step(c, b1, LoadAddress(at / 2));
    var v: byte := b1.ram[c.sav + 2];
    var d1 := seq(c.pageSize, i => (v as int + 1) % 256);
    var b3 := Step(c, b2, ProgPage(d1));
    ks := [ProgPage(d0), LoadAddress(at / 2), ProgPage(d1)];
    ThreeSteps(c, b, ProgPage(d0), LoadAddress(at / 2), ProgPage(d1));
    SentInstead(c, b2, d1);
    var image := ImageOf(c, b, map[], ks);
    assert at in image && image[at] == d1;
    var i: nat := c.save0 - at;
    assert !AsSent(c, b3, image[at], at, i);
  }

  lemma PageZero(c: Config)
    requires c.Accepted()
    ensures PageAt(c, 0)
  {
  }

  lemma ThreeSteps(c: Config, b: Boot, k0: Command, k1: Command, k2: Command)
    requires BootOK(c, b) && Allowed(c, b, k0) && Allowed(c, Step(c, b, k0), k1)
    requires Allowed(c, Step(c, Step(c, b, k0), k1), k2)
    ensures var b1 := Step(c, b, k0); var b2 := Step(c, b1, k1);
            && Legal(c, b, [k0, k1, k2]) && Run(c, b, [k0, k1, k2]) == Step(c, b2, k2)
            && ImageOf(c, b, map[], [k0, k1, k2]) == Sent(b2, Sent(b1, Sent(b, map[], k0), k1), k2)
  {
    hide Step, Allowed, Sent;
    var b1 := Step(c, b, k0);
    var b2 := Step(c, b1, k1);
    var i1 := Sent(b, map[], k0);
    var i2 := Sent(b1, i1, k1);
    var b3, i3 := Step(c, b2, k2), Sent(b2, i2, k2);
    assert Legal(c, b3, []) && Run(c, b3, []) == b3 && ImageOf(c, b3, i3, []) == i3;
    Before(c, b2, i2, k2, []);
    Before(c, b1, i1, k1, [k2]);
    Before(c, b, map[], k0, [k1, k2]);
    assert [k0] + [k1, k2] == [k0, k1, k2] && [k1] + [k2] == [k1, k2] && [k2] + [] == [k2];
  }

  lemma Before(c: Config, b: Boot, image: map<nat, seq<byte>>, k: Command, ks: seq<Command>)
    requires BootOK(c, b) && Allowed(c, b, k) && Legal(c, Step(c, b, k), ks)
    ensures Legal(c, b, [k] + ks) && Run(c, b, [k] + ks) == Run(c, Step(c, b, k), ks)
    ensures ImageOf(c, b, image, [k] + ks) == ImageOf(c, Step(c, b, k), Sent(b, image, k), ks)
  {
    hide Step, Allowed, Sent;
    assert ([k] + ks)[1..] == ks;
  }

  /** The save vector's own page, programmed after page 0. */
  lemma SentInstead(c: Config, b: Boot, data: seq<byte>)
    requires BootOK(c, b) && b.address == VectorPage(c) && c.pageSize <= c.save1 && |data| == c.pageSize
    requires Allowed(c, b, ProgPage(data))
    ensures var g := Step(c, b, ProgPage(data));
            c.save0 < |g.flash| && c.sav + 4 <= |g.ram| && ReadByte(c, g, c.save0) == b.ram[c.sav + 2]
  {
    hide WritePage, VectorPage, PatchedRam;
    VectorPageFacts(c);
  }

  function Zeros(n: nat): (s: seq<byte>)
    ensures |s| == n
  {
    seq(n, i => 0)
  }

  lemma VectorPageFacts(c: Config)
    requires c.Accepted() && c.pageSize <= c.save1
    ensures var at := VectorPage(c);
            && 0 < at <= c.save0 < at + c.pageSize && PageAt(c, at) && ByteAddress(at / 2) == at && c.save0 < c.flashSize
  {
    hide RoundedDown;
    RoundDown(c.save0, c.pageSize);
  }

  lemma RoundDown(x: nat, n: nat)
    requires 0 < n <= x && n % 2 == 0
    ensures var at := RoundedDown(x, n); 0 < at <= x < at + n && at % n == 0 && at % 2 == 0
  {
    var q, h := x / n, n / 2;
    assert x == q * n + x % n;
    DivModUnique(q * n, n, q, 0);
    MulAtLeast(q, n);
    assert q * n == 2 * (q * h);
  }

  /** The check does accept such a configuration, with 64-byte pages and the save vector in the second,
      and a session then goes wrong. */
  lemma VectorCheckTooWeak()
    ensures exists c, b, ks :: BootOK(c, b) && Legal(c, b, ks) && ProgramsVectorPages(c, b, ks) && !Verifies(c, b, ks)
  {
    hide Legal, Verifies, ProgramsVectorPages;
    var c := Config(64, 0x4000, false, 25, 0x1F00);
    var b, ks := Unverified(c);
  }
}
