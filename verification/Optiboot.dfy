/** The boot loader's memory commands on flash, the page buffer and the receive buffer. */
module Optiboot {
  import opened Arith
  import opened BootSpec

  class Optiboot {
    const c: Config
    const flash: array<byte>
    const temp: array<byte>    // the flash controller's page buffer
    const ram: array<byte>     // from RAMSTART: buff, a page received from the host, and what lies behind it
    var address: nat

    ghost function State(): Boot
      reads this, flash, ram
    {
      Boot(address, flash[..], ram[..])
    }

    ghost predicate Valid()
      reads this, flash, ram
    {
      && BootOK(c, State())
      && temp.Length == c.pageSize
      && flash != temp && flash != ram && temp != ram
    }

    /** LOAD_ADDRESS: a word address, low byte first. */
    method LoadAddress(lo: byte, hi: byte)
      requires Valid()
      modifies this`address
      ensures Valid() && State() == old(State()).(address := ByteAddress(lo as int + 256 * (hi as int)))
    {
      var newAddress: nat := lo as int + 256 * (hi as int);
      newAddress := (newAddress + newAddress) % 0x1_0000;
      address := newAddress;
    }

    /** PROG_PAGE for flash: receive a page, patch it if it is page 0, write it. */
    method ProgPage(data: seq<byte>)
      requires Valid() && Allowed(c, State(), Command.ProgPage(data))
      modifies flash, temp, ram
      ensures Valid() && State() == Step(c, old(State()), Command.ProgPage(data))
    {
      hide PatchedRam, Received, WritePage, PageAt;
      PageFits(c, address);
      Receive(data);
      if address == 0 {
        PatchBuffer();
      }
      WriteBuffer();
    }

    lemma HiOfTwelveBits(d: nat)
      requires d < 0x1000
      ensures Hi(d) < 16
    {
    }

    method Receive(data: seq<byte>)
      requires |data| <= ram.Length
      modifies ram
      ensures ram[..] == Received(old(ram[..]), data)
    {
      for i := 0 to |data|
        invariant ram[..i] == data[..i] && ram[|data|..] == old(ram[|data|..])
      {
        ram[i] := data[i];
      }
    }

    /** Live-patch the reset page so that the boot loader runs first, with the patched bytes put aside. */
    method PatchBuffer()
      requires c.Accepted() && c.sav + 4 <= ram.Length && c.save1 < ram.Length
      modifies ram
      ensures ram[..] == PatchedRam(c, old(ram[..]))
    {
      hide Displacement, Relocated, Lo, Hi;
      ram[c.sav] := ram[c.rst0];
      ram[c.sav + 1] := ram[c.rst1];
      ram[c.sav + 2] := ram[c.save0];
      ram[c.sav + 3] := ram[c.save1];
      assert ram[..] == PutAside(c, old(ram[..]));
      if c.small {
        var vect := Relocated(Displacement(ram[c.sav], ram[c.sav + 1]), c.vect);
        HiOfTwelveBits(vect);
        HiOfTwelveBits(c.main % 0x1000);
        ram[c.save0] := Lo(vect);
        ram[c.save1] := Hi(vect) + 0xC0;
        vect := c.main % 0x1000;
        ram[0] := Lo(vect);
        ram[1] := Hi(vect) + 0xC0;
      } else {
        ram[c.save0] := ram[c.sav];
        ram[c.save1] := ram[c.sav + 1];
        ram[2] := Lo(c.main);
        ram[3] := Hi(c.main);
      }
    }

    /** writebuffer: erase the page, fill the page buffer word by word, write the page. */
    method WriteBuffer()
      requires Valid() && PageAt(c, address)
      modifies flash, temp
      ensures Valid() && address + c.pageSize <= |old(State()).flash|
      ensures State() == old(State()).(flash := WritePage(old(flash[..]), address, old(ram[..c.pageSize])))
    {
      PageFits(c, address);
      ErasePage(address);
      FillPageBuffer(address);
      PageWrite(address);
      assert flash[..] == WritePage(old(flash[..]), address, old(ram[..c.pageSize]));
    }

    method ErasePage(at: nat)
      requires at + c.pageSize <= flash.Length
      modifies flash
      ensures flash[..at] == old(flash[..at]) && flash[at + c.pageSize..] == old(flash[at + c.pageSize..])
      ensures forall k :: at <= k < at + c.pageSize ==> flash[k] == 0xFF
    {
      for i := at to at + c.pageSize
        invariant forall k :: 0 <= k < flash.Length ==> flash[k] == if at <= k < i then 0xFF else old(flash[k])
      {
        flash[i] := 0xFF;
      }
    }

    /** Two bytes at a time, at the place in the page buffer that the address selects. */
    method FillPageBuffer(at: nat)
      requires 0 < c.pageSize == temp.Length <= ram.Length && c.pageSize % 2 == 0 && at % c.pageSize == 0 && temp != ram
      modifies temp
      ensures temp[..] == ram[..c.pageSize]
    {
      var addrPtr, len := at, c.pageSize;
      while len != 0
        invariant 0 <= len <= c.pageSize && len % 2 == 0 && addrPtr + len == at + c.pageSize
        invariant forall k :: 0 <= k < addrPtr - at ==> temp[k] == ram[k]
        decreases len
      {
        InPage(at, addrPtr - at, c.pageSize);
        InPage(at, addrPtr + 1 - at, c.pageSize);
        temp[addrPtr % c.pageSize] := ram[addrPtr - at];
        temp[(addrPtr + 1) % c.pageSize] := ram[addrPtr + 1 - at];
        addrPtr := addrPtr + 2;
        len := len - 2;
      }
    }

    method PageWrite(at: nat)
      requires at + c.pageSize <= flash.Length && temp.Length == c.pageSize && flash != temp
      modifies flash
      ensures flash[..] == old(flash[..at]) + temp[..] + old(flash[at + c.pageSize..])
    {
      for i := 0 to c.pageSize
        invariant forall k :: 0 <= k < flash.Length ==> flash[k] == if at <= k < at + i then temp[k - at] else old(flash[k])
      {
        flash[at + i] := temp[i];
      }
    }

    lemma InPage(a: nat, i: nat, page: nat)
      requires 0 < page && a % page == 0 && i < page
      ensures (a + i) % page == i
    {
      DivModUnique(a + i, page, a / page, i);
    }

    /** READ_PAGE for flash: `length` bytes from the current address, with the vectors un-patched. */
    method ReadPage(length: nat) returns (sent: seq<byte>)
      requires Valid() && 0 < length && address + length <= c.flashSize
      ensures |sent| == length && forall i :: 0 <= i < length ==> sent[i] == ReadByte(c, State(), address + i)
    {
      sent := [];
      var a := address;
      while a < address + length
        invariant address <= a <= address + length && |sent| == a - address
        invariant forall i :: 0 <= i < |sent| ==> sent[i] == ReadByte(c, State(), address + i)
      {
        var ch;
        if a == c.rst0 { ch := ram[c.sav]; }
        else if a == c.rst1 { ch := ram[c.sav + 1]; }
        else if a == c.save0 { ch := ram[c.sav + 2]; }
        else if a == c.save1 { ch := ram[c.sav + 3]; }
        else { ch := flash[a]; }
        a := a + 1;
        sent := sent + [ch];
      }
    }
  }
}
