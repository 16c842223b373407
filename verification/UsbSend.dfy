/** USB_Send on a double-buffered bulk IN endpoint, while start-of-frame interrupts flush the open
    bank and the host takes released packets. */
module UsbSend {

  type byte = x: int | 0 <= x < 256

  const EP_SIZE := 64   // USB_EP_SIZE
  const BANKS := 2      // EP_DOUBLE_64

  function Flat(packets: seq<seq<byte>>): seq<byte> {
    if packets == [] then [] else Flat(packets[..|packets| - 1]) + packets[|packets| - 1]
  }

  /** No packet exceeds the endpoint size, and an empty one follows only a full one. */
  ghost predicate PacketsOK(packets: seq<seq<byte>>) {
    && (forall p :: p in packets ==> |p| <= EP_SIZE)
    && (forall i :: 0 <= i < |packets| && packets[i] == [] ==> 0 < i && |packets[i - 1]| == EP_SIZE)
  }

  class Endpoint {
    const prompt: bool                   // the host takes released packets before the next poll
    var configured: bool
    var open: seq<byte>                  // bytes in the bank being filled
    var unread: nat                      // released packets the host has not taken
    ghost var packets: seq<seq<byte>>    // all released packets, in order

    ghost predicate Valid()
      reads this
    {
      unread <= BANKS && |open| <= EP_SIZE && (unread == BANKS ==> open == []) && PacketsOK(packets)
    }

    /** Between calls the open bank is never left full. */
    ghost predicate Resting()
      reads this
    {
      Valid() && |open| < EP_SIZE
    }

    /** Everything handed to the endpoint, in order. */
    ghost function Stream(): seq<byte>
      reads this
    {
      Flat(packets) + open
    }

    /** The host can tell that the transfer is over, at the next flush at the latest: it ends with a
        packet shorter than the endpoint size. */
    ghost predicate Terminated()
      reads this
    {
      0 < |open| < EP_SIZE || (open == [] && packets != [] && |packets[|packets| - 1]| < EP_SIZE)
    }

    constructor (prompt: bool)
      ensures Resting() && Stream() == [] && this.prompt == prompt
    {
      this.prompt := prompt;
      configured, open, unread, packets := false, [], 0, [];
    }

    /** RWAL: a bank is free and not full. */
    predicate ReadWriteAllowed()
      reads this
    {
      unread < BANKS && |open| < EP_SIZE
    }

    method ReleaseTX()
      requires Valid() && unread < BANKS
      requires open == [] ==> packets != [] && |packets[|packets| - 1]| == EP_SIZE
      modifies this`open, this`unread, this`packets
      ensures Valid() && open == [] && packets == old(packets) + [old(open)] && Stream() == old(Stream())
      ensures unread == old(unread) + 1
    {
      packets := packets + [open];
      assert packets[..|packets| - 1] == old(packets);
      open := [];
      unread := unread + 1;
    }

    /** The interrupt's USB_Flush, releasing only a writable bank that holds something. */
    method StartOfFrame()
      requires Valid()
      modifies this`open, this`unread, this`packets
      ensures Valid() && Stream() == old(Stream())
      ensures Flushed(old(open), old(packets), open, packets) && open == []
      ensures unread + |old(packets)| == old(unread) + |packets|
    {
      if open != [] { ReleaseTX(); }
    }

    /** Any number of start-of-frame interrupts and host reads. */
    method Interleave()
      requires Valid()
      modifies this`open, this`unread, this`packets
      ensures Valid() && Stream() == old(Stream())
      ensures Flushed(old(open), old(packets), open, packets)
      ensures unread + |old(packets)| <= old(unread) + |packets| && (prompt ==> unread == 0)
    {
      var n :| 0 <= n;
      for i := 0 to n
        invariant Valid() && Stream() == old(Stream())
        invariant Flushed(old(open), old(packets), open, packets)
        invariant unread + |old(packets)| <= old(unread) + |packets|
      {
        var frame: bool := *;
        if frame {
          StartOfFrame();
        } else if 0 < unread {
          unread := unread - 1;
        }
      }
      if prompt { unread := 0; }
    }

    /** USB_SendSpace */
    method SendSpace() returns (n: nat)
      requires Valid()
      ensures n == if ReadWriteAllowed() then EP_SIZE - |open| else 0
    {
      if !ReadWriteAllowed() { return 0; }
      return EP_SIZE - |open|;
    }

    /** Ask for space, with interrupts before and after.  Space is found at the latest when the host has
        taken every released packet, and is that of the bank as it was or of a fresh one. */
    method Poll() returns (n: nat)
      requires Resting()
      modifies this`open, this`unread, this`packets
      ensures Resting() && Stream() == old(Stream()) && Flushed(old(open), old(packets), open, packets)
      ensures 0 < n ==> |open| + n <= EP_SIZE && (ReadWriteAllowed() || |open| < |old(open)|)
      ensures 0 < n ==> n == EP_SIZE - |old(open)| || n == EP_SIZE
      ensures prompt || old(unread == 0 || (unread < BANKS && open == [])) ==> 0 < n
    {
      Interleave();
      n := SendSpace();
      Interleave();
    }

    /** The locked part of one round: put `chunk` in the bank, release it when full, forced, or to
        send a zero-length packet. */
    method FillBank(chunk: seq<byte>, last: bool, sendZlp: bool, release: bool) returns (zlp: bool)
      requires Valid() && ReadWriteAllowed() && |open| + |chunk| <= EP_SIZE
      requires sendZlp ==> chunk == [] && open == [] && last && packets != [] && |packets[|packets| - 1]| == EP_SIZE
      requires !sendZlp ==> chunk != []
      modifies this`open, this`unread, this`packets
      ensures Resting() && Stream() == old(Stream()) + chunk && old(packets) <= packets
      ensures var bank := old(open) + chunk;
              if sendZlp || |bank| == EP_SIZE || (last && release) then open == [] && packets == old(packets) + [bank]
              else open == bank && packets == old(packets)
      ensures zlp ==> last && !sendZlp && open == [] && packets != [] && |packets[|packets| - 1]| == EP_SIZE
      ensures last && !zlp ==> Terminated()
    {
      open := open + chunk;
      assert Stream() == old(Stream()) + chunk;
      zlp := false;
      if sendZlp {
        ReleaseTX();
      } else if !ReadWriteAllowed() {
        ReleaseTX();
        if last { zlp := true; }
      } else if last && release {
        ReleaseTX();
      }
    }

    /** USB_Send.  It fails exactly when the endpoint is not configured or 250 polls have found no space,
        counted in `full`.  On success the endpoint has taken exactly `d`, in order, and the transfer is
        terminated, and released when that is asked for; on failure it has taken a prefix of `d`.  A host
        that keeps up never makes it fail. */
    method Send(d: seq<byte>, release: bool) returns (r: int, ghost full: nat)
      requires Resting()
      modifies this`open, this`unread, this`packets
      ensures Resting() && (r == -1 || r == |d|) && full <= 250
      ensures r == -1 <==> !configured || full == 250
      ensures configured && prompt ==> r == |d|
      ensures r == |d| ==> Stream() == old(Stream()) + d && (d != [] ==> Terminated())
      ensures r == |d| && d != [] && release ==> open == []
      ensures r == -1 ==> exists k :: 0 <= k <= |d| && Stream() == old(Stream()) + d[..k]
      ensures r == -1 && !configured ==> Stream() == old(Stream()) && full == 0
      ensures old(packets) <= packets
    {
      hide Flat, Stream, PacketsOK;
      full := 0;
      assert Stream() == old(Stream()) + d[..0];
      if !configured { return -1, 0; }
      var len, timeout, sendZlp, at := |d|, 250, false, 0;
      while len != 0 || sendZlp
        invariant Resting() && old(packets) <= packets
        invariant 0 <= at && 0 <= len && len + at == |d| && Stream() == old(Stream()) + d[..at]
        invariant 0 < timeout == 250 - full && (prompt ==> full == 0)
        invariant sendZlp ==> len == 0 && open == [] && packets != [] && |packets[|packets| - 1]| == EP_SIZE
        invariant d != [] && len == 0 && !sendZlp ==> Terminated() && (release ==> open == [])
        decreases len, sendZlp, timeout, |open|
      {
        var n := Poll();
        if n == 0 {
          timeout := timeout - 1;
          full := full + 1;
          if timeout == 0 { return -1, full; }
          Interleave();   // delay(1)
          continue;
        }
        if n > len { n := len; }
        // locked from here: the frame may have been released by the interrupt handler
        if !ReadWriteAllowed() { continue; }
        len := len - n;
        sendZlp := FillBank(d[at..at + n], len == 0, sendZlp, release);
        Append(old(Stream()), d, at, n);
        at := at + n;
      }
      assert d[..at] == d;
      return |d|, full;
    }
  }

  lemma Append(s: seq<byte>, d: seq<byte>, at: nat, n: nat)
    requires at + n <= |d|
    ensures (s + d[..at]) + d[at..at + n] == s + d[..at + n]
  {
  }

  /** What interrupts may have done to the bank: nothing, or released what was in it. */
  ghost predicate Flushed(open: seq<byte>, packets: seq<seq<byte>>, open': seq<byte>, packets': seq<seq<byte>>) {
    (open' == open && packets' == packets) || (open != [] && open' == [] && packets' == packets + [open])
  }
}
