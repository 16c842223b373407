/** The resolver's client: it writes its request to the socket's buffer and reads the response
    byte by byte from the packet the socket received. */
module Dns {
  import opened DnsSpec

  const SUCCESS := 1
  const INVALID_SERVER := -2
  const TRUNCATED := -3
  const INVALID_RESPONSE := -4

  /** The flag bits the client looks at, in the flags word and in its two bytes. */
  lemma Flags(hi: byte, lo: byte)
    ensures var w := Word(hi, lo);
            && (w / 0x8000 % 2 == 1 <==> 128 <= hi)
            && w / 0x200 % 2 == hi / 2 % 2
            && w % 16 == lo % 16
  {
    assert (256 * hi + lo) / 0x200 == hi / 2;
  }

  class DNSClient {
    var requestId: nat
    var written: seq<byte>
    const packet: seq<byte>
    var position: nat
    var address: seq<byte>

    constructor (received: seq<byte>)
      ensures packet == received && position == 0 && written == []
    {
      requestId := 0;
      written := [];
      packet := received;
      position := 0;
      address := [0, 0, 0, 0];
    }

    // ----- the request -----

    method Write(bytes: seq<byte>)
      modifies this`written
      ensures written == old(written) + bytes
    {
      written := written + bytes;
    }

    /** `cname` is the name with its terminating zero byte. */
    method BuildRequest(cname: array<byte>, now: nat) returns (r: nat)
      requires 0 < cname.Length && cname[cname.Length - 1] == 0
      requires forall k :: 0 <= k < cname.Length - 1 ==> cname[k] != 0
      modifies this`written, this`requestId
      ensures r == 1 && requestId == now % 0x1_0000
      ensures written == old(written) + Request(requestId, cname[..cname.Length - 1])
    {
      hide EncodeName, Labels;
      requestId := now % 0x1_0000;
      Write(Bytes(requestId));
      Write([1, 0]);
      Write([0, 1]);
      Write([0, 0]);
      Write([0, 0]);
      Write([0, 0]);
      ghost var header := written;
      assert header == old(written) + (Bytes(requestId) + [1, 0, 0, 1, 0, 0, 0, 0, 0, 0]);
      WriteName(cname);
      Write([0, TYPE_A]);
      Write([0, CLASS_IN]);
      r := 1;
    }

    /** The question's name. */
    method WriteName(cname: array<byte>)
      requires 0 < cname.Length && cname[cname.Length - 1] == 0
      requires forall k :: 0 <= k < cname.Length - 1 ==> cname[k] != 0
      modifies this`written
      ensures written == old(written) + EncodeName(Labels(cname[..cname.Length - 1], 0))
    {
      hide Labels, EncodeLabels, LabelEnd;
      ghost var n := cname.Length - 1;
      ghost var name := cname[..n];
      var start, end := 0, 0;
      ghost var done: seq<seq<byte>> := [];
      LabelsAtEnd(name);
      while cname[end] != 0
        invariant 0 <= start <= n + 1 && end <= n
        invariant cname[end] != 0 ==> start <= n
        invariant cname[end] == 0 ==> Labels(name, start) == []
        invariant Labels(name, 0) == done + Labels(name, start)
        invariant written == old(written) + EncodeLabels(done)
        decreases n + 1 - start
      {
        ghost var section;
        end, section := WriteSection(cname, start, name);
        EncodeAfter(old(written), done, section);
        assert section != [] ==> done + ([section] + Labels(name, end + 1)) == (done + [section]) + Labels(name, end + 1);
        if section != [] { done := done + [section]; }
        start := end + 1;
      }
      assert done == Labels(name, 0);
      Write([0]);
    }

    /** Find out how long this section of the name is. */
    method FindEnd(cname: array<byte>, start: nat) returns (end: nat)
      requires start < cname.Length && cname[cname.Length - 1] == 0
      requires forall k :: 0 <= k < cname.Length - 1 ==> cname[k] != 0
      ensures start <= end < cname.Length && (end < cname.Length - 1 ==> cname[end] == DOT)
      ensures forall k :: start <= k < end ==> cname[k] != DOT
    {
      end := start;
      while cname[end] != 0 && cname[end] != DOT
        invariant start <= end < cname.Length
        invariant forall k :: start <= k < end ==> cname[k] != DOT
        decreases cname.Length - end
      {
        end := end + 1;
      }
    }

    /** One section of the name, unless it is empty. */
    method WriteSection(cname: array<byte>, start: nat, ghost name: seq<byte>) returns (end: nat, ghost section: seq<byte>)
      requires start < cname.Length && cname[cname.Length - 1] == 0 && name == cname[..cname.Length - 1]
      requires forall k :: 0 <= k < cname.Length - 1 ==> cname[k] != 0
      modifies this`written
      ensures start <= end < cname.Length && section == name[start..end]
      ensures Labels(name, start) == (if section == [] then [] else [section]) + Labels(name, end + 1)
      ensures end == cname.Length - 1 ==> Labels(name, end + 1) == []
      ensures written == old(written) + if section == [] then [] else [|section| % 256] + section
    {
      hide Labels, LabelEnd;
      end := FindEnd(cname, start);
      section := name[start..end];
      LabelsStep(name, start, end);
      assert cname[start..end] == section;
      if end - start > 0 {
        WriteLabel(cname, start, end);
      }
    }

    /** Its size in one byte, then the section. */
    method WriteLabel(cname: array<byte>, start: nat, end: nat)
      requires start <= end < cname.Length
      modifies this`written
      ensures written == old(written) + ([(end - start) % 256] + cname[start..end])
    {
      var len := (end - start) % 256;
      Write([len]);
      Write(cname[start..end]);
    }

    // ----- the response -----

    /** The next byte, or -1 when the packet has none left. */
    method Read() returns (b: int)
      requires position <= |packet|
      modifies this`position
      ensures if old(position) < |packet| then position == old(position) + 1 && b == packet[old(position)]
              else position == old(position) && b == -1
    {
      if position == |packet| { return -1; }
      b := packet[position];
      position := position + 1;
    }

    method ReadWord() returns (w: nat)
      requires position + 2 <= |packet|
      modifies this`position
      ensures position == old(position) + 2 && w == Word(packet[old(position)], packet[old(position) + 1])
    {
      var hi := Read();
      var lo := Read();
      w := Word(hi, lo);
    }

    /** The loop `while (len--)` on an 8-bit counter: it leaves 255 behind, never 0. */
    method Discard(count: byte) returns (len: byte)
      requires position <= |packet|
      modifies this`position
      ensures len == 255 && position == Min(old(position) + count, |packet|)
    {
      len := count;
      while len != 0
        invariant position <= |packet| && Min(position + len, |packet|) == Min(old(position) + count, |packet|)
        decreases len
      {
        len := len - 1;
        var _ := Read();
      }
      len := (len + 255) % 256;  // the test that fails decrements too
    }

    method DiscardMany(count: nat)
      requires position <= |packet|
      modifies this`position
      ensures position == Min(old(position) + count, |packet|)
    {
      for i := 0 to count
        invariant position == Min(old(position) + i, |packet|)
      {
        var _ := Read();
      }
    }

    // Where the packet has nothing more to give, the source goes on with stale bytes, for good in a
    // question's name; the model stops there with `whole` false.

    method SkipNameOfQuestion() returns (whole: bool)
      requires position <= |packet|
      modifies this`position
      ensures position <= |packet| && (whole <==> SkipQuestionName(packet, old(position)).Some?)
      ensures whole ==> Some(position) == SkipQuestionName(packet, old(position))
    {
      var len: byte := 255;
      while len != 0
        invariant position <= |packet|
        invariant if len == 0 then Some(position) == SkipQuestionName(packet, old(position))
                  else SkipQuestionName(packet, position) == SkipQuestionName(packet, old(position))
        decreases len != 0, |packet| - position
      {
        var b := Read();
        if b < 0 { return false; }
        len := b;
        if len > 0 {
          len := Discard(len);
        }
      }
      whole := true;
    }

    method SkipNameOfAnswer() returns (whole: bool)
      requires position <= |packet|
      modifies this`position
      ensures position <= |packet| && (whole <==> SkipAnswerName(packet, old(position)).Some?)
      ensures whole ==> Some(position) == SkipAnswerName(packet, old(position))
    {
      var len: byte := 255;
      while len != 0
        invariant position <= |packet|
        invariant if len == 0 then Some(position) == SkipAnswerName(packet, old(position))
                  else SkipAnswerName(packet, position) == SkipAnswerName(packet, old(position))
        decreases len != 0, |packet| - position
      {
        var b := Read();
        if b < 0 { return false; }
        len := b;
        if len < 64 {
          if len > 0 {
            len := Discard(len);
          }
        } else {
          var second := Read();
          if second < 0 { return false; }
          len := 0;
        }
      }
      whole := true;
    }

    method SkipAllQuestions(count: nat) returns (whole: bool)
      requires position <= |packet|
      modifies this`position
      ensures position <= |packet| && (whole <==> SkipQuestions(packet, old(position), count).Some?)
      ensures whole ==> Some(position) == SkipQuestions(packet, old(position), count)
    {
      hide SkipQuestionName;
      for i := 0 to count
        invariant position <= |packet|
        invariant SkipQuestions(packet, position, count - i) == SkipQuestions(packet, old(position), count)
      {
        whole := SkipNameOfQuestion();
        if !whole || |packet| < position + 4 { return false; }
        DiscardMany(4);
      }
      whole := true;
    }

    /** The loop over the answers: it ends with the code it returns, and stores the address of the
        first answer of type A and class IN. */
    method TakeAddress(count: nat) returns (code: int, whole: bool)
      requires position <= |packet|
      modifies this`position, this`address
      ensures position <= |packet| && (whole <==> FindAddress(packet, old(position), count).Some?)
      ensures whole ==> FindAddress(packet, old(position), count) ==
                        Some(if code == SUCCESS then Address(address) else Failed(code))
      ensures !whole || code != SUCCESS ==> address == old(address)
    {
      hide SkipAnswerName, Word;
      for i := 0 to count
        invariant position <= |packet|
        invariant FindAddress(packet, position, count - i) == FindAddress(packet, old(position), count)
        invariant address == old(address)
      {
        whole := SkipNameOfAnswer();
        if !whole || |packet| < position + 10 { return 0, false; }
        var answerType := ReadWord();
        var answerClass := ReadWord();
        DiscardMany(4);
        var length := ReadWord();
        if answerType == TYPE_A && answerClass == CLASS_IN {
          if length != 4 {
            return -9, true;
          }
          if |packet| < position + 4 { return 0, false; }
          address := packet[position..position + 4];
          position := position + 4;
          return SUCCESS, true;
        } else {
          if |packet| < position + length { return 0, false; }
          DiscardMany(length);
        }
      }
      return -10, true;
    }

    /** The whole reading of the packet that has arrived; `whole` is false when the packet ends before
        what its counts announce. */
    method ProcessResponse(fromServer: bool) returns (code: int, whole: bool)
      requires position == 0
      modifies this`position, this`address
      ensures !fromServer ==> code == -2 && whole
      ensures fromServer ==> (whole <==> ReadResponse(packet, requestId).Some?)
      ensures fromServer && whole ==> ReadResponse(packet, requestId) ==
                                      Some(if code == 1 then Address(address) else Failed(code))
      ensures !whole || code != 1 ==> address == old(address)
    {
      hide SkipQuestions, FindAddress, Word;
      if !fromServer {
        return INVALID_SERVER, true;
      }
      if |packet| < 12 {
        return TRUNCATED, true;
      }
      position := 12;
      var flags := Word(packet[2], packet[3]);
      Flags(packet[2], packet[3]);
      if requestId != Word(packet[0], packet[1]) || flags / 0x8000 % 2 != 1 {
        return INVALID_RESPONSE, true;
      }
      if flags / 0x200 % 2 != 0 || flags % 16 != 0 {
        return -5, true;
      }
      var answerCount := Word(packet[6], packet[7]);
      if answerCount == 0 {
        return -6, true;
      }
      whole := SkipAllQuestions(Word(packet[4], packet[5]));
      if !whole { return 0, false; }
      code, whole := TakeAddress(answerCount);
    }
  }
}
