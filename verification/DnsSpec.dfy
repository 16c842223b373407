/** DNS messages as byte sequences: what the client's request says and what its reading of a
    response finds, against the encodings of sections 3.1, 4.1 and 4.1.4 of RFC 1035. */
module DnsSpec {

  type byte = x: int | 0 <= x < 256

  datatype Option<T> = None | Some(value: T)

  const DOT := 46
  const TYPE_A := 1
  const CLASS_IN := 1

  function Word(hi: byte, lo: byte): nat {
    256 * (hi as int) + lo as int
  }

  function Bytes(w: nat): seq<byte>
    requires w < 0x1_0000
  {
    [w / 256, w % 256]
  }

  // ----- names in requests -----

  /** Where the label starting at `i` ends: at a dot or at the end of the name. */
  function LabelEnd(name: seq<byte>, i: nat): (e: nat)
    requires i <= |name|
    ensures i <= e <= |name| && (e < |name| ==> name[e] == DOT)
    ensures forall k :: i <= k < e ==> name[k] != DOT
    decreases |name| - i
  {
    if i == |name| || name[i] == DOT then i else LabelEnd(name, i + 1)
  }

  /** The nonempty labels of a dotted name, from position `i` on. */
  function Labels(name: seq<byte>, i: nat): (ls: seq<seq<byte>>)
    ensures forall k :: 0 <= k < |ls| ==> 1 <= |ls[k]|
    decreases |name| + 1 - i
  {
    if |name| < i then [] else
    var e := LabelEnd(name, i);
    (if i < e then [name[i..e]] else []) + Labels(name, e + 1)
  }

  lemma {:induction false} LabelEndIs(name: seq<byte>, i: nat, e: nat)
    requires i <= e <= |name| && (e < |name| ==> name[e] == DOT)
    requires forall k :: i <= k < e ==> name[k] != DOT
    ensures LabelEnd(name, i) == e
    decreases e - i
  {
    if i < e {
      LabelEndIs(name, i + 1, e);
    }
  }

  /** One label at a time, whoever finds its end. */
  lemma LabelsStep(name: seq<byte>, i: nat, e: nat)
    requires i <= e <= |name| && (e < |name| ==> name[e] == DOT)
    requires forall k :: i <= k < e ==> name[k] != DOT
    ensures Labels(name, i) == (if i < e then [name[i..e]] else []) + Labels(name, e + 1)
    ensures |name| <= e ==> Labels(name, e + 1) == []
  {
    LabelEndIs(name, i, e);
  }

  lemma LabelsAtEnd(name: seq<byte>)
    ensures Labels(name, |name|) == [] && EncodeLabels([]) == []
  {}

  /** Each label behind its length in one byte, then a zero byte. */
  function EncodeName(ls: seq<seq<byte>>): seq<byte> {
    EncodeLabels(ls) + [0]
  }

  function EncodeLabels(ls: seq<seq<byte>>): seq<byte> {
    if ls == [] then [] else [|ls[0]| % 256] + ls[0] + EncodeLabels(ls[1..])
  }

  lemma {:induction false} EncodeOneMore(ls: seq<seq<byte>>, l: seq<byte>)
    ensures EncodeLabels(ls + [l]) == EncodeLabels(ls) + [|l| % 256] + l
  {
    if ls != [] {
      EncodeOneMore(ls[1..], l);
      assert (ls + [l])[1..] == ls[1..] + [l];
    }
  }

  lemma EncodeAfter(w: seq<byte>, ls: seq<seq<byte>>, l: seq<byte>)
    ensures w + EncodeLabels(ls + [l]) == (w + EncodeLabels(ls)) + ([|l| % 256] + l)
  {
    hide EncodeLabels;
    EncodeOneMore(ls, l);
  }

  /** The request: header with recursion desired and one question, name, type A, class IN. */
  function Request(id: nat, name: seq<byte>): seq<byte>
    requires id < 0x1_0000
  {
    Bytes(id) + [1, 0, 0, 1, 0, 0, 0, 0, 0, 0] + EncodeName(Labels(name, 0)) + [0, TYPE_A, 0, CLASS_IN]
  }

  /** Section 3.1: labels of 1 to 63 bytes. */
  ghost predicate LabelsOK(ls: seq<seq<byte>>) {
    forall i :: 0 <= i < |ls| ==> 1 <= |ls[i]| <= 63
  }

  /** Reading an uncompressed name as section 3.1 lays it down: its labels and the position after it. */
  function DecodeName(p: seq<byte>, at: nat): Option<(seq<seq<byte>>, nat)>
    decreases |p| - at
  {
    if |p| <= at || 63 < p[at] then None
    else if p[at] == 0 then Some(([], at + 1))
    else if |p| < at + 1 + p[at] then None
    else
      match DecodeName(p, at + 1 + p[at])
      case None => None
      case Some((ls, e)) => Some(([p[at + 1..at + 1 + p[at]]] + ls, e))
  }

  lemma {:induction false} DecodesEncoded(pre: seq<byte>, ls: seq<seq<byte>>, post: seq<byte>)
    requires LabelsOK(ls)
    ensures DecodeName(pre + EncodeName(ls) + post, |pre|) == Some((ls, |pre| + |EncodeName(ls)|))
    decreases |ls|
  {
    var p := pre + EncodeName(ls) + post;
    if ls != [] {
      var n := |ls[0]|;
      var pre' := pre + [n] + ls[0];
      assert p == pre' + EncodeName(ls[1..]) + post;
      assert p[|pre|] == n && p[|pre| + 1..|pre| + 1 + n] == ls[0];
      DecodesEncoded(pre', ls[1..], post);
      assert [ls[0]] + ls[1..] == ls;
    }
  }

  /** A label the length byte cannot hold does not come back. */
  lemma {:induction false} DecodesOnlyShort(pre: seq<byte>, ls: seq<seq<byte>>, post: seq<byte>)
    requires forall i :: 0 <= i < |ls| ==> 1 <= |ls[i]|
    requires var d := DecodeName(pre + EncodeName(ls) + post, |pre|); d.Some? && d.value.0 == ls
    ensures LabelsOK(ls)
    decreases |ls|
  {
    var p := pre + EncodeName(ls) + post;
    if ls != [] {
      var n := |ls[0]|;
      assert p[|pre|] == n % 256;
      assert DecodeName(p, |pre|).value.0[0] == ls[0];
      assert n == n % 256;
      var pre' := pre + [n] + ls[0];
      assert p == pre' + EncodeName(ls[1..]) + post;
      DecodesOnlyShort(pre', ls[1..], post);
      assert forall i :: 0 < i < |ls| ==> ls[i] == ls[1..][i - 1];
    }
  }

  /** A name has at most 255 bytes in all, lengths and the final zero byte included. */
  function ReadName(p: seq<byte>, at: nat): Option<(seq<seq<byte>>, nat)> {
    match DecodeName(p, at)
    case None => None
    case Some((ls, e)) => if e <= at + 255 then Some((ls, e)) else None
  }

  /** A server reading the request finds exactly the labels of the name, then type A, class IN, if and
      only if every label has at most 63 bytes and the whole name at most 255. */
  lemma RequestAsks(id: nat, name: seq<byte>)
    requires id < 0x1_0000
    ensures var p, ls := Request(id, name), Labels(name, 0);
            var e: nat := 12 + |EncodeName(ls)|;
            && p[e..] == [0, 1, 0, 1]
            && (ReadName(p, 12) == Some((ls, e)) <==> LabelsOK(ls) && |EncodeName(ls)| <= 255)
  {
    hide EncodeName, Labels, DecodeName, LabelsOK;
    var header := Bytes(id) + [1, 0, 0, 1, 0, 0, 0, 0, 0, 0];
    var ls := Labels(name, 0);
    if LabelsOK(ls) {
      DecodesEncoded(header, ls, [0, TYPE_A, 0, CLASS_IN]);
    }
    var e: nat := 12 + |EncodeName(ls)|;
    if ReadName(Request(id, name), 12) == Some((ls, e)) {
      DecodesOnlyShort(header, ls, [0, TYPE_A, 0, CLASS_IN]);
    }
  }

  /** The header by section 4.1.1: the id high byte first, a standard query with recursion desired, one
      question and nothing else. */
  lemma RequestHeader(id: nat, name: seq<byte>)
    requires id < 0x1_0000
    ensures var p := Request(id, name);
            && 12 <= |p| && 256 * (p[0] as int) + p[1] as int == id
            && p[2] / 8 == 0 && p[2] / 2 % 2 == 0 && p[2] % 2 == 1 && p[3] == 0
            && p[4..6] == [0, 1] && p[6..12] == [0, 0, 0, 0, 0, 0]
  {
    hide EncodeName, Labels;
  }

  /** Labels written with dots between them. */
  function Dotted(ls: seq<seq<byte>>): seq<byte> {
    if ls == [] then []
    else if |ls| == 1 then ls[0]
    else ls[0] + [DOT] + Dotted(ls[1..])
  }

  /** Cutting at the dots undoes writing them. */
  lemma {:induction false} LabelsOfDotted(pre: seq<byte>, ls: seq<seq<byte>>)
    requires forall i :: 0 <= i < |ls| ==> 1 <= |ls[i]| && DOT !in ls[i]
    ensures Labels(pre + Dotted(ls), |pre|) == ls
    decreases |ls|
  {
    hide Labels, LabelEnd;
    var name := pre + Dotted(ls);
    LabelsAtEnd(name);
    if ls != [] {
      var n := |ls[0]|;
      var e := |pre| + n;
      assert name[|pre|..e] == ls[0];
      assert forall k :: |pre| <= k < e ==> name[k] == ls[0][k - |pre|];
      assert |ls| == 1 ==> |name| == e;
      assert 1 < |ls| ==> name[e] == DOT;
      LabelsStep(name, |pre|, e);
      if |ls| == 1 {
        assert ls == [ls[0]];
      } else {
        var pre' := pre + ls[0] + [DOT];
        assert name == pre' + Dotted(ls[1..]);
        LabelsOfDotted(pre', ls[1..]);
        assert ls == [ls[0]] + ls[1..];
      }
    }
  }

  // ----- reading a response -----

  /** The position after a question's name: the client knows no compression here. */
  function SkipQuestionName(p: seq<byte>, at: nat): (e: Option<nat>)
    ensures e.Some? ==> at < e.value
    decreases |p| - at
  {
    if |p| <= at then None
    else if p[at] == 0 then Some(at + 1)
    else SkipQuestionName(p, at + 1 + p[at])
  }

  /** The position after an answer's name: labels, then a zero byte or a two-byte pointer. */
  function SkipAnswerName(p: seq<byte>, at: nat): Option<nat>
    decreases |p| - at
  {
    if |p| <= at then None
    else if p[at] == 0 then Some(at + 1)
    else if p[at] < 64 then SkipAnswerName(p, at + 1 + p[at])
    else if at + 2 <= |p| then Some(at + 2) else None
  }

  function SkipQuestions(p: seq<byte>, at: nat, n: nat): Option<nat>
    decreases n
  {
    if n == 0 then Some(at) else
    match SkipQuestionName(p, at)
    case None => None
    case Some(e) => if e + 4 <= |p| then SkipQuestions(p, e + 4, n - 1) else None
  }

  datatype Outcome = Address(ip: seq<byte>) | Failed(code: int)

  /** The first answer of type A and class IN; None when the packet ends too early. */
  function FindAddress(p: seq<byte>, at: nat, n: nat): Option<Outcome>
    decreases n
  {
    if n == 0 then Some(Failed(-10)) else
    match SkipAnswerName(p, at)
    case None => None
    case Some(e) =>
      if |p| < e + 10 then None
      else
        var len := Word(p[e + 8], p[e + 9]);
        if Word(p[e], p[e + 1]) == TYPE_A && Word(p[e + 2], p[e + 3]) == CLASS_IN then
          if len != 4 then Some(Failed(-9))
          else if e + 14 <= |p| then Some(Address(p[e + 10..e + 14])) else None
        else if e + 10 + len <= |p| then FindAddress(p, e + 10 + len, n - 1)
        else None
  }

  /** The whole reading; None when the packet ends before what its counts announce. */
  function ReadResponse(p: seq<byte>, id: nat): Option<Outcome> {
    if |p| < 12 then Some(Failed(-3))
    else if Word(p[0], p[1]) != id || p[2] < 128 then Some(Failed(-4))
    else if p[2] / 2 % 2 != 0 || p[3] % 16 != 0 then Some(Failed(-5))
    else if Word(p[6], p[7]) == 0 then Some(Failed(-6))
    else
      match SkipQuestions(p, 12, Word(p[4], p[5]))
      case None => None
      case Some(at) => FindAddress(p, at, Word(p[6], p[7]))
  }

  /** Length bytes the encodings do not use: in a question any one is a length, in an answer any from 64 on
      is taken for a pointer. */
  lemma OtherLengths(p: seq<byte>, at: nat)
    requires at < |p| && p[at] != 0
    ensures SkipQuestionName(p, at) == SkipQuestionName(p, at + 1 + p[at])
    ensures 64 <= p[at] ==> SkipAnswerName(p, at) == if at + 2 <= |p| then Some(at + 2) else None
  {
  }

  // ----- packets cut short: a read past the end delivers nothing and keeps `len` -----

  function Min(a: nat, b: nat): nat {
    if a <= b then a else b
  }

  /** One turn of the loop that skips a name: the position and `len` after it.  Only the loop over
      answers knows pointers. */
  function Turn(p: seq<byte>, at: nat, len: byte, pointers: bool): (nat, byte) {
    var l := if at < |p| then p[at] else len;
    var next := if at < |p| then at + 1 else at;
    if l == 0 then (next, 0)
    else if pointers && 64 <= l then (Min(next + 1, |p|), 0)
    else (Min(next + l, |p|), 255)
  }

  function Turns(p: seq<byte>, at: nat, len: byte, pointers: bool, n: nat): (nat, byte)
    decreases n
  {
    if n == 0 then (at, len) else
    var (at', len') := Turn(p, at, len, pointers);
    Turns(p, at', len', pointers, n - 1)
  }

  /** do .. while (len != 0) comes to an end. */
  ghost predicate Ends(p: seq<byte>, at: nat, len: byte, pointers: bool) {
    exists n: nat :: 0 < n && Turns(p, at, len, pointers, n).1 == 0
  }

  lemma EndsLater(p: seq<byte>, at: nat, len: byte, pointers: bool)
    requires var (at', len') := Turn(p, at, len, pointers); len' == 0 || Ends(p, at', len', pointers)
    ensures Ends(p, at, len, pointers)
  {
    var (at', len') := Turn(p, at, len, pointers);
    if len' == 0 {
      assert Turns(p, at', len', pointers, 0).1 == 0;
      assert Turns(p, at, len, pointers, 1).1 == 0;
    } else {
      var n: nat :| 0 < n && Turns(p, at', len', pointers, n).1 == 0;
      assert Turns(p, at, len, pointers, n + 1).1 == 0;
    }
  }

  lemma {:induction false} NeverEnds(p: seq<byte>, at: nat, len: byte, n: nat)
    requires 0 < n && if at < |p| then SkipQuestionName(p, at).None? else len != 0
    ensures Turns(p, at, len, false, n).1 != 0
    decreases n
  {
    var (at', len') := Turn(p, at, len, false);
    if 1 < n {
      NeverEnds(p, at', len', n - 1);
    } else {
      assert Turns(p, at', len', false, 0).1 == len';
    }
  }

  /** The loop over a question's name ends exactly when the packet holds the whole name: past the end
      of the packet `len` stays 255 for good.  When not even the first byte of the name is there, it
      depends on what the uninitialised `len` happens to be. */
  lemma {:induction false} QuestionLoopEndsIff(p: seq<byte>, at: nat, len: byte)
    ensures Ends(p, at, len, false) <==> if at < |p| then SkipQuestionName(p, at).Some? else len == 0
    decreases if at < |p| then |p| - at else 0
  {
    if at < |p| && SkipQuestionName(p, at).Some? {
      if p[at] != 0 {
        var at' := at + 1 + p[at];
        assert SkipQuestionName(p, at').Some?;
        QuestionLoopEndsIff(p, at', 255);
      }
      EndsLater(p, at, len, false);
    } else if |p| <= at && len == 0 {
      EndsLater(p, at, len, false);
    } else if Ends(p, at, len, false) {
      var n: nat :| 0 < n && Turns(p, at, len, false, n).1 == 0;
      NeverEnds(p, at, len, n);
    }
  }

  /** The loop over an answer's name always ends: the 255 left over is taken for a pointer. */
  lemma {:induction false} AnswerLoopEnds(p: seq<byte>, at: nat, len: byte)
    ensures Ends(p, at, len, true)
    decreases if at < |p| then |p| - at else 0, if len == 255 then 0 else 1
  {
    var (at', len') := Turn(p, at, len, true);
    if len' != 0 { AnswerLoopEnds(p, at', len'); }
    EndsLater(p, at, len, true);
  }

  // ----- a well-formed response, as a server writes it -----

  /** A name in an answer: labels, and for a compressed name the pointer's 14-bit offset. */
  datatype Name = Plain(labels: seq<seq<byte>>) | Compressed(labels: seq<seq<byte>>, offset: nat)

  datatype Question = Question(labels: seq<seq<byte>>, typ: nat, cls: nat)

  datatype Answer = Answer(name: Name, typ: nat, cls: nat, ttl: seq<byte>, data: seq<byte>)

  ghost predicate QuestionOK(q: Question) {
    LabelsOK(q.labels) && q.typ < 0x1_0000 && q.cls < 0x1_0000
  }

  ghost predicate AnswerOK(a: Answer) {
    && LabelsOK(a.name.labels) && (a.name.Compressed? ==> a.name.offset < 0x4000)
    && a.typ < 0x1_0000 && a.cls < 0x1_0000 && |a.ttl| == 4 && |a.data| < 0x1_0000
  }

  function EncodeAnswerName(n: Name): seq<byte>
    requires n.Compressed? ==> n.offset < 0x4000
  {
    match n
    case Plain(ls) => EncodeName(ls)
    case Compressed(ls, offset) => EncodeLabels(ls) + [192 + offset / 256, offset % 256]
  }

  ghost function EncodeQuestion(q: Question): seq<byte>
    requires QuestionOK(q)
  {
    EncodeName(q.labels) + Bytes(q.typ) + Bytes(q.cls)
  }

  ghost function EncodeAnswer(a: Answer): seq<byte>
    requires AnswerOK(a)
  {
    EncodeAnswerName(a.name) + Bytes(a.typ) + Bytes(a.cls) + a.ttl + Bytes(|a.data|) + a.data
  }

  ghost function EncodeQuestions(qs: seq<Question>): seq<byte>
    requires forall i :: 0 <= i < |qs| ==> QuestionOK(qs[i])
  {
    if qs == [] then [] else EncodeQuestion(qs[0]) + EncodeQuestions(qs[1..])
  }

  ghost function EncodeAnswers(ans: seq<Answer>): seq<byte>
    requires forall i :: 0 <= i < |ans| ==> AnswerOK(ans[i])
  {
    if ans == [] then [] else EncodeAnswer(ans[0]) + EncodeAnswers(ans[1..])
  }

  /** What the caller of the resolver should get from these answers. */
  function FirstAddress(ans: seq<Answer>): Outcome {
    if ans == [] then Failed(-10)
    else if ans[0].typ == TYPE_A && ans[0].cls == CLASS_IN then
      if |ans[0].data| == 4 then Address(ans[0].data) else Failed(-9)
    else FirstAddress(ans[1..])
  }

  lemma {:induction false} SkipsQuestionLabels(pre: seq<byte>, ls: seq<seq<byte>>, post: seq<byte>)
    requires LabelsOK(ls)
    ensures SkipQuestionName(pre + EncodeLabels(ls) + post, |pre|) ==
            SkipQuestionName(pre + EncodeLabels(ls) + post, |pre| + |EncodeLabels(ls)|)
    decreases |ls|
  {
    var p := pre + EncodeLabels(ls) + post;
    if ls != [] {
      var pre' := pre + [|ls[0]|] + ls[0];
      assert p == pre' + EncodeLabels(ls[1..]) + post;
      assert p[|pre|] == |ls[0]|;
      SkipsQuestionLabels(pre', ls[1..], post);
    }
  }

  /** The client reads no compression in questions: of all well-formed names it lands after exactly
      the plain ones.  A pointer, after labels or not, is taken for a label of 192 or more bytes. */
  lemma QuestionNameIff(pre: seq<byte>, n: Name, post: seq<byte>)
    requires LabelsOK(n.labels) && (n.Compressed? ==> n.offset < 0x4000)
    ensures SkipQuestionName(pre + EncodeAnswerName(n) + post, |pre|) == Some(|pre| + |EncodeAnswerName(n)|) <==> n.Plain?
  {
    hide EncodeLabels;
    var last := if n.Plain? then [0] else [192 + n.offset / 256, n.offset % 256];
    var e := |pre| + |EncodeLabels(n.labels)|;
    var p := pre + EncodeAnswerName(n) + post;
    assert p == pre + EncodeLabels(n.labels) + (last + post);
    SkipsQuestionLabels(pre, n.labels, last + post);
    assert p[e] == last[0];
  }

  lemma {:induction false} SkipsLabels(pre: seq<byte>, ls: seq<seq<byte>>, post: seq<byte>)
    requires LabelsOK(ls)
    ensures SkipAnswerName(pre + EncodeLabels(ls) + post, |pre|) ==
            SkipAnswerName(pre + EncodeLabels(ls) + post, |pre| + |EncodeLabels(ls)|)
    decreases |ls|
  {
    var p := pre + EncodeLabels(ls) + post;
    if ls != [] {
      var pre' := pre + [|ls[0]|] + ls[0];
      assert p == pre' + EncodeLabels(ls[1..]) + post;
      assert p[|pre|] == |ls[0]|;
      SkipsLabels(pre', ls[1..], post);
    }
  }

  /** Labels, zero byte or pointer: the skip lands exactly after the name. */
  lemma SkipsAnswerName(pre: seq<byte>, n: Name, post: seq<byte>)
    requires LabelsOK(n.labels) && (n.Compressed? ==> n.offset < 0x4000)
    ensures SkipAnswerName(pre + EncodeAnswerName(n) + post, |pre|) == Some(|pre| + |EncodeAnswerName(n)|)
  {
    hide EncodeLabels;
    var e := |pre| + |EncodeLabels(n.labels)|;
    match n
    case Plain(ls) =>
      var p := pre + EncodeAnswerName(n) + post;
      assert p == pre + EncodeLabels(ls) + ([0] + post);
      SkipsLabels(pre, ls, [0] + post);
      assert p[e] == 0;
    case Compressed(ls, offset) =>
      var tail := [192 + offset / 256, offset % 256];
      var p := pre + EncodeAnswerName(n) + post;
      assert p == pre + EncodeLabels(ls) + (tail + post);
      SkipsLabels(pre, ls, tail + post);
      assert p[e] == 192 + offset / 256;
  }

  /** The loop over the questions lands exactly after the last one. */
  lemma {:induction false} SkipsQuestions(pre: seq<byte>, qs: seq<Question>, post: seq<byte>)
    requires forall i :: 0 <= i < |qs| ==> QuestionOK(qs[i])
    ensures SkipQuestions(pre + EncodeQuestions(qs) + post, |pre|, |qs|) == Some(|pre| + |EncodeQuestions(qs)|)
    decreases |qs|
  {
    hide EncodeName, SkipQuestionName, LabelsOK;
    var p := pre + EncodeQuestions(qs) + post;
    if qs != [] {
      assert QuestionOK(qs[0]);
      var q, name := qs[0], EncodeName(qs[0].labels);
      var fixed := Bytes(q.typ) + Bytes(q.cls);
      assert EncodeQuestion(q) == name + fixed;
      assert p == pre + name + (fixed + EncodeQuestions(qs[1..]) + post);
      QuestionNameIff(pre, Plain(q.labels), fixed + EncodeQuestions(qs[1..]) + post);
      var pre' := pre + EncodeQuestion(q);
      assert p == pre' + EncodeQuestions(qs[1..]) + post;
      SkipsQuestions(pre', qs[1..], post);
    }
  }

  /** One answer by section 4.1.3, numbers high byte first: type, class, four bytes of time to live,
      length and data, behind its name. */
  lemma AnswerFields(pre: seq<byte>, a: Answer, post: seq<byte>)
    requires AnswerOK(a)
    ensures var p, e := pre + EncodeAnswer(a) + post, |pre| + |EncodeAnswerName(a.name)|;
            && SkipAnswerName(p, |pre|) == Some(e)
            && |pre| + |EncodeAnswer(a)| == e + 10 + |a.data| <= |p|
            && 256 * (p[e] as int) + p[e + 1] as int == a.typ && 256 * (p[e + 2] as int) + p[e + 3] as int == a.cls
            && 256 * (p[e + 8] as int) + p[e + 9] as int == |a.data|
            && p[e + 10..e + 10 + |a.data|] == a.data
  {
    hide EncodeAnswerName, SkipAnswerName, LabelsOK;
    var name := EncodeAnswerName(a.name);
    var fixed := Bytes(a.typ) + Bytes(a.cls) + a.ttl + Bytes(|a.data|);
    var p, e := pre + EncodeAnswer(a) + post, |pre| + |name|;
    assert EncodeAnswer(a) == name + (fixed + a.data);
    assert p == pre + name + (fixed + a.data + post);
    SkipsAnswerName(pre, a.name, fixed + a.data + post);
    assert forall i :: 0 <= i < 10 ==> p[e + i] == fixed[i];
    assert fixed[0] == a.typ / 256 && fixed[1] == a.typ % 256;
    assert fixed[2] == a.cls / 256 && fixed[3] == a.cls % 256;
    assert fixed[8] == |a.data| / 256 && fixed[9] == |a.data| % 256;
    assert p[e + 0] == fixed[0] && p[e + 1] == fixed[1] && p[e + 2] == fixed[2];
    assert p[e + 3] == fixed[3] && p[e + 8] == fixed[8] && p[e + 9] == fixed[9];
  }

  /** One answer: its address, a failure, or on to the next. */
  lemma AnswerTaken(pre: seq<byte>, a: Answer, post: seq<byte>, n: nat)
    requires AnswerOK(a)
    ensures FindAddress(pre + EncodeAnswer(a) + post, |pre|, n + 1) ==
            if a.typ == TYPE_A && a.cls == CLASS_IN then Some(if |a.data| == 4 then Address(a.data) else Failed(-9))
            else FindAddress(pre + EncodeAnswer(a) + post, |pre + EncodeAnswer(a)|, n)
  {
    hide EncodeAnswer, EncodeAnswerName, SkipAnswerName, AnswerOK;
    AnswerFields(pre, a, post);
  }

  lemma Regrouped(pre: seq<byte>, x: seq<byte>, y: seq<byte>, post: seq<byte>)
    ensures pre + (x + y) + post == pre + x + (y + post) == (pre + x) + y + post
  {}

  lemma NoAnswers(pre: seq<byte>, post: seq<byte>)
    ensures FindAddress(pre + EncodeAnswers([]) + post, |pre|, 0) == Some(FirstAddress([]))
  {}

  lemma AnswersSplit(ans: seq<Answer>)
    requires ans != [] && (forall i :: 0 <= i < |ans| ==> AnswerOK(ans[i]))
    ensures forall i :: 0 <= i < |ans[1..]| ==> AnswerOK(ans[1..][i])
    ensures AnswerOK(ans[0]) && EncodeAnswers(ans) == EncodeAnswer(ans[0]) + EncodeAnswers(ans[1..])
  {
    hide AnswerOK, EncodeAnswer;
  }

  /** The loop over the answers returns the first A/IN address of length 4. */
  lemma {:induction false} FindsFirstAddress(pre: seq<byte>, ans: seq<Answer>, post: seq<byte>)
    requires forall i :: 0 <= i < |ans| ==> AnswerOK(ans[i])
    ensures FindAddress(pre + EncodeAnswers(ans) + post, |pre|, |ans|) == Some(FirstAddress(ans))
    decreases |ans|
  {
    hide EncodeAnswer, FindAddress, AnswerOK, EncodeAnswers;
    if ans == [] {
      NoAnswers(pre, post);
    } else {
      AnswersSplit(ans);
      var x, y := EncodeAnswer(ans[0]), EncodeAnswers(ans[1..]);
      Regrouped(pre, x, y, post);
      AnswerTaken(pre, ans[0], y + post, |ans| - 1);
      FindsFirstAddress(pre + x, ans[1..], post);
    }
  }

  /** The header of a response: QR set, no truncation, no error; the other bits are free. */
  ghost predicate GoodHeader(h: seq<byte>, id: nat, questions: nat, answers: nat) {
    && |h| == 12 && 256 * (h[0] as int) + h[1] as int == id
    && 128 <= h[2] && h[2] / 2 % 2 == 0 && h[3] % 16 == 0
    && 256 * (h[4] as int) + h[5] as int == questions && 256 * (h[6] as int) + h[7] as int == answers
  }

  lemma HeaderAccepted(p: seq<byte>, id: nat, questions: nat, answers: nat)
    requires 12 <= |p| && GoodHeader(p[..12], id, questions, answers) && answers != 0
    ensures ReadResponse(p, id) ==
            match SkipQuestions(p, 12, questions)
            case None => None
            case Some(at) => FindAddress(p, at, answers)
  {
    hide SkipQuestions, FindAddress;
  }

  /** On every well-formed response to its request, whatever follows the answers, the client gets
      the first A/IN address. */
  lemma ResponseUnderstood(h: seq<byte>, id: nat, qs: seq<Question>, ans: seq<Answer>, rest: seq<byte>)
    requires GoodHeader(h, id, |qs|, |ans|) && ans != []
    requires forall i :: 0 <= i < |qs| ==> QuestionOK(qs[i])
    requires forall i :: 0 <= i < |ans| ==> AnswerOK(ans[i])
    ensures ReadResponse(h + EncodeQuestions(qs) + EncodeAnswers(ans) + rest, id) == Some(FirstAddress(ans))
  {
    hide EncodeQuestions, EncodeAnswers, SkipQuestions, FindAddress, FirstAddress, QuestionOK, AnswerOK, Word;
    hide ReadResponse;
    var x, y := EncodeQuestions(qs), EncodeAnswers(ans);
    var p := h + x + y + rest;
    assert p[..12] == h;
    HeaderAccepted(p, id, |qs|, |ans|);
    Regrouped(h, x, y, rest);
    SkipsQuestions(h, qs, y + rest);
    FindsFirstAddress(h + EncodeQuestions(qs), ans, rest);
  }

  /** A reply that repeats the first two bytes of the request is taken for the answer to it. */
  lemma ReplyAccepted(id: nat, name: seq<byte>, h: seq<byte>, qs: seq<Question>, ans: seq<Answer>, rest: seq<byte>)
    requires id < 0x1_0000 && |h| == 12 && |Request(id, name)| >= 2 && h[..2] == Request(id, name)[..2]
    requires 128 <= h[2] && h[2] / 2 % 2 == 0 && h[3] % 16 == 0
    requires 256 * (h[4] as int) + h[5] as int == |qs| && 256 * (h[6] as int) + h[7] as int == |ans| && ans != []
    requires forall i :: 0 <= i < |qs| ==> QuestionOK(qs[i])
    requires forall i :: 0 <= i < |ans| ==> AnswerOK(ans[i])
    ensures ReadResponse(h + EncodeQuestions(qs) + EncodeAnswers(ans) + rest, id) == Some(FirstAddress(ans))
  {
    hide Request, EncodeQuestions, EncodeAnswers, ReadResponse, FirstAddress, QuestionOK, AnswerOK;
    RequestHeader(id, name);
    assert h[0] == h[..2][0] == Request(id, name)[0] && h[1] == h[..2][1] == Request(id, name)[1];
    ResponseUnderstood(h, id, qs, ans, rest);
  }

  /** Outcomes of reading answers: an address, or the codes -9 and -10. */
  ghost predicate FromAnswers(r: Option<Outcome>) {
    r.None? || r.value.Address? || r.value == Failed(-9) || r.value == Failed(-10)
  }

  lemma {:induction false} AnswerCodes(p: seq<byte>, at: nat, n: nat)
    ensures FromAnswers(FindAddress(p, at, n))
    decreases n
  {
    hide SkipAnswerName, Word;
    if n != 0 && SkipAnswerName(p, at).Some? {
      var e := SkipAnswerName(p, at).value;
      if e + 10 <= |p| { AnswerCodes(p, e + 10 + Word(p[e + 8], p[e + 9]), n - 1); }
    }
  }

  /** When a response is refused, and with which code: too short, another id or no response, truncated
      or an error code, no answers.  Any other goes on to its questions and answers. */
  lemma Refusals(p: seq<byte>, id: nat)
    ensures var r := ReadResponse(p, id);
            && (r == Some(Failed(-3)) <==> |p| < 12)
            && (12 <= |p| ==>
                  var ours := 256 * (p[0] as int) + p[1] as int == id && 128 <= p[2];
                  var good := p[2] / 2 % 2 == 0 && p[3] % 16 == 0;
                  && (r == Some(Failed(-4)) <==> !ours)
                  && (r == Some(Failed(-5)) <==> ours && !good)
                  && (r == Some(Failed(-6)) <==> ours && good && p[6] == 0 && p[7] == 0)
                  && (FromAnswers(r) <==> ours && good && !(p[6] == 0 && p[7] == 0)))
  {
    hide SkipQuestions, FindAddress;
    forall at, n ensures FromAnswers(FindAddress(p, at, n)) { AnswerCodes(p, at, n); }
  }

  /** What the caller gets, by the first answer of type 1 and class 1. */
  lemma {:induction false} FirstAddressIs(ans: seq<Answer>, k: nat)
    requires k <= |ans| && forall i :: 0 <= i < k ==> !(ans[i].typ == 1 && ans[i].cls == 1)
    requires k < |ans| ==> ans[k].typ == 1 && ans[k].cls == 1
    ensures FirstAddress(ans) ==
            if k == |ans| then Failed(-10) else if |ans[k].data| == 4 then Address(ans[k].data) else Failed(-9)
    decreases |ans|
  {
    if 0 < k {
      FirstAddressIs(ans[1..], k - 1);
    }
  }
}
