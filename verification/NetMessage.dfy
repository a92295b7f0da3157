/** Framing of network messages (src/net.cpp, src/net.h): a stream of bytes, cut anywhere, becomes
    messages of a 24-byte header and as many bytes of data as the header declares.

    Reading the header is a function parameter that gives the declared size, or nothing where the
    stream operator throws. The byte statistics and the time of receipt are not part of the model. */
module NetMessage {
  import opened Basics

  type Byte = bv8

  const HEADER_SIZE: nat := 24
  const MAX_SIZE: nat := 0x0200_0000
  const MAX_PROTOCOL_MESSAGE_LENGTH: nat := 4 * 1000 * 1000

  /** The declared size, from the header bytes. */
  type Parser = seq<Byte> -> Option<nat>

  //////////////////////////////////////////////////////////////////////////////
  // One byte at a time
  //////////////////////////////////////////////////////////////////////////////

  /** What has been received of a message. */
  datatype Msg = Msg(header: seq<Byte>, data: seq<Byte>)

  /** The header can be read and does not declare too much. */
  predicate Accepted(parse: Parser, header: seq<Byte>) {
    parse(header).Some? && parse(header).value <= MAX_SIZE && parse(header).value <= MAX_PROTOCOL_MESSAGE_LENGTH
  }

  predicate Complete(parse: Parser, m: Msg) {
    && |m.header| == HEADER_SIZE && Accepted(parse, m.header)
    && |m.data| == parse(m.header).value
  }

  /** A message in progress: a part of the header, or an accepted header and a part of the data. */
  ghost predicate Partial(parse: Parser, m: Msg) {
    || (0 < |m.header| < HEADER_SIZE && m.data == [])
    || (|m.header| == HEADER_SIZE && Accepted(parse, m.header) && |m.data| < parse(m.header).value)
  }

  /** Complete messages, and at most one in progress at the end. */
  ghost predicate Framed(parse: Parser, msgs: seq<Msg>) {
    && (forall i | 0 <= i < |msgs| - 1 :: Complete(parse, msgs[i]))
    && (msgs != [] ==> Complete(parse, Last(msgs)) || Partial(parse, Last(msgs)))
  }

  function Last(msgs: seq<Msg>): Msg
    requires msgs != []
  {
    msgs[|msgs| - 1]
  }

  function Init(msgs: seq<Msg>): seq<Msg>
    requires msgs != []
  {
    msgs[..|msgs| - 1]
  }

  /** The connection goes on, or has failed on the header of the last message. */
  datatype Outcome = Going(msgs: seq<Msg>) | Failed(msgs: seq<Msg>)

  /** The messages with a message to receive at the end. */
  function Opened(parse: Parser, msgs: seq<Msg>): (r: seq<Msg>)
    ensures r != []
  {
    if msgs == [] || Complete(parse, Last(msgs)) then msgs + [Msg([], [])] else msgs
  }

  /** One byte more for the last message. */
  function Absorbed(parse: Parser, before: seq<Msg>, m: Msg, b: Byte): Outcome {
    if |m.header| < HEADER_SIZE then
      var h := m.header + [b];
      if |h| == HEADER_SIZE && !Accepted(parse, h) then Failed(before + [m.(header := h)])
      else Going(before + [m.(header := h)])
    else Going(before + [m.(data := m.data + [b])])
  }

  function Step(parse: Parser, msgs: seq<Msg>, b: Byte): Outcome {
    var open := Opened(parse, msgs);
    Absorbed(parse, Init(open), Last(open), b)
  }

  /** A stream of bytes, up to the first failure. */
  ghost function Run(parse: Parser, msgs: seq<Msg>, bytes: seq<Byte>): Outcome
    decreases |bytes|
  {
    if bytes == [] then Going(msgs)
    else
      match Step(parse, msgs, bytes[0])
      case Going(next) => Run(parse, next, bytes[1..])
      case Failed(next) => Failed(next)
  }

  ghost function RunOn(parse: Parser, o: Outcome, bytes: seq<Byte>): Outcome {
    match o
    case Going(msgs) => Run(parse, msgs, bytes)
    case Failed(_) => o
  }

  /** Receiving a stream in two parts is the same as receiving it at once. */
  lemma {:induction false} RunSplit(parse: Parser, msgs: seq<Msg>, a: seq<Byte>, b: seq<Byte>)
    ensures Run(parse, msgs, a + b) == RunOn(parse, Run(parse, msgs, a), b)
    decreases |a|
  {
    if a == [] {
      assert a + b == b;
    } else {
      assert (a + b)[0] == a[0] && (a + b)[1..] == a[1..] + b;
      match Step(parse, msgs, a[0])
      case Going(next) => RunSplit(parse, next, a[1..], b);
      case Failed(_) =>
    }
  }

  ghost function Flat(chunks: seq<seq<Byte>>): seq<Byte> {
    if chunks == [] then [] else chunks[0] + Flat(chunks[1..])
  }

  ghost function RunChunks(parse: Parser, o: Outcome, chunks: seq<seq<Byte>>): Outcome
    decreases |chunks|
  {
    if chunks == [] then o else RunChunks(parse, RunOn(parse, o, chunks[0]), chunks[1..])
  }

  /** Any cutting of the same stream gives the same messages, the same part of the last one and the same
      first failure. */
  lemma {:induction false} CutAnywhere(parse: Parser, msgs: seq<Msg>, chunks: seq<seq<Byte>>)
    ensures RunChunks(parse, Going(msgs), chunks) == Run(parse, msgs, Flat(chunks))
    decreases |chunks|
  {
    if chunks != [] {
      RunSplit(parse, msgs, chunks[0], Flat(chunks[1..]));
      match Run(parse, msgs, chunks[0])
      case Going(next) => CutAnywhere(parse, next, chunks[1..]);
      case Failed(next) => FailedStays(parse, next, chunks[1..]);
    }
  }

  lemma {:induction false} FailedStays(parse: Parser, msgs: seq<Msg>, chunks: seq<seq<Byte>>)
    ensures RunChunks(parse, Failed(msgs), chunks) == Failed(msgs)
    decreases |chunks|
  {
    if chunks != [] {
      FailedStays(parse, msgs, chunks[1..]);
    }
  }

  /** All bytes that the messages hold, in order. */
  ghost function Content(msgs: seq<Msg>): seq<Byte> {
    if msgs == [] then [] else Content(Init(msgs)) + Last(msgs).header + Last(msgs).data
  }

  lemma StepFramed(parse: Parser, msgs: seq<Msg>, b: Byte)
    requires Framed(parse, msgs)
    ensures Step(parse, msgs, b).Going? ==> Framed(parse, Step(parse, msgs, b).msgs)
    ensures Content(Step(parse, msgs, b).msgs) == Content(msgs) + [b]
  {
    hide Content;
    var open := Opened(parse, msgs);
    var before, m := Init(open), Last(open);
    if msgs == [] || Complete(parse, Last(msgs)) {
      assert before == msgs && m == Msg([], []);
    } else {
      assert before == Init(msgs) && m == Last(msgs);
    }
    StepContent(parse, msgs, before, m, b);
    AbsorbedFramed(parse, before, m, b);
  }

  lemma AbsorbedFramed(parse: Parser, before: seq<Msg>, m: Msg, b: Byte)
    requires forall i | 0 <= i < |before| :: Complete(parse, before[i])
    requires m == Msg([], []) || Partial(parse, m)
    ensures Absorbed(parse, before, m, b).Going? ==> Framed(parse, Absorbed(parse, before, m, b).msgs)
  {
    var after := Absorbed(parse, before, m, b).msgs;
    assert Init(after) == before;
  }

  lemma StepContent(parse: Parser, msgs: seq<Msg>, before: seq<Msg>, m: Msg, b: Byte)
    requires (before == msgs && m == Msg([], [])) || (msgs != [] && before == Init(msgs) && m == Last(msgs))
    requires |m.header| < HEADER_SIZE ==> m.data == []
    ensures Content(Absorbed(parse, before, m, b).msgs) == Content(msgs) + [b]
  {
    hide Accepted, Content;
    var after := Absorbed(parse, before, m, b).msgs;
    var last := Last(after);
    assert after == before + [last];
    ContentSnoc(before, last);
    ContentSnoc(before, m);
    if before == msgs {
      AppendNothing(Content(before));
    } else {
      assert msgs == before + [m];
    }
    if |m.header| < HEADER_SIZE {
      AppendHeader(Content(before), m.header, b);
    } else {
      AppendData(Content(before), m.header, m.data, b);
    }
  }

  lemma AppendNothing(c: seq<Byte>)
    ensures c + [] + [] == c
  {
  }

  lemma AppendHeader(c: seq<Byte>, header: seq<Byte>, b: Byte)
    ensures c + (header + [b]) + [] == c + header + [] + [b]
  {
  }

  lemma AppendData(c: seq<Byte>, header: seq<Byte>, data: seq<Byte>, b: Byte)
    ensures c + header + (data + [b]) == c + header + data + [b]
  {
  }

  lemma ContentSnoc(before: seq<Msg>, m: Msg)
    ensures Content(before + [m]) == Content(before) + m.header + m.data
  {
    hide Complete;
    assert Init(before + [m]) == before;
  }

  /** No byte is lost, repeated or moved, and only the last message may be incomplete. */
  lemma {:induction false} RunConserves(parse: Parser, msgs: seq<Msg>, bytes: seq<Byte>)
    requires Framed(parse, msgs)
    ensures match Run(parse, msgs, bytes)
            case Going(next) => Framed(parse, next) && Content(next) == Content(msgs) + bytes
            case Failed(next) => Content(next) <= Content(msgs) + bytes
    decreases |bytes|
  {
    hide Framed, Content, Step;
    if bytes != [] {
      StepFramed(parse, msgs, bytes[0]);
      assert Content(msgs) + [bytes[0]] + bytes[1..] == Content(msgs) + bytes;
      match Step(parse, msgs, bytes[0])
      case Going(next) => RunConserves(parse, next, bytes[1..]);
      case Failed(next) => assert Content(msgs) + [bytes[0]] <= Content(msgs) + bytes;
    }
  }

  //////////////////////////////////////////////////////////////////////////////
  // Many bytes at a time
  //////////////////////////////////////////////////////////////////////////////

  /** The last message takes header bytes together. */
  ghost function HeaderTaken(parse: Parser, before: seq<Msg>, m: Msg, bytes: seq<Byte>): Outcome {
    var h := m.header + bytes;
    if |h| == HEADER_SIZE && !Accepted(parse, h) then Failed(before + [m.(header := h)])
    else Going(before + [m.(header := h)])
  }

  lemma StepLast(parse: Parser, before: seq<Msg>, m: Msg, b: Byte)
    requires !Complete(parse, m)
    ensures Step(parse, before + [m], b) == Absorbed(parse, before, m, b)
  {
    var msgs := before + [m];
    assert Init(msgs) == before && Last(msgs) == m;
  }

  lemma {:induction false} TakeHeader(parse: Parser, before: seq<Msg>, m: Msg, bytes: seq<Byte>)
    requires m.data == [] && 0 < |bytes| && |m.header| + |bytes| <= HEADER_SIZE
    ensures Run(parse, before + [m], bytes) == HeaderTaken(parse, before, m, bytes)
    decreases |bytes|
  {
    hide Accepted, Step;
    var h := m.header + [bytes[0]];
    StepLast(parse, before, m, bytes[0]);
    if |bytes| > 1 {
      TakeHeader(parse, before, m.(header := h), bytes[1..]);
      assert h + bytes[1..] == m.header + bytes;
    } else {
      assert bytes == [bytes[0]];
    }
  }

  lemma {:induction false} TakeData(parse: Parser, before: seq<Msg>, m: Msg, bytes: seq<Byte>)
    requires |m.header| == HEADER_SIZE && Accepted(parse, m.header)
    requires |m.data| + |bytes| <= parse(m.header).value
    ensures Run(parse, before + [m], bytes) == Going(before + [m.(data := m.data + bytes)])
    decreases |bytes|
  {
    hide Accepted, Step;
    if bytes == [] {
      assert m.data + bytes == m.data;
    } else {
      StepLast(parse, before, m, bytes[0]);
      var d := m.data + [bytes[0]];
      TakeData(parse, before, m.(data := d), bytes[1..]);
      assert d + bytes[1..] == m.data + bytes;
    }
  }

  lemma AcceptedParts(parse: Parser, header: seq<Byte>)
    ensures Accepted(parse, header) <==>
            parse(header).Some? && parse(header).value <= MAX_SIZE && parse(header).value <= MAX_PROTOCOL_MESSAGE_LENGTH
  {
  }

  lemma StepOpened(parse: Parser, msgs: seq<Msg>, b: Byte)
    ensures Step(parse, Opened(parse, msgs), b) == Step(parse, msgs, b)
  {
    assert !Complete(parse, Last(Opened(parse, msgs)));
  }

  /** Opening a message does not change what is received. */
  lemma OpenFirst(parse: Parser, msgs: seq<Msg>, bytes: seq<Byte>)
    requires bytes != []
    ensures Run(parse, Opened(parse, msgs), bytes) == Run(parse, msgs, bytes)
  {
    hide Step, Opened;
    StepOpened(parse, msgs, bytes[0]);
  }

  /** A message is complete with 24 bytes of a header that can be read and declares the length of the data, which is
      at most four million bytes. */
  lemma CompleteExact(parse: Parser, m: Msg)
    ensures Complete(parse, m) <==>
            |m.header| == 24 && parse(m.header).Some? && |m.data| == parse(m.header).value <= 4000000
  {
  }

  /** The bytes of any messages are received as exactly these messages, after those received before. */
  lemma {:induction false} MessagesRecovered(parse: Parser, before: seq<Msg>, msgs: seq<Msg>)
    requires forall i | 0 <= i < |msgs| :: Complete(parse, msgs[i])
    requires before == [] || Complete(parse, Last(before))
    ensures Run(parse, before, Content(msgs)) == Going(before + msgs)
    decreases |msgs|
  {
    hide Run, Accepted, Step;
    if msgs == [] {
      RunNone(parse, before);
      assert before + msgs == before;
    } else {
      var m, rest := Last(msgs), Init(msgs);
      MessagesRecovered(parse, before, rest);
      assert msgs == rest + [m];
      var now := before + rest;
      assert rest != [] ==> Last(now) == Last(rest);
      assert rest == [] ==> now == before;
      MessageTaken(parse, now, m);
      assert Content(msgs) == Content(rest) + (m.header + m.data);
      RunSplit(parse, before, Content(rest), m.header + m.data);
      assert before + msgs == now + [m];
    }
  }

  lemma RunNone(parse: Parser, msgs: seq<Msg>)
    ensures Run(parse, msgs, []) == Going(msgs)
  {
  }

  lemma MessageTaken(parse: Parser, now: seq<Msg>, m: Msg)
    requires Complete(parse, m) && (now == [] || Complete(parse, Last(now)))
    ensures Run(parse, now, m.header + m.data) == Going(now + [m])
  {
    hide Run, Accepted, Step;
    var none := Msg([], []);
    OpenFirst(parse, now, m.header);
    TakeHeader(parse, now, none, m.header);
    assert [] + m.header == m.header;
    TakeData(parse, now, none.(header := m.header), m.data);
    assert [] + m.data == m.data;
    RunSplit(parse, now, m.header, m.data);
  }

  /** In whatever parts the bytes of some messages arrive, exactly these messages are received. */
  lemma MessagesCut(parse: Parser, msgs: seq<Msg>, chunks: seq<seq<Byte>>)
    requires (forall i | 0 <= i < |msgs| :: Complete(parse, msgs[i])) && Flat(chunks) == Content(msgs)
    ensures RunChunks(parse, Going([]), chunks) == Going(msgs)
  {
    hide Run, RunChunks, Content, Complete;
    CutAnywhere(parse, [], chunks);
    MessagesRecovered(parse, [], msgs);
    assert [] + msgs == msgs;
  }

  class NetMessage {
    var inData: bool
    /** The 24 bytes of the header; `hdrPos` of them have been received. */
    var hdrBuf: seq<Byte>
    var hdrPos: nat
    var messageSize: nat
    /** The data, with room allocated ahead; `dataPos` bytes of it have been received. */
    var recv: seq<Byte>
    var dataPos: nat

    ghost function Abs(): (m: Msg)
      requires Shaped()
      reads this
    {
      Msg(hdrBuf[..hdrPos], recv[..dataPos])
    }

    ghost predicate Shaped()
      reads this
    {
      && |hdrBuf| == HEADER_SIZE && hdrPos <= HEADER_SIZE
      && dataPos <= |recv|
    }

    ghost predicate Valid(parse: Parser)
      reads this
    {
      && Shaped()
      && (!inData ==> hdrPos < HEADER_SIZE && recv == [])
      && (inData ==>
            && hdrPos == HEADER_SIZE && Accepted(parse, hdrBuf)
            && messageSize == parse(hdrBuf).value
            && |recv| <= messageSize)
    }

    constructor (parse: Parser)
      ensures Valid(parse) && !inData && Abs() == Msg([], [])
    {
      inData, hdrPos, dataPos := false, 0, 0;
      hdrBuf := seq(HEADER_SIZE, _ => 0);
      recv := [];
      messageSize := 0;
    }

    /** The buffer of a complete message has exactly the declared size. */
    predicate IsComplete(ghost parse: Parser)
      requires Valid(parse)
      reads this
      ensures IsComplete(parse) <==> Complete(parse, Abs())
      ensures IsComplete(parse) ==> |recv| == messageSize && Abs().data == recv
    {
      assert inData ==> hdrBuf[..hdrPos] == hdrBuf;
      inData && messageSize == dataPos
    }

    /** The number of bytes taken, or a negative number. */
    method ReadHeader(parse: Parser, pch: seq<Byte>) returns (handled: int)
      requires Valid(parse) && !inData && pch != []
      modifies this
      ensures Shaped()
      ensures var n := Min(HEADER_SIZE - old(hdrPos), |pch|);
              && 0 < n
              && Abs() == old(Abs()).(header := old(Abs()).header + pch[..n])
              && (handled < 0 ==> hdrPos == HEADER_SIZE && !Accepted(parse, hdrBuf))
              && (handled >= 0 ==>
                    && handled == n
                    && (hdrPos < HEADER_SIZE ==> Valid(parse))
                    && (hdrPos == HEADER_SIZE ==>
                          && inData && parse(hdrBuf).Some? && messageSize == parse(hdrBuf).value
                          && messageSize <= MAX_SIZE && recv == []
                          && (messageSize <= MAX_PROTOCOL_MESSAGE_LENGTH ==> Valid(parse))))
    {
      var copy := Min(HEADER_SIZE - hdrPos, |pch|);
      hdrBuf := hdrBuf[..hdrPos] + pch[..copy] + hdrBuf[hdrPos + copy..];
      hdrPos := hdrPos + copy;
      assert hdrBuf[..hdrPos] == old(hdrBuf[..hdrPos]) + pch[..copy];
      if hdrPos < HEADER_SIZE {
        return copy;
      }
      assert hdrBuf[..hdrPos] == hdrBuf;
      match parse(hdrBuf)
      case None => return -1;
      case Some(size) =>
        messageSize := size;
        if size > MAX_SIZE {
          return -1;
        }
        inData := true;
        return copy;
    }

    method ReadData(ghost parse: Parser, pch: seq<Byte>) returns (handled: int)
      requires Valid(parse) && inData && dataPos < messageSize && pch != []
      modifies this
      ensures Valid(parse) && inData
      ensures hdrBuf == old(hdrBuf) && messageSize == old(messageSize)
      ensures handled == Min(old(messageSize - dataPos), |pch|) > 0
      ensures Abs() == old(Abs()).(data := old(Abs()).data + pch[..handled])
    {
      var copy := Min(messageSize - dataPos, |pch|);
      if |recv| < dataPos + copy {
        var room := Min(messageSize, dataPos + copy + 256 * 1024);
        recv := recv + seq(room - |recv|, _ => 0);
      }
      recv := recv[..dataPos] + pch[..copy] + recv[dataPos + copy..];
      dataPos := dataPos + copy;
      assert recv[..dataPos] == old(recv[..dataPos]) + pch[..copy];
      return copy;
    }
  }

  /** The number of complete messages, of which there is at most one less than messages. */
  ghost function Completed(parse: Parser, msgs: seq<Msg>): int {
    if msgs == [] then 0 else if Complete(parse, Last(msgs)) then |msgs| else |msgs| - 1
  }

  lemma CompletedOpen(parse: Parser, msgs: seq<Msg>)
    ensures Completed(parse, msgs) == |Opened(parse, msgs)| - 1
  {
  }

  lemma CompletedLast(parse: Parser, msgs: seq<Msg>)
    requires msgs != []
    ensures Completed(parse, msgs) == if Complete(parse, Last(msgs)) then |msgs| else |msgs| - 1
  {
  }

  lemma RunParts(parse: Parser, msgs: seq<Msg>, bytes: seq<Byte>, n: nat)
    requires n <= |bytes|
    ensures Run(parse, msgs, bytes) == RunOn(parse, Run(parse, msgs, bytes[..n]), bytes[n..])
  {
    hide Run;
    RunSplit(parse, msgs, bytes[..n], bytes[n..]);
    assert bytes[..n] + bytes[n..] == bytes;
  }

  class Node {
    const parse: Parser
    var vRecvMsg: seq<NetMessage>

    ghost predicate Owned()
      reads this
    {
      forall i, j | 0 <= i < j < |vRecvMsg| :: vRecvMsg[i] != vRecvMsg[j]
    }

    ghost predicate Shaped()
      reads this, vRecvMsg
    {
      Owned() && forall i | 0 <= i < |vRecvMsg| :: vRecvMsg[i].Shaped()
    }

    ghost function Msgs(): (r: seq<Msg>)
      requires Shaped()
      reads this, vRecvMsg
      ensures |r| == |vRecvMsg|
    {
      seq(|vRecvMsg|, i requires 0 <= i < |vRecvMsg| && vRecvMsg[i].Shaped() reads this, vRecvMsg => vRecvMsg[i].Abs())
    }

    ghost predicate Valid()
      reads this, vRecvMsg
    {
      Shaped() && forall i | 0 <= i < |vRecvMsg| :: vRecvMsg[i].Valid(parse)
    }

    constructor (parse: Parser)
      ensures Valid() && this.parse == parse && Msgs() == []
    {
      this.parse := parse;
      vRecvMsg := [];
    }

    /** The current incomplete message, or a new one. */
    method Open() returns (msg: NetMessage)
      requires Valid()
      modifies this
      ensures Valid() && vRecvMsg != [] && msg == vRecvMsg[|vRecvMsg| - 1]
      ensures fresh(set m | m in vRecvMsg && m !in old(vRecvMsg))
      ensures Msgs() == Opened(parse, old(Msgs()))
      ensures !msg.IsComplete(parse)
    {
      hide Accepted, Complete;
      if |vRecvMsg| == 0 || vRecvMsg[|vRecvMsg| - 1].IsComplete(parse) {
        msg := new NetMessage(parse);
        vRecvMsg := vRecvMsg + [msg];
      } else {
        msg := vRecvMsg[|vRecvMsg| - 1];
      }
    }

    /** Changing the last message alone changes the last message received alone. */
    twostate lemma LastChanged(msg: NetMessage)
      requires old(Valid()) && vRecvMsg == old(vRecvMsg) && vRecvMsg != [] && msg == vRecvMsg[|vRecvMsg| - 1]
      requires forall m | m in vRecvMsg && m != msg :: unchanged(m)
      requires msg.Shaped()
      ensures Shaped() && (msg.Valid(parse) ==> Valid())
      ensures old(Msgs()) == Init(old(Msgs())) + [old(msg.Abs())] && Last(old(Msgs())) == old(msg.Abs())
      ensures Msgs() == Init(old(Msgs())) + [msg.Abs()]
    {
      hide Accepted, Complete;
      forall i | 0 <= i < |vRecvMsg| - 1
        ensures vRecvMsg[i].Shaped() && vRecvMsg[i].Valid(parse) && vRecvMsg[i].Abs() == old(vRecvMsg[i].Abs())
      {
        var m := vRecvMsg[i];
        assert m in vRecvMsg && m != msg && unchanged(m) && old(m.Valid(parse));
      }
    }

    /** Takes header bytes into the last message. */
    method AbsorbHeader(msg: NetMessage, pch: seq<Byte>) returns (ok: bool, handled: nat)
      requires Valid() && vRecvMsg != [] && msg == vRecvMsg[|vRecvMsg| - 1]
      requires !msg.inData && pch != []
      modifies msg
      ensures Shaped() && handled <= |pch|
      ensures var before, m := Init(old(Msgs())), Last(old(Msgs()));
              var n := Min(HEADER_SIZE - |m.header|, |pch|);
              && 0 < n && m.data == [] && old(Msgs()) == before + [m]
              && Msgs() == before + [m.(header := m.header + pch[..n])]
              && (ok ==> Valid() && handled == n)
              && (ok <==> |m.header| + n < HEADER_SIZE || Accepted(parse, m.header + pch[..n]))
    {
      hide Complete, Accepted;
      ghost var size := Min(HEADER_SIZE - msg.hdrPos, |pch|);
      ghost var m := msg.Abs();
      var n := msg.ReadHeader(parse, pch);
      assert msg.hdrPos == HEADER_SIZE ==> msg.hdrBuf[..msg.hdrPos] == msg.hdrBuf;
      assert msg.Abs().header == m.header + pch[..size];
      AcceptedParts(parse, msg.hdrBuf);
      LastChanged(msg);
      assert |m.header| == old(msg.hdrPos) && m.data == [];
      assert msg.hdrPos == |msg.Abs().header| == |m.header| + size;
      assert msg.hdrPos == HEADER_SIZE ==> msg.hdrBuf == m.header + pch[..size];
      if n < 0 {
        return false, 0;
      }
      if msg.inData && msg.messageSize > MAX_PROTOCOL_MESSAGE_LENGTH {
        return false, 0;
      }
      return true, n;
    }

    /** Takes data bytes into the last message. */
    method AbsorbData(msg: NetMessage, pch: seq<Byte>) returns (handled: nat)
      requires Valid() && vRecvMsg != [] && msg == vRecvMsg[|vRecvMsg| - 1]
      requires msg.inData && !msg.IsComplete(parse) && pch != []
      modifies msg
      ensures Valid() && 0 < handled <= |pch|
      ensures var before, m := Init(old(Msgs())), Last(old(Msgs()));
              && old(Msgs()) == before + [m]
              && Msgs() == before + [m.(data := m.data + pch[..handled])]
              && |m.header| == HEADER_SIZE && Accepted(parse, m.header)
              && |m.data| + handled <= parse(m.header).value
    {
      hide Complete;
      assert msg.hdrBuf[..HEADER_SIZE] == msg.hdrBuf;
      AcceptedParts(parse, msg.hdrBuf);
      handled := msg.ReadData(parse, pch);
      LastChanged(msg);
    }

    /** One turn of the loop on the last message: at least one byte is taken. */
    method Absorb(msg: NetMessage, pch: seq<Byte>) returns (ok: bool, handled: nat)
      requires Valid() && vRecvMsg != [] && msg == vRecvMsg[|vRecvMsg| - 1]
      requires !msg.IsComplete(parse) && pch != []
      modifies msg
      ensures Shaped() && handled <= |pch|
      ensures ok ==>
                && Valid() && 0 < handled
                && Run(parse, old(Msgs()), pch[..handled]) == Going(Msgs())
      ensures !ok ==> exists n :: 0 < n <= |pch| && Run(parse, old(Msgs()), pch[..n]) == Failed(Msgs())
    {
      hide Run, Accepted, Complete;
      ghost var before, m := Init(Msgs()), Last(Msgs());
      if !msg.inData {
        ok, handled := AbsorbHeader(msg, pch);
        ghost var n := Min(HEADER_SIZE - |m.header|, |pch|);
        TakeHeader(parse, before, m, pch[..n]);
      } else {
        handled := AbsorbData(msg, pch);
        TakeData(parse, before, m, pch[..handled]);
        ok := true;
      }
    }

    /** One turn of the loop: a message to receive, and bytes for it. */
    method Turn(rest: seq<Byte>) returns (ok: bool, handled: nat, done: bool)
      requires Valid() && rest != []
      modifies this, vRecvMsg
      ensures Shaped() && fresh(set m | m in vRecvMsg && m !in old(vRecvMsg))
      ensures ok ==>
                && Valid() && 0 < handled <= |rest|
                && Run(parse, old(Msgs()), rest) == Run(parse, Msgs(), rest[handled..])
                && Completed(parse, Msgs()) == Completed(parse, old(Msgs())) + (if done then 1 else 0)
      ensures !ok ==> Run(parse, old(Msgs()), rest) == Failed(Msgs())
    {
      hide Run, Complete, Opened, Completed, Accepted;
      OpenFirst(parse, Msgs(), rest);
      CompletedOpen(parse, Msgs());
      var msg := Open();
      ghost var open := Msgs();
      done := false;
      ok, handled := Absorb(msg, rest);
      if !ok {
        ghost var n :| 0 < n <= |rest| && Run(parse, open, rest[..n]) == Failed(Msgs());
        RunParts(parse, open, rest, n);
        return;
      }
      RunParts(parse, open, rest, handled);
      CompletedLast(parse, Msgs());
      done := msg.IsComplete(parse);
    }

    method ReceiveMsgBytes(pch: seq<Byte>) returns (ok: bool, complete: bool)
      requires Valid()
      modifies this, vRecvMsg
      ensures Shaped() && (ok ==> Valid()) && fresh(set m | m in vRecvMsg && m !in old(vRecvMsg))
      ensures Run(parse, old(Msgs()), pch) == if ok then Going(Msgs()) else Failed(Msgs())
      ensures ok ==> (complete <==> Completed(parse, Msgs()) > Completed(parse, old(Msgs())))
    {
      hide Completed, Complete;
      complete := false;
      ghost var start := Msgs();
      var rest := pch;
      while |rest| > 0
        invariant Valid() && fresh(set m | m in vRecvMsg && m !in old(vRecvMsg))
        invariant Run(parse, start, pch) == Run(parse, Msgs(), rest)
        invariant Completed(parse, start) <= Completed(parse, Msgs())
        invariant complete <==> Completed(parse, Msgs()) > Completed(parse, start)
        decreases |rest|
      {
        var handled, done;
        ok, handled, done := Turn(rest);
        if !ok {
          return false, complete;
        }
        rest := rest[handled..];
        if done {
          complete := true;
        }
      }
      return true, complete;
    }

    /** A stream that arrives in parts, until the first failure: the messages are those of the whole
        stream, however it was cut. */
    method ReceiveStream(chunks: seq<seq<Byte>>) returns (ok: bool)
      requires Valid()
      modifies this, vRecvMsg
      ensures Shaped() && (ok ==> Valid())
      ensures Run(parse, old(Msgs()), Flat(chunks)) == if ok then Going(Msgs()) else Failed(Msgs())
    {
      hide Complete, Completed;
      ghost var start := Msgs();
      assert chunks[0..] == chunks;
      for i := 0 to |chunks|
        invariant Valid() && fresh(set m | m in vRecvMsg && m !in old(vRecvMsg))
        invariant Run(parse, start, Flat(chunks)) == Run(parse, Msgs(), Flat(chunks[i..]))
      {
        RunSplit(parse, Msgs(), chunks[i], Flat(chunks[i + 1..]));
        assert chunks[i..][1..] == chunks[i + 1..];
        var complete;
        ok, complete := ReceiveMsgBytes(chunks[i]);
        if !ok {
          return false;
        }
      }
      return true;
    }
  }
}
