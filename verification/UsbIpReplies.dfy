/** The replies to the kernel: conversion of transfer results, the clamp to the kernel's buffer and
    the bytes written (usbip_protocol.rs and socket_bridge.rs of crates/client/src/virtual_usb). */
module UsbIpReplies {
  import opened Common
  import opened UsbIpWire

  datatype UsbError = Timeout | Pipe | NoDevice | InvalidParam | Busy | Overflow | Io | Access | NotFound | Other

  datatype TransferResult =
    | Success(data: Bytes)
    | IsochronousSuccess(isoData: Bytes, packets: seq<IsoPacket>, startFrame: u32, errorCount: u32)
    | Error(error: UsbError)

  type i32 = x: int | -0x8000_0000 <= x < 0x8000_0000

  datatype RetSubmit = RetSubmit(status: i32, actualLength: u32, startFrame: u32, numberOfPackets: u32, errorCount: u32)

  datatype Reply =
    | SubmitReply(header: Header, ret: RetSubmit, isoPackets: seq<IsoPacket>, data: Bytes)
    | UnlinkReply(header: Header, status: i32)

  function Errno(e: UsbError): i32 {
    match e
    case Timeout => -110
    case Pipe => -32
    case NoDevice => -19
    case InvalidParam => -22
    case Busy => -16
    case Overflow => -75
    case Io => -5
    case Access => -13
    case NotFound => -2
    case Other => -5
  }

  /** usb_response_to_usbip_full */
  function Convert(result: TransferResult): (RetSubmit, Bytes, seq<IsoPacket>) {
    match result
    case Success(data) => (RetSubmit(0, |data| % U32_LIMIT, 0, 0, 0), data, [])
    case IsochronousSuccess(data, packets, startFrame, errorCount) =>
      (RetSubmit(0, |data| % U32_LIMIT, startFrame, |packets| % U32_LIMIT, errorCount), data, packets)
    case Error(e) => (RetSubmit(Errno(e), 0, 0, 0, 0), [], [])
  }

  /** The reply to a CMD_SUBMIT: ISO descriptors only for ISO requests, IN data clamped to the
      kernel's buffer. */
  function ReplyTo(request: Header, cmd: CmdSubmit, devid: u32, result: TransferResult): Reply {
    var (ret, data, packets) := Convert(result);
    var header := Header(3, request.seqnum, devid, request.direction, request.ep);
    var kept := if cmd.numberOfPackets > 0 then packets else [];
    if request.direction == 1 && |data| > cmd.transferBufferLength then
      SubmitReply(header, ret.(actualLength := cmd.transferBufferLength), kept, data[..cmd.transferBufferLength])
    else SubmitReply(header, ret, kept, data)
  }

  function UnlinkReplyTo(seqnum: u32, devid: u32, status: i32): Reply {
    UnlinkReply(Header(4, seqnum, devid, 0, 0), status)
  }

  // ---------- Bytes ----------

  function I32Bits(x: i32): u32 {
    if x < 0 then x + U32_LIMIT else x
  }

  function BitsI32(x: u32): i32 {
    if x >= 0x8000_0000 then x - U32_LIMIT else x
  }

  function RetWords(r: RetSubmit): seq<u32> {
    [I32Bits(r.status), r.actualLength, r.startFrame, r.numberOfPackets, r.errorCount, 0, 0]
  }

  function PacketWords(packets: seq<IsoPacket>): (ws: seq<u32>)
    ensures |ws| == 4 * |packets|
  {
    if packets == [] then []
    else [packets[0].offset, packets[0].length, packets[0].actualLength, packets[0].status] + PacketWords(packets[1..])
  }

  /** Header, payload, padding to 48 bytes, then ISO descriptors and data. */
  function EncodeReply(r: Reply): Bytes {
    match r
    case SubmitReply(h, ret, packets, data) =>
      Words(HeaderWords(h)) + (Words(RetWords(ret)) + (Words(PacketWords(packets)) + data))
    case UnlinkReply(h, status) => Words(HeaderWords(h)) + Words([I32Bits(status), 0, 0, 0, 0, 0, 0])
  }

  /** A reader that follows the kernel's layout: 48 bytes, then for IN transfers actual_length bytes
      of data, then number_of_packets descriptors of 16 bytes. */
  function ReadReply(input: Bytes): (r: (Result<Reply>, Bytes))
    ensures r.0.Ok? ==> |r.1| + 48 <= |input|
  {
    if |input| < 48 then (Err(EndOfStream), [])
    else
      var header := WordsHeader(ParseWords(input, 5));
      var ws := ParseWords(input[20..], 7);
      var body := input[48..];
      if header.command == 3 then
        var ret := RetSubmit(BitsI32(ws[0]), ws[1], ws[2], ws[3], ws[4]);
        var n := if header.direction == 1 then ret.actualLength else 0;
        if |body| < n + 16 * ret.numberOfPackets then (Err(EndOfStream), [])
        else
          var packets := ParsePackets(ParseWords(body[n..], 4 * ret.numberOfPackets));
          (Ok(SubmitReply(header, ret, packets, body[..n])), body[n + 16 * ret.numberOfPackets..])
      else if header.command == 4 then (Ok(UnlinkReply(header, BitsI32(ws[0]))), body)
      else (Err(UnexpectedCommand), body)
  }

  function ParsePackets(ws: seq<u32>): (packets: seq<IsoPacket>)
    requires |ws| % 4 == 0
    ensures 4 * |packets| == |ws|
  {
    if ws == [] then [] else [IsoPacket(ws[0], ws[1], ws[2], ws[3])] + ParsePackets(ws[4..])
  }

  /** The bytes of the ISO descriptors. */
  function Descriptors(packets: seq<IsoPacket>): (b: Bytes)
    ensures |b| == 16 * |packets|
  {
    Words(PacketWords(packets))
  }

  /** The reply announces what it carries, data only towards the host; and its descriptors, written
      first, and its data look the same the other way round, as when there are none of either. */
  predicate FollowsLayout(r: Reply) {
    r.SubmitReply? ==>
      && r.header.command == 3
      && r.ret.numberOfPackets == |r.isoPackets|
      && |r.data| == (if r.header.direction == 1 then r.ret.actualLength else 0)
      && Descriptors(r.isoPackets) + r.data == r.data + Descriptors(r.isoPackets)
  }

  lemma I32RoundTrip(x: i32)
    ensures BitsI32(I32Bits(x)) == x
  {
  }

  lemma FixedPartParses(h: Header, ws: seq<u32>, body: Bytes)
    requires |ws| == 7
    ensures var input := Words(HeaderWords(h)) + (Words(ws) + body);
            && |input| == 48 + |body| && input[48..] == body
            && WordsHeader(ParseWords(input, 5)) == h && ParseWords(input[20..], 7) == ws
  {
    HeaderParses(h, Words(ws) + body);
    WordsParse(ws, body);
  }

  lemma {:induction false} PacketsParse(packets: seq<IsoPacket>)
    ensures ParsePackets(PacketWords(packets)) == packets
  {
    if packets != [] {
      assert PacketWords(packets)[4..] == PacketWords(packets[1..]);
      PacketsParse(packets[1..]);
    }
  }

  lemma {:induction false} ParsedPacketsPrint(ws: seq<u32>)
    requires |ws| % 4 == 0
    ensures PacketWords(ParsePackets(ws)) == ws
  {
    if ws != [] {
      assert ParsePackets(ws)[1..] == ParsePackets(ws[4..]);
      ParsedPacketsPrint(ws[4..]);
      assert ws == [ws[0], ws[1], ws[2], ws[3]] + ws[4..];
    }
  }

  lemma DescriptorsParse(packets: seq<IsoPacket>, rest: Bytes)
    ensures ParsePackets(ParseWords(Descriptors(packets) + rest, 4 * |packets|)) == packets
  {
    WordsParse(PacketWords(packets), rest);
    PacketsParse(packets);
  }

  lemma ParsedDescriptorsPrint(b: Bytes, count: nat)
    requires |b| == 16 * count
    ensures Descriptors(ParsePackets(ParseWords(b, 4 * count))) == b
  {
    ParsedPacketsPrint(ParseWords(b, 4 * count));
    ParsedWordsPrint(b, 4 * count);
  }

  lemma ReadEncodedReply(r: Reply, rest: Bytes)
    requires FollowsLayout(r) && (r.UnlinkReply? ==> r.header.command == 4)
    ensures ReadReply(EncodeReply(r) + rest) == (Ok(r), rest)
    ensures |EncodeReply(r)| == 48 + (if r.SubmitReply? then 16 * |r.isoPackets| + |r.data| else 0)
  {
    match r
    case SubmitReply(h, ret, packets, data) =>
      var d := Descriptors(packets);
      var body := data + (d + rest);
      assert EncodeReply(r) + rest == Words(HeaderWords(h)) + (Words(RetWords(ret)) + body) by {
        Swapped(Words(HeaderWords(h)), Words(RetWords(ret)), d, data, rest);
      }
      FixedPartParses(h, RetWords(ret), body);
      I32RoundTrip(ret.status);
      DescriptorsParse(packets, rest);
      assert body[..|data|] == data && body[|data|..] == d + rest && body[|data| + |d|..] == rest;
    case UnlinkReply(h, status) =>
      var ws := [I32Bits(status), 0, 0, 0, 0, 0, 0];
      assert EncodeReply(r) + rest == Words(HeaderWords(h)) + (Words(ws) + rest);
      FixedPartParses(h, ws, rest);
      I32RoundTrip(status);
  }

  lemma Swapped(head: Bytes, fixed: Bytes, d: Bytes, data: Bytes, rest: Bytes)
    requires d + data == data + d
    ensures head + (fixed + (d + data)) + rest == head + (fixed + (data + (d + rest)))
  {
    assert d + data + rest == data + (d + rest);
  }

  // ---------- The replies the bridge builds ----------

  /** A reply without descriptors whose data has the announced length. */
  lemma PlainReply(r: Reply)
    requires r.SubmitReply? && r.header.command == 3 && r.isoPackets == [] && r.ret.numberOfPackets == 0
    requires |r.data| == if r.header.direction == 1 then r.ret.actualLength else 0
    ensures FollowsLayout(r) && |EncodeReply(r)| == 48 + |r.data|
  {
    assert Descriptors([]) + r.data == r.data + Descriptors([]);
    ReadEncodedReply(r, []);
  }

  /** The data of a reply: what the device gave, for IN requests cut off at the kernel's buffer. */
  predicate Carries(data: Bytes, given: Bytes, request: Header, cmd: CmdSubmit) {
    data <= given && |data| == if request.direction == 1 then Min(|given|, cmd.transferBufferLength) else |given|
  }

  /** r answers this request with this result. */
  predicate Answers(r: Reply, request: Header, cmd: CmdSubmit, devid: u32, result: TransferResult) {
    && r.SubmitReply? && r.header == Header(3, request.seqnum, devid, request.direction, request.ep)
    && r.ret.actualLength == |r.data| % U32_LIMIT
    && (result.Success? ==>
          Carries(r.data, result.data, request, cmd) && r.isoPackets == []
          && r.ret.status == r.ret.startFrame == r.ret.numberOfPackets == r.ret.errorCount == 0)
    && (result.IsochronousSuccess? ==>
          Carries(r.data, result.isoData, request, cmd) && r.ret.status == 0
          && r.ret.startFrame == result.startFrame && r.ret.errorCount == result.errorCount
          && r.ret.numberOfPackets == |result.packets| % U32_LIMIT
          && r.isoPackets == if cmd.numberOfPackets > 0 then result.packets else [])
    && (result.Error? ==>
          r.data == [] && r.isoPackets == [] && r.ret.status == Errno(result.error) < 0
          && r.ret.startFrame == r.ret.numberOfPackets == r.ret.errorCount == 0)
  }

  lemma ReplyAnswers(request: Header, cmd: CmdSubmit, devid: u32, result: TransferResult)
    ensures Answers(ReplyTo(request, cmd, devid, result), request, cmd, devid, result)
  {
  }

  /** Every non-ISO IN reply is 48 + actual_length bytes and fits the kernel's buffer. */
  lemma InReplyFits(request: Header, cmd: CmdSubmit, devid: u32, result: TransferResult)
    requires request.direction == 1 && cmd.numberOfPackets == 0 && !result.IsochronousSuccess?
    ensures var r := ReplyTo(request, cmd, devid, result);
            && FollowsLayout(r) && |EncodeReply(r)| == 48 + r.ret.actualLength
            && r.ret.actualLength <= cmd.transferBufferLength
  {
    ReplyAnswers(request, cmd, devid, result);
    PlainReply(ReplyTo(request, cmd, devid, result));
  }

  /** The reader gets r back and nothing is left over. */
  ghost predicate Recovered(r: Reply) {
    ReadReply(EncodeReply(r)) == (Ok(r), [])
  }

  /** The reader finds r's data and descriptors in `body`, data first. */
  predicate FoundIn(r: Reply, body: Bytes)
    requires r.SubmitReply?
  {
    && |body| == |r.data| + 16 * |r.isoPackets|
    && body[..|r.data|] == r.data
    && ParsePackets(ParseWords(body[|r.data|..], 4 * |r.isoPackets|)) == r.isoPackets
  }

  lemma RecoveredParts(r: Reply)
    requires r.SubmitReply? && r.header.command == 3 && Recovered(r)
    ensures |r.data| == if r.header.direction == 1 then r.ret.actualLength else 0
    ensures |r.isoPackets| == r.ret.numberOfPackets
    ensures FoundIn(r, Descriptors(r.isoPackets) + r.data)
  {
    FixedPartParses(r.header, RetWords(r.ret), Descriptors(r.isoPackets) + r.data);
  }

  lemma FoundMeansSwappable(r: Reply)
    requires r.SubmitReply? && FoundIn(r, Descriptors(r.isoPackets) + r.data)
    ensures Descriptors(r.isoPackets) + r.data == r.data + Descriptors(r.isoPackets)
  {
    var body, n := Descriptors(r.isoPackets) + r.data, |r.data|;
    ParsedDescriptorsPrint(body[n..], |r.isoPackets|);
    assert body == body[..n] + body[n..];
  }

  /** A reply to a CMD_SUBMIT is recovered exactly when it follows the layout. */
  lemma RecoveredExact(r: Reply)
    requires r.SubmitReply? && r.header.command == 3
    ensures Recovered(r) <==> FollowsLayout(r)
  {
    if FollowsLayout(r) {
      ReadEncodedReply(r, []);
      assert EncodeReply(r) + [] == EncodeReply(r);
    } else if Recovered(r) {
      RecoveredParts(r);
      FoundMeansSwappable(r);
    }
  }

  /** So descriptors in front of data would garble a reply: one descriptor and one byte already do.
      ReplyToReadMessage shows that no request that can be read leads there. */
  lemma DescriptorsInFrontGarble(h: Header, packet: IsoPacket, first: u8, startFrame: u32)
    requires h.command == 3 && h.direction == 1 && first != packet.offset / 256 / 256 / 256
    ensures !Recovered(SubmitReply(h, RetSubmit(0, 1, startFrame, 1, 0), [packet], [first]))
  {
    var r := SubmitReply(h, RetSubmit(0, 1, startFrame, 1, 0), [packet], [first]);
    RecoveredExact(r);
    assert (Descriptors([packet]) + [first])[0] != ([first] + Descriptors([packet]))[0];
  }

  /** The result of the device can be announced: its ISO packets only to an ISO request, where
      descriptors before data must look like data before descriptors. */
  predicate Announced(cmd: CmdSubmit, result: TransferResult, data: Bytes) {
    result.IsochronousSuccess? ==>
      if cmd.numberOfPackets == 0 then |result.packets| % U32_LIMIT == 0
      else |result.packets| < U32_LIMIT && Descriptors(result.packets) + data == data + Descriptors(result.packets)
  }

  lemma ReplyLayoutExact(request: Header, cmd: CmdSubmit, devid: u32, result: TransferResult)
    ensures var r := ReplyTo(request, cmd, devid, result);
            && r.SubmitReply? && r.header.command == 3
            && (FollowsLayout(r) <==> (request.direction == 1 || r.data == []) && Announced(cmd, result, r.data))
  {
    var r := ReplyTo(request, cmd, devid, result);
    assert Descriptors([]) + r.data == r.data + Descriptors([]);
  }

  /** The reader recovers a reply exactly when it is an IN reply or carries no data, and its result
      can be announced; in particular always for IN requests and results that are not isochronous. */
  lemma ReplyReadExact(request: Header, cmd: CmdSubmit, devid: u32, result: TransferResult)
    ensures var r := ReplyTo(request, cmd, devid, result);
            && r.SubmitReply?
            && (Recovered(r) <==> (request.direction == 1 || r.data == []) && Announced(cmd, result, r.data))
  {
    ReplyLayoutExact(request, cmd, devid, result);
    RecoveredExact(ReplyTo(request, cmd, devid, result));
  }

  /** The replies that can come about: whatever CMD_SUBMIT was read, its reply has no descriptors, and
      the reader recovers it exactly when it is an IN reply or carries no data, and announces no ISO
      packets. */
  lemma ReplyToReadMessage(input: Bytes, devid: u32, result: TransferResult)
    requires ReadMessage(input).0.Ok? && ReadMessage(input).0.value.Submit?
    ensures var m := ReadMessage(input).0.value;
            var r := ReplyTo(m.header, m.cmd, devid, result);
            && r.SubmitReply? && r.isoPackets == []
            && (Recovered(r) <==> (m.header.direction == 1 || r.data == [])
                                  && (result.IsochronousSuccess? ==> |result.packets| % U32_LIMIT == 0))
  {
    var m := ReadMessage(input).0.value;
    assert m.cmd.numberOfPackets == 0 by {
      ReadIsEncoding(input);
    }
    ReplyAnswers(m.header, m.cmd, devid, result);
    ReplyReadExact(m.header, m.cmd, devid, result);
  }

  // ---------- The output stream ----------

  function ReadReplies(input: Bytes): (seq<Reply>, Bytes)
    decreases |input|
  {
    var (r, rest) := ReadReply(input);
    if r.Err? then ([], input)
    else
      var (rs, left) := ReadReplies(rest);
      ([r.value] + rs, left)
  }

  function EncodeReplies(rs: seq<Reply>): Bytes {
    if rs == [] then [] else EncodeReply(rs[0]) + EncodeReplies(rs[1..])
  }

  lemma RepliesStep(input: Bytes)
    requires ReadReply(input).0.Ok?
    ensures ReadReplies(input)
            == ([ReadReply(input).0.value] + ReadReplies(ReadReply(input).1).0, ReadReplies(ReadReply(input).1).1)
  {
  }

  /** A reader that follows the layout recovers the whole list of replies written. */
  lemma {:induction false} ReplyStreamRoundTrip(rs: seq<Reply>)
    requires forall i :: 0 <= i < |rs| ==> FollowsLayout(rs[i]) && (rs[i].UnlinkReply? ==> rs[i].header.command == 4)
    ensures ReadReplies(EncodeReplies(rs)) == (rs, [])
    decreases |rs|
  {
    if rs != [] {
      var later := EncodeReplies(rs[1..]);
      assert ReadReplies(later) == (rs[1..], []) by {
        ReplyStreamRoundTrip(rs[1..]);
      }
      assert EncodeReplies(rs) == EncodeReply(rs[0]) + later;
      assert ReadReply(EncodeReplies(rs)) == (Ok(rs[0]), later) by {
        ReadEncodedReply(rs[0], later);
      }
      RepliesStep(EncodeReplies(rs));
      assert [rs[0]] + rs[1..] == rs;
    }
  }
}
