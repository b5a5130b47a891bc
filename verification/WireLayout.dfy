/** The messages byte by byte: which offsets, byte orders and codes the reader takes and the replies have.
    Numbers are those of the tables USBIP_CMD_SUBMIT, USBIP_CMD_UNLINK, USBIP_RET_SUBMIT and
    USBIP_RET_UNLINK of Documentation/usb/usbip_protocol.rst. */
module WireLayouts {
  import opened Common
  import opened UsbIpWire
  import opened UsbIpReplies

  /** The big-endian word at offset i. */
  function WordAt(b: Bytes, i: nat): u32
    requires i + 4 <= |b|
  {
    0x100_0000 * b[i] as int + 0x1_0000 * b[i + 1] as int + 0x100 * b[i + 2] as int + b[i + 3]
  }

  lemma {:induction false} ParsedWordAt(b: Bytes, count: nat, k: nat)
    requires k < count && |b| >= 4 * count
    ensures ParseWords(b, count)[k] == WordAt(b, 4 * k)
  {
    if k > 0 {
      ParsedWordAt(b[4..], count - 1, k - 1);
    }
  }

  // ---------- What is read ----------

  /** The first 20 bytes. */
  predicate HeaderAt(h: Header, b: Bytes)
    requires |b| >= 20
  {
    && h.command == WordAt(b, 0) && h.seqnum == WordAt(b, 4) && h.devid == WordAt(b, 8)
    && h.direction == WordAt(b, 12) && h.ep == WordAt(b, 16)
  }

  /** The 28 bytes behind the header of a CMD_SUBMIT. */
  predicate SubmitAt(c: CmdSubmit, b: Bytes)
    requires |b| >= 48
  {
    && c.transferFlags == WordAt(b, 20) && c.transferBufferLength == WordAt(b, 24) && c.startFrame == WordAt(b, 28)
    && c.numberOfPackets == WordAt(b, 32) && c.interval == WordAt(b, 36) && c.setup == b[40..48]
    && c.isoPackets == []
  }

  lemma HeaderFields(b: Bytes)
    requires |b| >= 20
    ensures HeaderAt(WordsHeader(ParseWords(b, 5)), b)
  {
    ParsedWordAt(b, 5, 0);
    ParsedWordAt(b, 5, 1);
    ParsedWordAt(b, 5, 2);
    ParsedWordAt(b, 5, 3);
    ParsedWordAt(b, 5, 4);
  }

  lemma SubmitFields(b: Bytes)
    requires |b| >= 48
    ensures if WordAt(b, 32) > 0 then ParseCmdSubmit(b[20..48]) == Err(EndOfStream)
            else ParseCmdSubmit(b[20..48]).Ok? && SubmitAt(ParseCmdSubmit(b[20..48]).value, b)
  {
    var body := b[20..48];
    forall k | 0 <= k < 5
      ensures ParseWords(body, 5)[k] == WordAt(b, 20 + 4 * k)
    {
      ParsedWordAt(body, 5, k);
    }
    assert body[20..] == b[40..48];
  }

  /** How many bytes of data follow a CMD_SUBMIT: those of an OUT transfer. */
  function DataLength(b: Bytes): nat
    requires |b| >= 48
  {
    if WordAt(b, 12) == 0 then WordAt(b, 24) else 0
  }

  /** The reader's result for every byte string: the low 16 bits of the first word say what it is. */
  ghost predicate ReadAs(b: Bytes, r: Result<Message>, rest: Bytes) {
    if |b| < 20 then r == Err(EndOfStream) && rest == []
    else
      var code := WordAt(b, 0) % 0x1_0000;
      if code == 1 then
        if |b| < 48 then r == Err(EndOfStream) && rest == []
        else if WordAt(b, 32) > 0 then r == Err(EndOfStream) && rest == b[48..]
        else if |b| < 48 + DataLength(b) then r == Err(EndOfStream) && rest == []
        else
          && r.Ok? && r.value.Submit? && HeaderAt(r.value.header, b) && SubmitAt(r.value.cmd, b)
          && r.value.data == b[48..48 + DataLength(b)] && rest == b[48 + DataLength(b)..]
      else if code == 2 then
        if |b| < 48 then r == Err(EndOfStream) && rest == []
        else
          && r.Ok? && r.value.Unlink? && HeaderAt(r.value.header, b) && r.value.target == WordAt(b, 20)
          && rest == b[48..]
      else if code == 3 || code == 4 then r == Err(UnexpectedCommand) && rest == b[20..]
      else r == Err(UnknownCommand) && rest == b[20..]
  }

  lemma ReadBytesExact(b: Bytes)
    ensures ReadAs(b, ReadMessage(b).0, ReadMessage(b).1)
  {
    if |b| >= 20 {
      HeaderFields(b);
      if |b| >= 48 {
        SubmitFields(b);
        var body, n := b[20..], DataLength(b);
        assert body[..28] == b[20..48] && body[28..] == b[48..];
        ParsedWordAt(b[20..48], 1, 0);
        if |b| >= 48 + n {
          assert b[48..][..n] == b[48..48 + n] && b[48..][n..] == b[48 + n..];
        }
      }
    }
  }

  // ---------- What the kernel sends ----------

  /** b is the kernel's form of m: command 1 without ISO packets, followed by data for an OUT transfer, or
      command 2. */
  ghost predicate IsFormOf(b: Bytes, m: Message) {
    && |b| >= 48 && HeaderAt(m.header, b)
    && match m
       case Submit(h, c, data) =>
         && h.command == 1 && SubmitAt(c, b) && c.numberOfPackets == 0
         && |data| == (if h.direction == 0 then c.transferBufferLength else 0) && b[48..] == data
       case Unlink(h, target) => h.command == 2 && target == WordAt(b, 20) && |b| == 48
  }

  lemma PrefixWords(b: Bytes, rest: Bytes)
    requires |b| >= 48
    ensures forall i :: 0 <= i <= 44 ==> WordAt(b + rest, i) == WordAt(b, i)
    ensures (b + rest)[40..48] == b[40..48]
  {
  }

  /** A message in the kernel's form is read as what it is, and nothing behind it is touched. */
  lemma KernelMessageIsRead(b: Bytes, m: Message, rest: Bytes)
    requires IsFormOf(b, m)
    ensures ReadMessage(b + rest) == (Ok(m), rest)
  {
    var all := b + rest;
    PrefixWords(b, rest);
    ReadBytesExact(all);
    var n := |b| - 48;
    assert all[48..48 + n] == b[48..] && all[48 + n..] == rest;
    assert m.Submit? ==> DataLength(all) == n;
    var (r, left) := ReadMessage(all);
    assert r.value.header == m.header;
    assert m.Submit? ==> r.value.cmd == m.cmd;
  }

  function Joined(parts: seq<Bytes>): Bytes {
    if parts == [] then [] else parts[0] + Joined(parts[1..])
  }

  /** A stream of such messages is read as exactly these messages, with nothing left. */
  lemma {:induction false} KernelStreamIsRead(parts: seq<Bytes>, ms: seq<Message>)
    requires |parts| == |ms| && forall i :: 0 <= i < |ms| ==> IsFormOf(parts[i], ms[i])
    ensures ReadAll(Joined(parts)) == (ms, [])
    decreases |ms|
  {
    if ms != [] {
      var later := Joined(parts[1..]);
      KernelStreamIsRead(parts[1..], ms[1..]);
      KernelMessageIsRead(parts[0], ms[0], later);
      assert [ms[0]] + ms[1..] == ms;
    }
  }

  // ---------- What is written ----------

  lemma Be32At(x: u32)
    ensures WordAt(Be32(x), 0) == x
  {
  }

  lemma {:induction false} WrittenWordAt(front: Bytes, ws: seq<u32>, back: Bytes, k: nat)
    requires k < |ws|
    ensures WordAt(front + Words(ws) + back, |front| + 4 * k) == ws[k]
    decreases k
  {
    var all := front + Words(ws) + back;
    if k == 0 {
      Be32At(ws[0]);
      assert all[|front|..|front| + 4] == Be32(ws[0]);
      assert WordAt(all, |front|) == WordAt(all[|front|..|front| + 4], 0);
    } else {
      assert all == front + Be32(ws[0]) + Words(ws[1..]) + back;
      WrittenWordAt(front + Be32(ws[0]), ws[1..], back, k - 1);
    }
  }

  /** The 16 bytes of an ISO descriptor at offset i. */
  predicate DescriptorAt(p: IsoPacket, b: Bytes, i: nat)
    requires i + 16 <= |b|
  {
    && p.offset == WordAt(b, i) && p.length == WordAt(b, i + 4) && p.actualLength == WordAt(b, i + 8)
    && p.status == WordAt(b, i + 12)
  }

  /** A status on the wire, as a 32-bit two's complement. */
  function Signed(x: i32): u32 {
    x % U32_LIMIT
  }

  /** Seven words behind the header. */
  predicate UnionAt(w0: u32, w1: u32, w2: u32, w3: u32, w4: u32, w5: u32, w6: u32, b: Bytes)
    requires |b| >= 48
  {
    && w0 == WordAt(b, 20) && w1 == WordAt(b, 24) && w2 == WordAt(b, 28) && w3 == WordAt(b, 32)
    && w4 == WordAt(b, 36) && w5 == WordAt(b, 40) && w6 == WordAt(b, 44)
  }

  predicate DescriptorsAt(packets: seq<IsoPacket>, b: Bytes)
    requires |b| >= 48 + 16 * |packets|
  {
    forall i :: 0 <= i < |packets| ==> DescriptorAt(packets[i], b, 48 + 16 * i)
  }

  /** b is the reply byte by byte: the fields at their offsets, zeros up to 48 bytes, then the ISO
      descriptors and the data. */
  predicate ReplyAt(r: Reply, b: Bytes) {
    match r
    case SubmitReply(h, ret, packets, data) =>
      var n := 48 + 16 * |packets|;
      && |b| == n + |data| && HeaderAt(h, b)
      && UnionAt(Signed(ret.status), ret.actualLength, ret.startFrame, ret.numberOfPackets, ret.errorCount, 0, 0, b)
      && DescriptorsAt(packets, b) && b[n..] == data
    case UnlinkReply(h, status) =>
      |b| == 48 && HeaderAt(h, b) && UnionAt(Signed(status), 0, 0, 0, 0, 0, 0, b)
  }

  lemma HeaderIsWritten(h: Header, back: Bytes)
    ensures HeaderAt(h, Words(HeaderWords(h)) + back)
  {
    var ws := HeaderWords(h);
    assert [] + Words(ws) + back == Words(ws) + back;
    WrittenWordAt([], ws, back, 0);
    WrittenWordAt([], ws, back, 1);
    WrittenWordAt([], ws, back, 2);
    WrittenWordAt([], ws, back, 3);
    WrittenWordAt([], ws, back, 4);
  }

  lemma UnionIsWritten(h: Header, ws: seq<u32>, back: Bytes)
    requires |ws| == 7
    ensures var b := Words(HeaderWords(h)) + (Words(ws) + back);
            && HeaderAt(h, b) && |b| == 48 + |back| && b[48..] == back
            && UnionAt(ws[0], ws[1], ws[2], ws[3], ws[4], ws[5], ws[6], b)
  {
    var front := Words(HeaderWords(h));
    HeaderIsWritten(h, Words(ws) + back);
    assert front + Words(ws) + back == front + (Words(ws) + back);
    WrittenWordAt(front, ws, back, 0);
    WrittenWordAt(front, ws, back, 1);
    WrittenWordAt(front, ws, back, 2);
    WrittenWordAt(front, ws, back, 3);
    WrittenWordAt(front, ws, back, 4);
    WrittenWordAt(front, ws, back, 5);
    WrittenWordAt(front, ws, back, 6);
  }

  lemma {:induction false} PacketWordsAt(packets: seq<IsoPacket>, i: nat)
    requires i < |packets|
    ensures var ws, p := PacketWords(packets), packets[i];
            && ws[4 * i] == p.offset && ws[4 * i + 1] == p.length && ws[4 * i + 2] == p.actualLength
            && ws[4 * i + 3] == p.status
  {
    if i > 0 {
      PacketWordsAt(packets[1..], i - 1);
    }
  }

  lemma FourWordsAt(front: Bytes, ws: seq<u32>, back: Bytes, k: nat, p: IsoPacket)
    requires k + 4 <= |ws| && ws[k] == p.offset && ws[k + 1] == p.length && ws[k + 2] == p.actualLength
    requires ws[k + 3] == p.status
    ensures DescriptorAt(p, front + Words(ws) + back, |front| + 4 * k)
  {
    WrittenWordAt(front, ws, back, k);
    WrittenWordAt(front, ws, back, k + 1);
    WrittenWordAt(front, ws, back, k + 2);
    WrittenWordAt(front, ws, back, k + 3);
  }

  lemma PacketsAreWritten(front: Bytes, packets: seq<IsoPacket>, data: Bytes)
    requires |front| == 48
    ensures |front + (Words(PacketWords(packets)) + data)| >= 48 + 16 * |packets|
    ensures DescriptorsAt(packets, front + (Words(PacketWords(packets)) + data))
  {
    var ws := PacketWords(packets);
    assert front + Words(ws) + data == front + (Words(ws) + data);
    forall i | 0 <= i < |packets|
      ensures DescriptorAt(packets[i], front + (Words(ws) + data), 48 + 16 * i)
    {
      PacketWordsAt(packets, i);
      FourWordsAt(front, ws, data, 4 * i, packets[i]);
    }
  }

  lemma SubmitReplyIsWritten(h: Header, ret: RetSubmit, packets: seq<IsoPacket>, data: Bytes)
    ensures var b, n := EncodeReply(SubmitReply(h, ret, packets, data)), 48 + 16 * |packets|;
            && |b| == n + |data| && HeaderAt(h, b) && b[n..] == data && DescriptorsAt(packets, b)
            && UnionAt(I32Bits(ret.status), ret.actualLength, ret.startFrame, ret.numberOfPackets, ret.errorCount, 0, 0, b)
  {
    var front, back := Words(HeaderWords(h)) + Words(RetWords(ret)), Words(PacketWords(packets)) + data;
    assert EncodeReply(SubmitReply(h, ret, packets, data)) == front + back;
    PacketsAreWritten(front, packets, data);
    UnionIsWritten(h, RetWords(ret), back);
  }

  lemma UnlinkReplyIsWritten(h: Header, status: i32)
    ensures var b := EncodeReply(UnlinkReply(h, status));
            |b| == 48 && HeaderAt(h, b) && UnionAt(I32Bits(status), 0, 0, 0, 0, 0, 0, b)
  {
    var ws := [I32Bits(status), 0, 0, 0, 0, 0, 0];
    UnionIsWritten(h, ws, []);
    assert EncodeReply(UnlinkReply(h, status)) == Words(HeaderWords(h)) + (Words(ws) + []);
  }

  /** Every reply is written with each field at its place. */
  lemma ReplyBytesExact(r: Reply)
    ensures ReplyAt(r, EncodeReply(r))
  {
    match r
    case SubmitReply(h, ret, packets, data) =>
      SubmitReplyIsWritten(h, ret, packets, data);
    case UnlinkReply(h, status) =>
      UnlinkReplyIsWritten(h, status);
  }

  /** RET_UNLINK: command 4, the sequence number of the CMD_UNLINK, the device, the status and zeros. */
  lemma UnlinkReplyBytes(seqnum: u32, devid: u32, status: i32)
    ensures var b := EncodeReply(UnlinkReplyTo(seqnum, devid, status));
            && |b| == 48 && WordAt(b, 0) == 4 && WordAt(b, 4) == seqnum && WordAt(b, 8) == devid
            && WordAt(b, 12) == WordAt(b, 16) == 0
            && UnionAt(if status >= 0 then status else 0x1_0000_0000 + status, 0, 0, 0, 0, 0, 0, b)
  {
    ReplyBytesExact(UnlinkReplyTo(seqnum, devid, status));
  }

  /** The numbers of Linux for what can go wrong with a transfer. */
  function LinuxError(e: UsbError): nat {
    match e
    case NotFound => 2
    case Io => 5
    case Other => 5
    case Access => 13
    case Busy => 16
    case NoDevice => 19
    case InvalidParam => 22
    case Pipe => 32
    case Overflow => 75
    case Timeout => 110
  }

  /** RET_SUBMIT for a failed transfer: command 3, the fields of the request's header, the device, minus
      the Linux error number, and zeros. */
  lemma ErrorReplyBytes(request: Header, cmd: CmdSubmit, devid: u32, e: UsbError)
    ensures var b := EncodeReply(ReplyTo(request, cmd, devid, Error(e)));
            && |b| == 48 && WordAt(b, 0) == 3 && WordAt(b, 4) == request.seqnum && WordAt(b, 8) == devid
            && WordAt(b, 12) == request.direction && WordAt(b, 16) == request.ep
            && UnionAt(0x1_0000_0000 - LinuxError(e), 0, 0, 0, 0, 0, 0, b)
  {
    ReplyBytesExact(ReplyTo(request, cmd, devid, Error(e)));
  }
}
