/** USB/IP messages on the wire (crates/client/src/virtual_usb/usbip_protocol.rs and the reading and
    writing parts of socket_bridge.rs).  Layouts follow the tables USBIP_CMD_SUBMIT,
    USBIP_RET_SUBMIT, USBIP_CMD_UNLINK and USBIP_RET_UNLINK of the Linux kernel document
    Documentation/usb/usbip_protocol.rst.
 */
module UsbIpWire {
  import opened Common

  type Bytes = seq<u8>

  datatype Error = EndOfStream | UnknownCommand | UnexpectedCommand

  datatype Result<+T> = Ok(value: T) | Err(error: Error)

  datatype Header = Header(command: u32, seqnum: u32, devid: u32, direction: u32, ep: u32)

  datatype IsoPacket = IsoPacket(offset: u32, length: u32, actualLength: u32, status: u32)

  datatype CmdSubmit = CmdSubmit(
    transferFlags: u32,
    transferBufferLength: u32,
    startFrame: u32,
    numberOfPackets: u32,
    interval: u32,
    setup: Bytes,
    isoPackets: seq<IsoPacket>)

  datatype Message = Submit(header: Header, cmd: CmdSubmit, data: Bytes) | Unlink(header: Header, target: u32)

  datatype Command = CmdSubmitCode | CmdUnlinkCode | RetSubmitCode | RetUnlinkCode

  const HEADER_SIZE: nat := 20
  const UNION_SIZE: nat := 28

  // ---------- Big-endian words ----------

  function Be32(x: u32): (b: Bytes)
    ensures |b| == 4
  {
    [x / 256 / 256 / 256, x / 256 / 256 % 256, x / 256 % 256, x % 256]
  }

  function FromBe32(b: Bytes): u32
    requires |b| == 4
  {
    256 * (256 * (256 * b[0] as int + b[1]) + b[2]) + b[3]
  }

  function Words(ws: seq<u32>): (b: Bytes)
    ensures |b| == 4 * |ws|
  {
    if ws == [] then [] else Be32(ws[0]) + Words(ws[1..])
  }

  function ParseWords(b: Bytes, count: nat): (ws: seq<u32>)
    requires |b| >= 4 * count
    ensures |ws| == count
  {
    if count == 0 then [] else [FromBe32(b[..4])] + ParseWords(b[4..], count - 1)
  }

  lemma Be32RoundTrip(x: u32)
    ensures FromBe32(Be32(x)) == x
  {
  }

  lemma FromBe32RoundTrip(b: Bytes)
    requires |b| == 4
    ensures Be32(FromBe32(b)) == b
  {
    var x := FromBe32(b);
    var top := 256 * b[0] as int + b[1];
    assert x / 256 == 256 * top + b[2];
    assert x / 256 / 256 == top;
  }

  lemma {:induction false} WordsParse(ws: seq<u32>, rest: Bytes)
    ensures ParseWords(Words(ws) + rest, |ws|) == ws
  {
    if ws != [] {
      var all := Words(ws) + rest;
      assert all[..4] == Be32(ws[0]) && all[4..] == Words(ws[1..]) + rest;
      Be32RoundTrip(ws[0]);
      WordsParse(ws[1..], rest);
    }
  }

  lemma {:induction false} ParsedWordsPrint(b: Bytes, count: nat)
    requires |b| == 4 * count
    ensures Words(ParseWords(b, count)) == b
  {
    if count > 0 {
      FromBe32RoundTrip(b[..4]);
      ParsedWordsPrint(b[4..], count - 1);
      assert b == b[..4] + b[4..];
    }
  }

  // ---------- Headers and commands ----------

  function HeaderWords(h: Header): seq<u32> {
    [h.command, h.seqnum, h.devid, h.direction, h.ep]
  }

  function WordsHeader(ws: seq<u32>): Header
    requires |ws| == 5
  {
    Header(ws[0], ws[1], ws[2], ws[3], ws[4])
  }

  /** from_u16(command as u16) */
  function CommandType(command: u32): Option<Command> {
    var code := command % 0x1_0000;
    if code == 1 then Some(CmdSubmitCode)
    else if code == 3 then Some(RetSubmitCode)
    else if code == 2 then Some(CmdUnlinkCode)
    else if code == 4 then Some(RetUnlinkCode)
    else None
  }

  function CmdWords(c: CmdSubmit): seq<u32> {
    [c.transferFlags, c.transferBufferLength, c.startFrame, c.numberOfPackets, c.interval]
  }

  /** UsbIpCmdSubmit::read_from on exactly 28 bytes: ISO descriptors are never among them. */
  function ParseCmdSubmit(b: Bytes): Result<CmdSubmit>
    requires |b| == UNION_SIZE
  {
    var ws := ParseWords(b, 5);
    if ws[3] > 0 then Err(EndOfStream) else Ok(CmdSubmit(ws[0], ws[1], ws[2], ws[3], ws[4], b[20..], []))
  }

  // ---------- Reading one message ----------

  /** read_usbip_message_blocking: the message or error, and the bytes not consumed.  A read past
      the end of the stream consumes what is left. */
  function ReadMessage(input: Bytes): (r: (Result<Message>, Bytes))
    ensures r.0.Ok? ==> |r.1| + 48 <= |input|
  {
    if |input| < HEADER_SIZE then (Err(EndOfStream), [])
    else
      var header := WordsHeader(ParseWords(input, 5));
      var body := input[HEADER_SIZE..];
      match CommandType(header.command)
      case None => (Err(UnknownCommand), body)
      case Some(CmdSubmitCode) =>
        if |body| < UNION_SIZE then (Err(EndOfStream), [])
        else
          var rest := body[UNION_SIZE..];
          (match ParseCmdSubmit(body[..UNION_SIZE])
           case Err(e) => (Err(e), rest)
           case Ok(cmd) =>
             if header.direction != 0 || cmd.transferBufferLength == 0 then (Ok(Submit(header, cmd, [])), rest)
             else if |rest| < cmd.transferBufferLength then (Err(EndOfStream), [])
             else (Ok(Submit(header, cmd, rest[..cmd.transferBufferLength])), rest[cmd.transferBufferLength..]))
      case Some(CmdUnlinkCode) =>
        if |body| < UNION_SIZE then (Err(EndOfStream), [])
        else (Ok(Unlink(header, FromBe32(body[..4]))), body[UNION_SIZE..])
      case Some(_) => (Err(UnexpectedCommand), body)
  }

  /** What the kernel sends: header, command, for OUT transfers the data. */
  function Encode(m: Message, padding: Bytes): Bytes {
    match m
    case Submit(h, c, data) => Words(HeaderWords(h)) + (Words(CmdWords(c)) + c.setup + data)
    case Unlink(h, target) => Words(HeaderWords(h)) + (Be32(target) + padding)
  }

  /** A CMD_SUBMIT, command 1, without ISO packets whose data is that of its direction, or a CMD_UNLINK,
      command 2. */
  predicate WellFormed(m: Message) {
    match m
    case Submit(h, c, data) =>
      && h.command % 0x1_0000 == 1
      && |c.setup| == 8 && c.numberOfPackets == 0 && c.isoPackets == []
      && |data| == (if h.direction == 0 then c.transferBufferLength else 0)
    case Unlink(h, _) => h.command % 0x1_0000 == 2
  }

  lemma HeaderParses(h: Header, body: Bytes)
    ensures var input := Words(HeaderWords(h)) + body;
            |input| >= HEADER_SIZE && WordsHeader(ParseWords(input, 5)) == h && input[HEADER_SIZE..] == body
  {
    WordsParse(HeaderWords(h), body);
  }

  lemma CmdParses(c: CmdSubmit)
    requires |c.setup| == 8 && c.numberOfPackets == 0 && c.isoPackets == []
    ensures ParseCmdSubmit(Words(CmdWords(c)) + c.setup) == Ok(c)
  {
    WordsParse(CmdWords(c), c.setup);
    assert (Words(CmdWords(c)) + c.setup)[20..] == c.setup;
  }

  /** A well-formed message is read back and nothing behind it is touched. */
  lemma ReadEncoded(m: Message, padding: Bytes, rest: Bytes)
    requires WellFormed(m) && |padding| == 24
    ensures ReadMessage(Encode(m, padding) + rest) == (Ok(m), rest)
  {
    match m
    case Submit(h, c, data) =>
      var fixed := Words(CmdWords(c)) + c.setup;
      var body := fixed + data + rest;
      assert Encode(m, padding) + rest == Words(HeaderWords(h)) + body;
      HeaderParses(h, body);
      CmdParses(c);
      assert body[..UNION_SIZE] == fixed && body[UNION_SIZE..] == data + rest;
      assert (data + rest)[..|data|] == data && (data + rest)[|data|..] == rest;
      assert data == [] ==> data + rest == rest;
    case Unlink(h, target) =>
      var body := Be32(target) + padding + rest;
      assert Encode(m, padding) + rest == Words(HeaderWords(h)) + body;
      HeaderParses(h, body);
      Be32RoundTrip(target);
      assert body[..4] == Be32(target) && body[UNION_SIZE..] == rest;
  }

  lemma {:induction false} ParsePrefix(b: Bytes, n: nat, count: nat)
    requires 4 * count <= n <= |b|
    ensures ParseWords(b[..n], count) == ParseWords(b, count)
  {
    if count > 0 {
      assert b[..n][..4] == b[..4] && b[..n][4..] == b[4..][..n - 4];
      ParsePrefix(b[4..], n - 4, count - 1);
    }
  }

  lemma HeaderPrints(input: Bytes)
    requires |input| >= HEADER_SIZE
    ensures Words(HeaderWords(WordsHeader(ParseWords(input, 5)))) == input[..20]
  {
    var ws := ParseWords(input, 5);
    ParsePrefix(input, 20, 5);
    ParsedWordsPrint(input[..20], 5);
    HeaderWordsBack(ws);
  }

  lemma HeaderWordsBack(ws: seq<u32>)
    requires |ws| == 5
    ensures HeaderWords(WordsHeader(ws)) == ws
  {
  }

  lemma CmdPrints(b: Bytes)
    requires |b| == UNION_SIZE && ParseCmdSubmit(b).Ok?
    ensures var c := ParseCmdSubmit(b).value; Words(CmdWords(c)) + c.setup == b
  {
    var ws := ParseWords(b, 5);
    ParsePrefix(b, 20, 5);
    ParsedWordsPrint(b[..20], 5);
    assert CmdWords(ParseCmdSubmit(b).value) == ws;
    assert b == b[..20] + b[20..];
  }

  lemma AssembleSubmit(input: Bytes, c: CmdSubmit, data: Bytes, rest: Bytes, padding: Bytes)
    requires |input| >= 48 && ParseCmdSubmit(input[20..48]) == Ok(c) && data + rest == input[48..]
    ensures input == Encode(Submit(WordsHeader(ParseWords(input, 5)), c, data), padding) + rest
  {
    HeaderPrints(input);
    CmdPrints(input[20..48]);
    Cut(input, Words(HeaderWords(WordsHeader(ParseWords(input, 5)))), Words(CmdWords(c)) + c.setup, data, rest);
  }

  lemma Cut(input: Bytes, head: Bytes, fixed: Bytes, data: Bytes, rest: Bytes)
    requires |input| >= 48 && head == input[..20] && fixed == input[20..48] && data + rest == input[48..]
    ensures input == head + (fixed + data) + rest
  {
    assert input == head + (fixed + (data + rest));
    Glue(head, fixed, data, rest);
  }

  lemma SubmitIsEncoding(input: Bytes)
    requires ReadMessage(input).0.Ok? && ReadMessage(input).0.value.Submit?
    ensures var (r, rest) := ReadMessage(input);
            WellFormed(r.value) && forall padding :: input == Encode(r.value, padding) + rest
  {
    var (r, rest) := ReadMessage(input);
    var body := input[HEADER_SIZE..];
    assert body[..UNION_SIZE] == input[20..48] && body[UNION_SIZE..] == input[48..];
    forall padding
      ensures input == Encode(r.value, padding) + rest
    {
      AssembleSubmit(input, r.value.cmd, r.value.data, rest, padding);
    }
  }

  lemma Glue(a: Bytes, b: Bytes, c: Bytes, d: Bytes)
    ensures (a + (b + c)) + d == a + (b + (c + d))
  {
  }

  lemma UnlinkIsEncoding(input: Bytes)
    requires ReadMessage(input).0.Ok? && ReadMessage(input).0.value.Unlink?
    ensures var (r, rest) := ReadMessage(input);
            WellFormed(r.value) && |input| >= 48 && input == Encode(r.value, input[24..48]) + rest
  {
    var (r, rest) := ReadMessage(input);
    var body := input[HEADER_SIZE..];
    HeaderPrints(input);
    FromBe32RoundTrip(body[..4]);
    assert input == input[..20] + (body[..4] + input[24..48]) + body[UNION_SIZE..];
  }

  /** Whatever is read was sent: the consumed bytes are an encoding of the message. */
  lemma ReadIsEncoding(input: Bytes)
    requires ReadMessage(input).0.Ok?
    ensures var (r, rest) := ReadMessage(input);
            && WellFormed(r.value)
            && exists padding: Bytes :: |padding| == 24 && input == Encode(r.value, padding) + rest
  {
    var (r, rest) := ReadMessage(input);
    if r.value.Submit? {
      SubmitIsEncoding(input);
      var padding: Bytes := seq(24, _ => 0);
      assert |padding| == 24 && input == Encode(r.value, padding) + rest;
    } else {
      UnlinkIsEncoding(input);
      assert |input[24..48]| == 24;
    }
  }

  // ---------- Reading the stream ----------

  /** The messages read until the first error, and what is left then. */
  function ReadAll(input: Bytes): (seq<Message>, Bytes)
    decreases |input|
  {
    var (r, rest) := ReadMessage(input);
    if r.Err? then ([], input)
    else
      var (ms, left) := ReadAll(rest);
      ([r.value] + ms, left)
  }

  function EncodeAll(ms: seq<Message>, paddings: seq<Bytes>): Bytes
    requires |paddings| == |ms|
  {
    if ms == [] then [] else Encode(ms[0], paddings[0]) + EncodeAll(ms[1..], paddings[1..])
  }

  /** Repeated reads of concatenated messages return exactly these messages, with nothing left. */
  lemma {:induction false} StreamRoundTrip(ms: seq<Message>, paddings: seq<Bytes>)
    requires |paddings| == |ms|
    requires forall i :: 0 <= i < |ms| ==> WellFormed(ms[i]) && |paddings[i]| == 24
    ensures ReadAll(EncodeAll(ms, paddings)) == (ms, [])
    decreases |ms|
  {
    if ms != [] {
      var later := EncodeAll(ms[1..], paddings[1..]);
      StreamRoundTrip(ms[1..], paddings[1..]);
      ReadEncoded(ms[0], paddings[0], later);
      assert EncodeAll(ms, paddings) == Encode(ms[0], paddings[0]) + later;
      assert [ms[0]] + ms[1..] == ms;
    }
  }

  /** A message read back is the one sent exactly when the sender kept to the layout; in particular a
      CMD_SUBMIT with ISO packets is never read. */
  lemma ReadExact(m: Message, padding: Bytes)
    requires |padding| == 24 && (m.Submit? ==> |m.cmd.setup| == 8)
    ensures ReadMessage(Encode(m, padding)) == (Ok(m), []) <==> WellFormed(m)
  {
    if WellFormed(m) {
      ReadEncoded(m, padding, []);
      assert Encode(m, padding) + [] == Encode(m, padding);
    } else if ReadMessage(Encode(m, padding)) == (Ok(m), []) {
      ReadIsEncoding(Encode(m, padding));
    }
  }
}
