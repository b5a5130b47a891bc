/** Readers that consume and buffers that grow: the read_from and write_to functions in place. */
module UsbIpStreams {
  import opened Common
  import opened UsbIpWire
  import opened UsbIpReplies
  import WireLayouts

  /** A socket or a cursor: the bytes not read yet. */
  class ByteReader {
    var rest: Bytes

    constructor (bytes: Bytes)
      ensures rest == bytes
    {
      rest := bytes;
    }

    method ReadExact(count: nat) returns (b: Result<Bytes>)
      modifies this
      ensures if |old(rest)| < count then b == Err(EndOfStream) && rest == []
              else b == Ok(old(rest)[..count]) && rest == old(rest)[count..]
    {
      if |rest| < count {
        rest := [];
        return Err(EndOfStream);
      }
      b := Ok(rest[..count]);
      rest := rest[count..];
    }

    method ReadU32() returns (x: u32)
      requires |rest| >= 4
      modifies this
      ensures x == FromBe32(old(rest)[..4]) && rest == old(rest)[4..]
    {
      var b := ReadExact(4);
      x := FromBe32(b.value);
    }

    method ReadWords(count: nat) returns (ws: seq<u32>)
      requires |rest| >= 4 * count
      modifies this
      ensures ws == ParseWords(old(rest), count) && rest == old(rest)[4 * count..]
      decreases count
    {
      ws := [];
      if count > 0 {
        var first := ReadU32();
        var others := ReadWords(count - 1);
        ws := [first] + others;
      }
    }

    /** UsbIpHeader::read_from */
    method ReadHeader() returns (h: Header)
      requires |rest| >= HEADER_SIZE
      modifies this
      ensures h == WordsHeader(ParseWords(old(rest), 5)) && rest == old(rest)[HEADER_SIZE..]
    {
      var ws := ReadWords(5);
      h := WordsHeader(ws);
    }

    /** UsbIpCmdSubmit::read_from on the 28 bytes of the payload: no byte is left for descriptors. */
    method ReadCmdSubmit() returns (r: Result<CmdSubmit>)
      requires |rest| == UNION_SIZE
      modifies this
      ensures r == ParseCmdSubmit(old(rest))
    {
      var ws := ReadWords(5);
      var setup := ReadExact(8);
      assert setup.value == old(rest)[20..];
      var isoPackets: seq<IsoPacket> := [];
      for i := 0 to ws[3]
        invariant i == 0 && isoPackets == [] && rest == []
      {
        var descriptor := ReadExact(16);
        if descriptor.Err? {
          return Err(descriptor.error);
        }
      }
      r := Ok(CmdSubmit(ws[0], ws[1], ws[2], ws[3], ws[4], setup.value, isoPackets));
    }

    /** read_usbip_message_blocking */
    method ReadUsbIpMessage() returns (r: Result<Message>)
      modifies this
      ensures (r, rest) == ReadMessage(old(rest)) && WireLayouts.ReadAs(old(rest), r, rest)
    {
      WireLayouts.ReadBytesExact(rest);
      var headerBytes := ReadExact(HEADER_SIZE);
      if headerBytes.Err? {
        return Err(headerBytes.error);
      }
      var headerCursor := new ByteReader(headerBytes.value);
      ParsePrefix(old(rest), HEADER_SIZE, 5);
      var header := headerCursor.ReadHeader();
      match CommandType(header.command)
      case None =>
        r := Err(UnknownCommand);
      case Some(CmdSubmitCode) =>
        r := ReadSubmit(header);
      case Some(CmdUnlinkCode) =>
        var payload := ReadExact(UNION_SIZE);
        if payload.Err? {
          return Err(payload.error);
        }
        var cursor := new ByteReader(payload.value);
        assert payload.value[..4] == old(rest)[HEADER_SIZE..][..4];
        var target := cursor.ReadU32();
        r := Ok(Unlink(header, target));
      case Some(_) =>
        r := Err(UnexpectedCommand);
    }

    /** The CMD_SUBMIT branch: payload and, for OUT transfers, data. */
    method ReadSubmit(header: Header) returns (r: Result<Message>)
      modifies this
      ensures var body := old(rest);
              if |body| < UNION_SIZE then r == Err(EndOfStream) && rest == []
              else match ParseCmdSubmit(body[..UNION_SIZE])
                   case Err(e) => r == Err(e) && rest == body[UNION_SIZE..]
                   case Ok(cmd) =>
                     var n := if header.direction == 0 then cmd.transferBufferLength else 0;
                     if |body| - UNION_SIZE < n then r == Err(EndOfStream) && rest == []
                     else r == Ok(Submit(header, cmd, body[UNION_SIZE..][..n])) && rest == body[UNION_SIZE..][n..]
    {
      var payload := ReadExact(UNION_SIZE);
      if payload.Err? {
        return Err(payload.error);
      }
      var cursor := new ByteReader(payload.value);
      var cmd := cursor.ReadCmdSubmit();
      if cmd.Err? {
        return Err(cmd.error);
      }
      var data: Bytes := [];
      if header.direction == 0 && cmd.value.transferBufferLength > 0 {
        var read := ReadExact(cmd.value.transferBufferLength);
        if read.Err? {
          return Err(read.error);
        }
        data := read.value;
      }
      r := Ok(Submit(header, cmd.value, data));
    }
  }

  /** A message under construction. */
  class ByteBuffer {
    var bytes: Bytes

    constructor ()
      ensures bytes == []
    {
      bytes := [];
    }

    method WriteU32(x: u32)
      modifies this
      ensures bytes == old(bytes) + Be32(x)
    {
      bytes := bytes + Be32(x);
    }

    method WriteWords(ws: seq<u32>)
      modifies this
      ensures bytes == old(bytes) + Words(ws)
      decreases |ws|
    {
      if ws != [] {
        WriteU32(ws[0]);
        WriteWords(ws[1..]);
      }
    }

    /** send_ret_submit_async up to the socket write. */
    method BuildRetSubmit(r: Reply)
      requires r.SubmitReply? && bytes == []
      modifies this
      ensures bytes == EncodeReply(r) && WireLayouts.ReplyAt(r, bytes)
    {
      WireLayouts.ReplyBytesExact(r);
      WriteWords(HeaderWords(r.header));
      WriteWords(RetWords(r.ret));
      WritePackets(r.isoPackets);
      if r.data != [] {
        bytes := bytes + r.data;
      }
      Concat4(Words(HeaderWords(r.header)), Words(RetWords(r.ret)), Words(PacketWords(r.isoPackets)), r.data);
    }

    /** The loop over the ISO descriptors. */
    method WritePackets(packets: seq<IsoPacket>)
      modifies this
      ensures bytes == old(bytes) + Words(PacketWords(packets))
    {
      for i := 0 to |packets|
        invariant bytes == old(bytes) + Words(PacketWords(packets[..i]))
      {
        var p := packets[i];
        WriteWords([p.offset, p.length, p.actualLength, p.status]);
        PacketAppended(packets, i);
      }
      assert packets[..|packets|] == packets;
    }

    /** send_ret_unlink_blocking up to the socket write. */
    method BuildRetUnlink(seqnum: u32, devid: u32, status: i32)
      requires bytes == []
      modifies this
      ensures bytes == EncodeReply(UnlinkReplyTo(seqnum, devid, status))
      ensures WireLayouts.ReplyAt(UnlinkReply(Header(4, seqnum, devid, 0, 0), status), bytes)
    {
      WireLayouts.ReplyBytesExact(UnlinkReplyTo(seqnum, devid, status));
      WriteWords(HeaderWords(Header(4, seqnum, devid, 0, 0)));
      WriteWords([I32Bits(status), 0, 0, 0, 0, 0, 0]);
    }
  }

  lemma Concat4(a: Bytes, b: Bytes, c: Bytes, d: Bytes)
    ensures [] + a + b + c + d == a + (b + (c + d))
    ensures d == [] ==> [] + a + b + c == a + (b + (c + d))
  {
  }

  lemma PacketAppended(packets: seq<IsoPacket>, i: nat)
    requires i < |packets|
    ensures var p := packets[i];
            Words(PacketWords(packets[..i + 1]))
            == Words(PacketWords(packets[..i])) + Words([p.offset, p.length, p.actualLength, p.status])
  {
    var p := packets[i];
    assert packets[..i + 1] == packets[..i] + [p];
    PacketWordsAppend(packets[..i], p);
    WordsConcat(PacketWords(packets[..i]), [p.offset, p.length, p.actualLength, p.status]);
  }

  lemma {:induction false} PacketWordsAppend(packets: seq<IsoPacket>, p: IsoPacket)
    ensures PacketWords(packets + [p]) == PacketWords(packets) + [p.offset, p.length, p.actualLength, p.status]
  {
    var all := packets + [p];
    if packets == [] {
      assert all == [p] && all[1..] == [];
    } else {
      var first := packets[0];
      assert all[1..] == packets[1..] + [p];
      PacketWordsAppend(packets[1..], p);
      assert PacketWords(all) == [first.offset, first.length, first.actualLength, first.status] + PacketWords(all[1..]);
    }
  }

  lemma {:induction false} WordsConcat(a: seq<u32>, b: seq<u32>)
    ensures Words(a + b) == Words(a) + Words(b)
  {
    if a == [] {
      assert a + b == b;
    } else {
      assert (a + b)[1..] == a[1..] + b;
      WordsConcat(a[1..], b);
    }
  }
}
