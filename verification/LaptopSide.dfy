/**
 * The laptop's end of the connection: it sends position and pen commands
 * and waits for the robot's reply. Unlike the robot it uses the package
 * MAGIC for reading, reads every body in full before dispatching, and
 * accepts all five tags.
 */
module LaptopSide {
  import opened Bytes
  import opened Wrappers
  import opened Wire
  import opened Streams
  import opened Framing
  import RobotSide

  /**
   * The dispatch after the whole body has been read, as written: a pen body
   * of one byte is kept as the raw bytes, so any pen message is truthy.
   */
  function LaptopDispatch(tag: byte, body: seq<byte>): (r: Reception)
    ensures !r.Starved?
    ensures r.Received? ==> TagOf(r.msg) == tag
    ensures r == Failed(UnknownType(tag)) <==>
      tag !in {TagCurrentPos, TagGotoPos, TagPenUpdown, TagOk, TagError}
    ensures tag in {TagCurrentPos, TagGotoPos} ==> (r.Received? <==> |body| == 16)
    ensures tag == TagPenUpdown ==> (r.Received? <==> |body| == 1)
    ensures tag == TagPenUpdown && |body| != 1 ==> r == Failed(BadPenBody(|body|))
    ensures tag == TagPenUpdown && |body| == 1 ==> r == Received(PenUpdown(Raw(body))) && Truthy(r.msg.pendown)
    ensures tag in {TagCurrentPos, TagGotoPos} && |body| != 16 ==> r == Failed(StructError)
    ensures tag in {TagCurrentPos, TagGotoPos} && |body| == 16 ==>
      r.Received? && r.msg.x == UnpackDouble(body[..8]) && r.msg.y == UnpackDouble(body[8..])
    ensures tag == TagOk ==> r == Received(Ok)
    ensures tag == TagError ==> r == Received(Error(body))
  {
    if tag == TagCurrentPos || tag == TagGotoPos then
      if |body| != 16 then Failed(StructError)
      else
        var x, y := UnpackDouble(body[..8]), UnpackDouble(body[8..]);
        Received(if tag == TagCurrentPos then CurrentPos(x, y) else GotoPos(x, y))
    else if tag == TagPenUpdown then
      if |body| != 1 then Failed(BadPenBody(|body|))
      else Received(PenUpdown(Raw(body)))
    else if tag == TagOk then Received(Ok)
    else if tag == TagError then Received(Error(body))
    else Failed(UnknownType(tag))
  }

  /** `wait_for_bot` on the unread bytes `s`, given the package MAGIC. */
  function LaptopRead(magic: byte, s: seq<byte>): (r: Read)
    ensures r.consumed <= |s|
    ensures r.outcome.Starved? <==> NoMagic(s, magic)
  {
    match ScanHeader(s, magic)
    case NoFrame => Read(Starved, |s|)
    case ShortHeader => Read(Failed(StructError), |s|)
    case Header(tag, length, start) =>
      var body := Take(s[start..], length);
      Read(LaptopDispatch(tag, body), start + |body|)
  }

  /**
   * A stream that ends fewer than 6 bytes after its first MAGIC fails with
   * struct.error (the length read is short), and all of it has been read.
   */
  lemma LaptopShortHeader(magic: byte, g: seq<byte>, t: seq<byte>)
    requires NoMagic(g, magic) && |t| < HeaderSize - 1
    ensures LaptopRead(magic, g + [magic] + t) == Read(Failed(StructError), |g| + 1 + |t|)
  {
    FirstMagicAfterGarbage(g, [magic] + t, magic);
    assert g + [magic] + t == g + ([magic] + t);
  }

  /** Bytes without MAGIC in front of the stream are skipped and change nothing else. */
  lemma LaptopSkipsGarbage(magic: byte, g: seq<byte>, s: seq<byte>)
    requires NoMagic(g, magic)
    ensures LaptopRead(magic, g + s) == Read(LaptopRead(magic, s).outcome, |g| + LaptopRead(magic, s).consumed)
  {
    ScanAfterGarbage(g, s, magic);
    match ScanHeader(s, magic)
    case NoFrame =>
    case ShortHeader =>
    case Header(tag, length, start) =>
      assert (g + s)[|g| + start..] == s[start..];
  }

  /** A complete frame at the very front of the stream is read to its end. */
  lemma LaptopReadsFrontFrame(magic: byte, tag: byte, body: seq<byte>, rest: seq<byte>)
    requires |body| < 0x1_0000_0000
    ensures var f := [magic, tag] + PackU32(|body|) + body;
      LaptopRead(magic, f + rest) == Read(LaptopDispatch(tag, body), |f|)
  {
    var s := [magic, tag] + PackU32(|body|) + body + rest;
    assert s[0] == magic;
    assert FirstMagic(s, magic) == 0;
    assert s[2..6] == PackU32(|body|);
    assert ScanHeader(s, magic) == Header(tag, |body|, HeaderSize);
    assert s[HeaderSize..] == body + rest;
    assert Take(body + rest, |body|) == body;
  }

  /**
   * Whatever the tag, even one the laptop refuses, a complete frame is read
   * to its end, and the outcome is the dispatch of exactly its body.
   */
  lemma LaptopReadsWholeFrame(magic: byte, g: seq<byte>, tag: byte, body: seq<byte>, rest: seq<byte>)
    requires NoMagic(g, magic) && |body| < 0x1_0000_0000
    ensures var f := [magic, tag] + PackU32(|body|) + body;
      LaptopRead(magic, g + f + rest) == Read(LaptopDispatch(tag, body), |g| + |f|)
  {
    var f := [magic, tag] + PackU32(|body|) + body;
    LaptopSkipsGarbage(magic, g, f + rest);
    assert g + f + rest == g + (f + rest);
    LaptopReadsFrontFrame(magic, tag, body, rest);
  }

  /**
   * Decoding an encoded frame gives back the message, except that a pen
   * message comes back holding its one body byte instead of its flag.
   */
  lemma LaptopReadsEncoded(magic: byte, g: seq<byte>, m: Message, rest: seq<byte>)
    requires NoMagic(g, magic) && Encode(magic, m).Some?
    ensures var f := Encode(magic, m).value;
      LaptopRead(magic, g + f + rest) ==
        Read(Received(if m.PenUpdown? then PenUpdown(Raw(Body(m))) else m), |g| + |f|)
  {
    var f := Encode(magic, m).value;
    assert f == [magic, TagOf(m)] + PackU32(|Body(m)|) + Body(m);
    LaptopReadsWholeFrame(magic, g, TagOf(m), Body(m), rest);
    BodyShapes(m);
    if m.CurrentPos? || m.GotoPos? {
      assert Body(m)[..8] == PackDouble(m.x) && Body(m)[8..] == PackDouble(m.y);
    }
  }

  /**
   * The pen-up frame is read back as a message whose `pendown` is the byte
   * string "u", which is true: encoding it again gives the pen-down frame.
   */
  lemma LaptopTurnsPenUpIntoPenDown(magic: byte)
    ensures var up := PenUpdown(Flag(false));
      var r := LaptopRead(magic, Encode(magic, up).value).outcome;
      && r.Received? && Truthy(r.msg.pendown)
      && Encode(magic, r.msg).value[HeaderSize..] == [PenDownByte]
      && Encode(magic, up).value[HeaderSize..] == [PenUpByte]
  {
    LaptopReadsEncoded(magic, [], PenUpdown(Flag(false)), []);
    assert [] + Encode(magic, PenUpdown(Flag(false))).value + [] == Encode(magic, PenUpdown(Flag(false))).value;
  }

  /**
   * The dispatch with the pen flag decoded as the robot does it: a one-byte
   * pen body gives exactly what the robot's dispatch gives, so the flag is
   * always a bool; every other frame is dispatched as before.
   */
  function LaptopDispatchFixed(tag: byte, body: seq<byte>): (r: Reception)
    ensures tag == TagPenUpdown && |body| == 1 ==> r == RobotSide.RobotDispatch(tag, 1, body).outcome
    ensures r.Received? && r.msg.PenUpdown? ==> r.msg.pendown.Flag?
    ensures !(tag == TagPenUpdown && |body| == 1) ==> r == LaptopDispatch(tag, body)
  {
    if tag == TagPenUpdown && |body| == 1 then Received(PenUpdown(Flag(body == [PenDownByte])))
    else LaptopDispatch(tag, body)
  }

  /**
   * `wait_for_bot` with the fixed dispatch: it reads exactly as much as the
   * original, and its outcome differs only for pen messages.
   */
  function LaptopReadFixed(magic: byte, s: seq<byte>): (r: Read)
    ensures r.consumed == LaptopRead(magic, s).consumed
    ensures r.outcome.Starved? <==> NoMagic(s, magic)
    ensures !(r.outcome.Received? && r.outcome.msg.PenUpdown?) ==> r.outcome == LaptopRead(magic, s).outcome
    ensures r.outcome.Received? && r.outcome.msg.PenUpdown? ==> r.outcome.msg.pendown.Flag?
  {
    match ScanHeader(s, magic)
    case NoFrame => Read(Starved, |s|)
    case ShortHeader => Read(Failed(StructError), |s|)
    case Header(tag, length, start) =>
      var body := Take(s[start..], length);
      Read(LaptopDispatchFixed(tag, body), start + |body|)
  }

  /** The fix leaves the short-header error as it was: struct.error, with everything read. */
  lemma LaptopFixedShortHeader(magic: byte, g: seq<byte>, t: seq<byte>)
    requires NoMagic(g, magic) && |t| < HeaderSize - 1
    ensures LaptopReadFixed(magic, g + [magic] + t) == Read(Failed(StructError), |g| + 1 + |t|)
  {
    LaptopShortHeader(magic, g, t);
  }

  /** With the fix, every message whose pen flag is a bool reads back unchanged. */
  lemma LaptopFixedRoundTrip(magic: byte, g: seq<byte>, m: Message, rest: seq<byte>)
    requires NoMagic(g, magic) && Encode(magic, m).Some?
    requires m.PenUpdown? ==> m.pendown.Flag?
    ensures var f := Encode(magic, m).value;
      LaptopReadFixed(magic, g + f + rest) == Read(Received(m), |g| + |f|)
  {
    var f := Encode(magic, m).value;
    LaptopReadsEncoded(magic, g, m, rest);
    ScanEncoded(g, magic, m, rest);
    BodyShapes(m);
  }

  class Laptop {
    const sock: Socket
    /** The package MAGIC, used both for sending and for reading replies. */
    const magic: byte

    constructor (sock: Socket, magic: byte)
      ensures this.sock == sock && this.magic == magic
    {
      this.sock := sock;
      this.magic := magic;
    }

    /** `send_current_pos`: writes exactly the CurrentPos frame. */
    method SendCurrentPos(x: Bits64, y: Bits64)
      modifies sock`outgoing
      ensures Encode(magic, CurrentPos(x, y)).Some?
      ensures sock.outgoing == old(sock.outgoing) + Encode(magic, CurrentPos(x, y)).value
    {
      sock.SendAll(Encode(magic, CurrentPos(x, y)).value);
    }

    /** `send_goto_pos`: writes exactly the GotoPos frame. */
    method SendGotoPos(x: Bits64, y: Bits64)
      modifies sock`outgoing
      ensures Encode(magic, GotoPos(x, y)).Some?
      ensures sock.outgoing == old(sock.outgoing) + Encode(magic, GotoPos(x, y)).value
    {
      sock.SendAll(Encode(magic, GotoPos(x, y)).value);
    }

    /** `send_pen_updown`: writes exactly the PenUpdown frame. */
    method SendPenUpdown(penDown: bool)
      modifies sock`outgoing
      ensures Encode(magic, PenUpdown(Flag(penDown))).Some?
      ensures sock.outgoing == old(sock.outgoing) + Encode(magic, PenUpdown(Flag(penDown))).value
    {
      sock.SendAll(Encode(magic, PenUpdown(Flag(penDown))).value);
    }

    /** `wait_for_bot`: the outcome and the bytes read are those of `LaptopRead`. */
    method WaitForBot() returns (r: Reception)
      requires sock.Valid()
      modifies sock`cursor
      ensures sock.Valid()
      ensures r == LaptopRead(magic, old(sock.Unread())).outcome
      ensures sock.cursor == old(sock.cursor) + LaptopRead(magic, old(sock.Unread())).consumed
    {
      ghost var s := sock.Unread();
      var h := ReadHeader(sock, magic);
      match h
      case NoFrame => return Starved;
      case ShortHeader => return Failed(StructError);
      case Header(tag, length, start) =>
        assert sock.Unread() == s[start..];
        var body := sock.Recv(length);
        if tag == TagCurrentPos || tag == TagGotoPos {
          if |body| != 16 {
            return Failed(StructError);
          }
          var x, y := UnpackDouble(body[..8]), UnpackDouble(body[8..]);
          r := Received(if tag == TagCurrentPos then CurrentPos(x, y) else GotoPos(x, y));
        } else if tag == TagPenUpdown {
          if |body| != 1 {
            return Failed(BadPenBody(|body|));
          }
          r := Received(PenUpdown(Raw(body)));
        } else if tag == TagOk {
          r := Received(Ok);
        } else if tag == TagError {
          r := Received(Error(body));
        } else {
          r := Failed(UnknownType(tag));
        }
    }
  }
}
