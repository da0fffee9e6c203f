/**
 * The robot's end of the connection: it receives position and pen commands
 * and answers with Ok or Error frames.
 */
module RobotSide {
  import opened Bytes
  import opened Wrappers
  import opened Wire
  import opened Streams
  import opened Framing
  import Utf8

  /** The robot compares incoming bytes against its own MAGIC, '%', not the package one. */
  const RobotMagic: byte := 0x25

  /**
   * The dispatch after the header: C, G and P read `length` body bytes (or
   * what is left); any other tag, K and E included, raises ValueError and
   * leaves the body unread. `consumed` counts body bytes only.
   */
  function RobotDispatch(tag: byte, length: nat, rest: seq<byte>): (d: Read)
    ensures !d.outcome.Starved?
    ensures d.consumed == if tag in {TagCurrentPos, TagGotoPos, TagPenUpdown} then |Take(rest, length)| else 0
    ensures d.outcome.Received? ==> TagOf(d.outcome.msg) == tag
    ensures d.outcome == Failed(UnknownType(tag)) <==> tag !in {TagCurrentPos, TagGotoPos, TagPenUpdown}
    ensures tag in {TagCurrentPos, TagGotoPos} && |Take(rest, length)| != 16 ==> d.outcome == Failed(StructError)
    ensures tag in {TagCurrentPos, TagGotoPos} && |Take(rest, length)| == 16 ==>
      d.outcome.Received? &&
      d.outcome.msg.x == UnpackDouble(Take(rest, length)[..8]) &&
      d.outcome.msg.y == UnpackDouble(Take(rest, length)[8..])
    ensures tag == TagPenUpdown ==>
      d.outcome.Received? && d.outcome.msg.pendown.Flag? &&
      (d.outcome.msg.pendown.down <==> Take(rest, length) == [PenDownByte])
  {
    if tag == TagCurrentPos || tag == TagGotoPos then
      var coords := Take(rest, length);
      if |coords| != 16 then Read(Failed(StructError), |coords|)
      else
        var x, y := UnpackDouble(coords[..8]), UnpackDouble(coords[8..]);
        Read(Received(if tag == TagCurrentPos then CurrentPos(x, y) else GotoPos(x, y)), 16)
    else if tag == TagPenUpdown then
      var updown := Take(rest, length);
      Read(Received(PenUpdown(Flag(updown == [PenDownByte]))), |updown|)
    else
      Read(Failed(UnknownType(tag)), 0)
  }

  /** `receive_message` on the unread bytes `s`: what it returns and how much it reads. */
  function RobotRead(s: seq<byte>): (r: Read)
    ensures r.consumed <= |s|
    ensures r.outcome.Starved? <==> NoMagic(s, RobotMagic)
  {
    match ScanHeader(s, RobotMagic)
    case NoFrame => Read(Starved, |s|)
    case ShortHeader => Read(Failed(StructError), |s|)
    case Header(tag, length, start) =>
      var d := RobotDispatch(tag, length, s[start..]);
      Read(d.outcome, start + d.consumed)
  }

  /**
   * A stream that ends fewer than 6 bytes after its first '%' fails with
   * struct.error (the length read is short), and all of it has been read.
   */
  lemma RobotShortHeader(g: seq<byte>, t: seq<byte>)
    requires NoMagic(g, RobotMagic) && |t| < HeaderSize - 1
    ensures RobotRead(g + [RobotMagic] + t) == Read(Failed(StructError), |g| + 1 + |t|)
  {
    FirstMagicAfterGarbage(g, [RobotMagic] + t, RobotMagic);
    assert g + [RobotMagic] + t == g + ([RobotMagic] + t);
  }

  /** Bytes without '%' in front of the stream are skipped and change nothing else. */
  lemma RobotSkipsGarbage(g: seq<byte>, s: seq<byte>)
    requires NoMagic(g, RobotMagic)
    ensures RobotRead(g + s) == Read(RobotRead(s).outcome, |g| + RobotRead(s).consumed)
  {
    ScanAfterGarbage(g, s, RobotMagic);
    match ScanHeader(s, RobotMagic)
    case NoFrame =>
    case ShortHeader =>
    case Header(tag, length, start) =>
      assert (g + s)[|g| + start..] == s[start..];
  }

  /** The dispatch of a command's own tag, length and body gives the command back. */
  lemma RobotDispatchesBody(m: Message, rest: seq<byte>)
    requires m.CurrentPos? || m.GotoPos? || m.PenUpdown?
    ensures RobotDispatch(TagOf(m), |Body(m)|, Body(m) + rest) ==
      Read(Received(if m.PenUpdown? then PenUpdown(Flag(Truthy(m.pendown))) else m), |Body(m)|)
  {
    var body := Body(m) + rest;
    assert Take(body, |Body(m)|) == Body(m);
    BodyShapes(m);
    if m.CurrentPos? || m.GotoPos? {
      assert Body(m)[..8] == PackDouble(m.x) && Body(m)[8..] == PackDouble(m.y);
    }
  }

  /** A complete header at the very front of the stream leads to the dispatch of what follows it. */
  lemma RobotReadsFrontFrame(tag: byte, body: seq<byte>, rest: seq<byte>)
    requires |body| < 0x1_0000_0000
    ensures var d := RobotDispatch(tag, |body|, body + rest);
      RobotRead([RobotMagic, tag] + PackU32(|body|) + body + rest) == Read(d.outcome, HeaderSize + d.consumed)
  {
    var s := [RobotMagic, tag] + PackU32(|body|) + body + rest;
    assert s[0] == RobotMagic;
    assert FirstMagic(s, RobotMagic) == 0;
    assert s[2..6] == PackU32(|body|);
    assert ScanHeader(s, RobotMagic) == Header(tag, |body|, HeaderSize);
    assert s[HeaderSize..] == body + rest;
  }

  /** An encoded command at the very front of the stream reads back as the command. */
  lemma RobotReadsEncodedFront(m: Message, rest: seq<byte>)
    requires m.CurrentPos? || m.GotoPos? || m.PenUpdown?
    requires Encode(RobotMagic, m).Some?
    ensures var f := Encode(RobotMagic, m).value;
      RobotRead(f + rest) == Read(Received(if m.PenUpdown? then PenUpdown(Flag(Truthy(m.pendown))) else m), |f|)
  {
    var f := Encode(RobotMagic, m).value;
    var body := Body(m);
    EncodeLayout(RobotMagic, m);
    assert f + rest == [RobotMagic, TagOf(m)] + PackU32(|body|) + body + rest;
    RobotReadsFrontFrame(TagOf(m), body, rest);
    RobotDispatchesBody(m, rest);
  }

  /**
   * A position or pen frame encoded with MAGIC '%' reads back, after any
   * garbage, as the same message, consuming exactly the garbage and the
   * frame. A pen message comes back with its flag as a bool.
   */
  lemma RobotReadsEncoded(g: seq<byte>, m: Message, rest: seq<byte>)
    requires NoMagic(g, RobotMagic)
    requires m.CurrentPos? || m.GotoPos? || m.PenUpdown?
    ensures Encode(RobotMagic, m).Some?
    ensures var f := Encode(RobotMagic, m).value;
      RobotRead(g + f + rest) ==
        Read(Received(if m.PenUpdown? then PenUpdown(Flag(Truthy(m.pendown))) else m), |g| + |f|)
  {
    OnlyHugeErrorsFailToEncode(RobotMagic, m);
    var f := Encode(RobotMagic, m).value;
    var s := f + rest;
    assert g + f + rest == g + s;
    RobotReadsEncodedFront(m, rest);
    RobotSkipsGarbage(g, s);
  }

  /** Ok and Error frames are refused after the 6 header bytes; their bodies stay unread. */
  lemma RobotRefusesReplies(g: seq<byte>, m: Message, rest: seq<byte>)
    requires NoMagic(g, RobotMagic)
    requires m.Ok? || m.Error?
    requires Encode(RobotMagic, m).Some?
    ensures RobotRead(g + Encode(RobotMagic, m).value + rest) ==
      Read(Failed(UnknownType(TagOf(m))), |g| + HeaderSize)
  {
    ScanEncoded(g, RobotMagic, m, rest);
  }

  /**
   * When the package MAGIC is not '%', the robot does not see a frame start
   * at the frame's first byte: it reads exactly what it would read from the
   * bytes after it.
   */
  lemma RobotIgnoresOtherMagic(magic: byte, m: Message, rest: seq<byte>)
    requires magic != RobotMagic && Encode(magic, m).Some?
    ensures var f := Encode(magic, m).value;
      RobotRead(f + rest) == Read(RobotRead(f[1..] + rest).outcome, 1 + RobotRead(f[1..] + rest).consumed)
  {
    var f := Encode(magic, m).value;
    assert f + rest == [magic] + (f[1..] + rest);
    RobotSkipsGarbage([magic], f[1..] + rest);
  }

  class Robot {
    const conn: Socket
    /** The package MAGIC, which the robot's replies are encoded with. */
    const packageMagic: byte

    constructor (conn: Socket, packageMagic: byte)
      ensures this.conn == conn && this.packageMagic == packageMagic
    {
      this.conn := conn;
      this.packageMagic := packageMagic;
    }

    /** `receive_message`: the outcome and the bytes read are those of `RobotRead`. */
    method ReceiveMessage() returns (r: Reception)
      requires conn.Valid()
      modifies conn`cursor
      ensures conn.Valid()
      ensures r == RobotRead(old(conn.Unread())).outcome
      ensures conn.cursor == old(conn.cursor) + RobotRead(old(conn.Unread())).consumed
    {
      ghost var s := conn.Unread();
      var h := ReadHeader(conn, RobotMagic);
      match h
      case NoFrame => return Starved;
      case ShortHeader => return Failed(StructError);
      case Header(tag, length, start) =>
        assert conn.Unread() == s[start..];
        if tag == TagCurrentPos || tag == TagGotoPos {
          var coords := conn.Recv(length);
          if |coords| != 16 {
            return Failed(StructError);
          }
          var x, y := UnpackDouble(coords[..8]), UnpackDouble(coords[8..]);
          r := Received(if tag == TagCurrentPos then CurrentPos(x, y) else GotoPos(x, y));
        } else if tag == TagPenUpdown {
          var updown := conn.Recv(length);
          r := Received(PenUpdown(Flag(updown == [PenDownByte])));
        } else {
          r := Failed(UnknownType(tag));
        }
    }

    /** `send_ok`: writes exactly the Ok frame. */
    method SendOk()
      modifies conn`outgoing
      ensures Encode(packageMagic, Ok).Some?
      ensures conn.outgoing == old(conn.outgoing) + Encode(packageMagic, Ok).value
    {
      conn.SendAll(Encode(packageMagic, Ok).value);
    }

    /**
     * `send_error`: writes the Error frame whose reason is the UTF-8 text, or
     * raises struct.error and writes nothing when that is 4 GiB or longer.
     */
    method SendError(text: string) returns (sent: bool)
      modifies conn`outgoing
      ensures sent <==> |Utf8.Encode(text)| < 0x1_0000_0000
      ensures sent ==> conn.outgoing == old(conn.outgoing) + Encode(packageMagic, Error(Utf8.Encode(text))).value
      ensures !sent ==> conn.outgoing == old(conn.outgoing)
    {
      var frame := Encode(packageMagic, Error(Utf8.Encode(text)));
      sent := frame.Some?;
      if sent {
        conn.SendAll(frame.value);
      }
    }
  }
}
