/**
 * The wire messages exchanged between the laptop and the robot, and the
 * frame each one is written as:
 *
 *   MAGIC (1 byte) | type tag (1 byte) | body length (u32) | body
 *
 * The package-wide MAGIC byte is defined in `network/__init__`, which is not
 * modelled, so every encoder takes it as the parameter `magic`.
 */
module Wire {
  import opened Bytes
  import opened Wrappers

  const TagCurrentPos: byte := 0x43  // 'C'
  const TagGotoPos: byte := 0x47     // 'G'
  const TagPenUpdown: byte := 0x50   // 'P'
  const TagOk: byte := 0x4B          // 'K'
  const TagError: byte := 0x45       // 'E'

  const PenDownByte: byte := 0x64    // 'd'
  const PenUpByte: byte := 0x75      // 'u'

  /** Size of a frame header for a one-byte MAGIC. */
  const HeaderSize: nat := 6

  /**
   * The `pendown` attribute of a pen message. Senders store a bool; the
   * laptop's reader stores the raw body bytes instead, and the encoder only
   * tests the attribute for truth.
   */
  datatype PenValue = Flag(down: bool) | Raw(bytes: seq<byte>)

  /** Truth value of the attribute: a bool is itself, a byte string is true when non-empty. */
  predicate Truthy(p: PenValue) {
    match p
    case Flag(b) => b
    case Raw(bs) => bs != []
  }

  datatype Message =
    | CurrentPos(x: Bits64, y: Bits64)
    | GotoPos(x: Bits64, y: Bits64)
    | PenUpdown(pendown: PenValue)
    | Ok
    | Error(reason: seq<byte>)

  /** The type tag every message of a kind is constructed with. */
  function TagOf(m: Message): byte {
    match m
    case CurrentPos(_, _) => TagCurrentPos
    case GotoPos(_, _) => TagGotoPos
    case PenUpdown(_) => TagPenUpdown
    case Ok => TagOk
    case Error(_) => TagError
  }

  /**
   * The check made when any message is constructed: a known type tag gets
   * its long name, any other tag raises ValueError (None).
   */
  function LongType(msgType: seq<byte>): (r: Option<string>)
    ensures forall m: Message :: msgType == [TagOf(m)] ==> r.Some?
    ensures r.Some? ==> |msgType| == 1
  {
    if msgType == [TagCurrentPos] then Some("current_pos")
    else if msgType == [TagGotoPos] then Some("goto_pos")
    else if msgType == [TagPenUpdown] then Some("pen_updown")
    else if msgType == [TagOk] then Some("ok")
    else if msgType == [TagError] then Some("error")
    else None
  }

  /** Construction succeeds for exactly the five tags that the message kinds use. */
  lemma LongTypeAcceptsExactlyKindTags(msgType: seq<byte>)
    ensures LongType(msgType).Some? <==> exists m: Message :: msgType == [TagOf(m)]
  {
    if msgType == [TagCurrentPos] { assert msgType == [TagOf(CurrentPos(0, 0))]; }
    else if msgType == [TagGotoPos] { assert msgType == [TagOf(GotoPos(0, 0))]; }
    else if msgType == [TagPenUpdown] { assert msgType == [TagOf(PenUpdown(Flag(true)))]; }
    else if msgType == [TagOk] { assert msgType == [TagOf(Ok)]; }
    else if msgType == [TagError] { assert msgType == [TagOf(Error([]))]; }
  }

  /** Different kinds never share a tag, so the tag alone tells the kind. */
  lemma TagsIdentifyKinds(m1: Message, m2: Message)
    requires TagOf(m1) == TagOf(m2)
    ensures m1.CurrentPos? == m2.CurrentPos? && m1.GotoPos? == m2.GotoPos?
    ensures m1.PenUpdown? == m2.PenUpdown? && m1.Ok? == m2.Ok? && m1.Error? == m2.Error?
  {
  }

  /** The body `to_str` writes after the header. */
  function Body(m: Message): (b: seq<byte>)
    ensures m.CurrentPos? || m.GotoPos? ==> |b| == 16
    ensures m.PenUpdown? ==> |b| == 1
    ensures !m.Error? ==> |b| <= 16
  {
    match m
    case CurrentPos(x, y) => PackDouble(x) + PackDouble(y)
    case GotoPos(x, y) => PackDouble(x) + PackDouble(y)
    case PenUpdown(p) => if Truthy(p) then [PenDownByte] else [PenUpByte]
    case Ok => []
    case Error(reason) => reason
  }

  /**
   * `build_header`: MAGIC, the tag, then the length packed as u32. Packing a
   * length of 2^32 or more raises struct.error (None).
   */
  function BuildHeader(magic: byte, msgType: byte, length: nat): (h: Option<seq<byte>>)
    ensures h.Some? <==> length < 0x1_0000_0000
    ensures h.Some? ==> |h.value| == HeaderSize && h.value[0] == magic && h.value[1] == msgType
    ensures h.Some? ==> UnpackU32(h.value[2..6]) == length
  {
    if length < 0x1_0000_0000 then
      var h := [magic, msgType] + PackU32(length);
      assert h[2..6] == PackU32(length);
      Some(h)
    else None
  }

  /**
   * `to_str`: the header followed by the body. The frame exists exactly when
   * the body length fits the u32 field, starts with MAGIC and the message's
   * own tag, and its length field counts exactly the bytes after the header.
   */
  function Encode(magic: byte, m: Message): (f: Option<seq<byte>>)
    ensures f.Some? <==> |Body(m)| < 0x1_0000_0000
    ensures f.Some? ==> |f.value| >= HeaderSize && f.value[0] == magic && f.value[1] == TagOf(m)
    ensures f.Some? ==> UnpackU32(f.value[2..6]) == |f.value| - HeaderSize
    ensures f.Some? ==> f.value[HeaderSize..] == Body(m)
  {
    match BuildHeader(magic, TagOf(m), |Body(m)|)
    case None => None
    case Some(h) => Some(h + Body(m))
  }

  /** A frame is its header, tag, the length of its body as a u32, then the body. */
  lemma EncodeLayout(magic: byte, m: Message)
    requires Encode(magic, m).Some?
    ensures Encode(magic, m).value == [magic, TagOf(m)] + PackU32(|Body(m)|) + Body(m)
  {
    var f := Encode(magic, m).value;
    UnpackPackU32(f[2..6]);
    assert f == f[..2] + f[2..6] + f[HeaderSize..];
  }

  /** Only an Error message whose reason is 4 GiB or longer fails to encode. */
  lemma OnlyHugeErrorsFailToEncode(magic: byte, m: Message)
    ensures Encode(magic, m).None? <==> m.Error? && |m.reason| >= 0x1_0000_0000
  {
  }

  /**
   * The body of each kind: two 8-byte doubles with x first for the position
   * messages, one byte that is 'd' exactly when the pen flag is true, nothing
   * for Ok, and the reason verbatim for Error.
   */
  lemma BodyShapes(m: Message)
    ensures (m.CurrentPos? || m.GotoPos?) ==>
      |Body(m)| == 16 && UnpackDouble(Body(m)[..8]) == m.x && UnpackDouble(Body(m)[8..]) == m.y
    ensures m.PenUpdown? ==> |Body(m)| == 1 && (Body(m) == [PenDownByte] <==> Truthy(m.pendown))
    ensures m.Ok? ==> Body(m) == []
    ensures m.Error? ==> Body(m) == m.reason
  {
    if m.CurrentPos? || m.GotoPos? {
      var b := Body(m);
      assert b[..8] == PackDouble(m.x);
      assert b[8..] == PackDouble(m.y);
    }
  }

  /** The Ok frame is a header alone, with length field 0. */
  lemma OkFrameIsHeaderOnly(magic: byte)
    ensures Encode(magic, Ok).Some?
    ensures |Encode(magic, Ok).value| == HeaderSize
    ensures UnpackU32(Encode(magic, Ok).value[2..6]) == 0
  {
  }
}
