/**
 * What the robot's and the laptop's readers share: skipping to the first
 * MAGIC byte, then reading the one-byte tag and the u32 body length.
 */
module Framing {
  import opened Bytes
  import opened Wire
  import opened Streams

  /** Why a read did not produce a message. */
  datatype Fault =
    | StructError            // struct.unpack got the wrong number of bytes
    | UnknownType(tag: byte) // ValueError: a tag the reader does not handle
    | BadPenBody(size: nat)  // ValueError: a pen body that is not one byte

  datatype Reception =
    | Received(msg: Message)
    | Failed(fault: Fault)
    | Starved  // the stream ended before any MAGIC: the source's resync loop never returns

  /** The outcome of one read and the number of bytes it took from the stream. */
  datatype Read = Read(outcome: Reception, consumed: nat)

  /** Where the first MAGIC byte of `s` is, or |s| when there is none. */
  function FirstMagic(s: seq<byte>, magic: byte): (i: nat)
    ensures i <= |s|
    ensures i < |s| ==> s[i] == magic
    ensures forall k :: 0 <= k < i ==> s[k] != magic
  {
    if s == [] then 0
    else if s[0] == magic then 0
    else 1 + FirstMagic(s[1..], magic)
  }

  predicate NoMagic(s: seq<byte>, magic: byte) {
    forall k :: 0 <= k < |s| ==> s[k] != magic
  }

  /** Bytes without MAGIC in front of a stream only shift where its first MAGIC is. */
  lemma {:induction false} FirstMagicAfterGarbage(g: seq<byte>, s: seq<byte>, magic: byte)
    requires NoMagic(g, magic)
    ensures FirstMagic(g + s, magic) == |g| + FirstMagic(s, magic)
  {
    if g != [] {
      assert (g + s)[0] == g[0] != magic;
      assert (g + s)[1..] == g[1..] + s;
      assert FirstMagic(g + s, magic) == 1 + FirstMagic(g[1..] + s, magic);
      FirstMagicAfterGarbage(g[1..], s, magic);
    } else {
      assert g + s == s;
    }
  }

  /** What the resync loop and the two header reads find. */
  datatype Scan =
    | NoFrame                                       // no MAGIC at all
    | ShortHeader                                   // the stream ends inside the header
    | Header(tag: byte, length: nat, bodyStart: nat)

  function ScanHeader(s: seq<byte>, magic: byte): (r: Scan)
    ensures r.NoFrame? <==> NoMagic(s, magic)
    ensures r.ShortHeader? ==> |s| < FirstMagic(s, magic) + HeaderSize
    ensures r.Header? ==> var i := FirstMagic(s, magic);
      && r.bodyStart == i + HeaderSize <= |s|
      && s[i] == magic && r.tag == s[i + 1] && r.length == UnpackU32(s[i + 2..i + 6])
      && r.length < 0x1_0000_0000
  {
    var i := FirstMagic(s, magic);
    if i == |s| then NoFrame
    else if |s| < i + HeaderSize then ShortHeader
    else Header(s[i + 1], UnpackU32(s[i + 2..i + 6]), i + HeaderSize)
  }

  /** How many bytes the scan itself takes from the stream. */
  function ScanConsumed(s: seq<byte>, magic: byte): (n: nat)
    ensures n <= |s|
  {
    match ScanHeader(s, magic)
    case NoFrame => |s|
    case ShortHeader => |s|
    case Header(_, _, start) => start
  }

  /** Garbage in front of the stream changes nothing but the positions. */
  lemma ScanAfterGarbage(g: seq<byte>, s: seq<byte>, magic: byte)
    requires NoMagic(g, magic)
    ensures ScanConsumed(g + s, magic) == |g| + ScanConsumed(s, magic)
    ensures ScanHeader(g + s, magic) == match ScanHeader(s, magic)
      case Header(t, l, start) => Header(t, l, |g| + start)
      case other => other
  {
    FirstMagicAfterGarbage(g, s, magic);
    var i := FirstMagic(s, magic);
    if i < |s| && i + HeaderSize <= |s| {
      assert (g + s)[|g| + i + 2..|g| + i + 6] == s[i + 2..i + 6];
    }
  }

  /** A frame's header read back gives its tag and the length of the body after it. */
  lemma ScanEncoded(g: seq<byte>, magic: byte, m: Message, rest: seq<byte>)
    requires NoMagic(g, magic) && Encode(magic, m).Some?
    ensures var f := Encode(magic, m).value;
      ScanHeader(g + f + rest, magic) == Header(TagOf(m), |Body(m)|, |g| + HeaderSize)
  {
    var f := Encode(magic, m).value;
    ScanAfterGarbage(g, f + rest, magic);
    assert g + f + rest == g + (f + rest);
    assert (f + rest)[2..6] == f[2..6];
  }

  /**
   * The resync loop: reads one byte at a time until it is MAGIC. When the
   * stream ends first, `recv(1)` keeps returning b'' and the source loops for
   * ever; the model stops there and reports `found == false`.
   */
  method SkipToMagic(sock: Socket, magic: byte) returns (found: bool)
    requires sock.Valid()
    modifies sock`cursor
    ensures sock.Valid()
    ensures found <==> !NoMagic(old(sock.Unread()), magic)
    ensures found ==> sock.cursor == old(sock.cursor) + FirstMagic(old(sock.Unread()), magic) + 1
    ensures !found ==> sock.cursor == |sock.incoming|
  {
    ghost var s := sock.Unread();
    var start := sock.cursor;
    var b := sock.Recv(1);
    while b != [magic] && b != []
      invariant sock.Valid() && sock.incoming == old(sock.incoming)
      invariant start <= sock.cursor - |b| && |b| <= 1
      invariant |b| == 1 ==> b == [sock.incoming[sock.cursor - 1]]
      invariant b == [] ==> sock.cursor == |sock.incoming|
      invariant forall k :: start <= k < sock.cursor - |b| ==> sock.incoming[k] != magic
      decreases |sock.incoming| - sock.cursor + |b|
    {
      b := sock.Recv(1);
    }
    assert forall k :: 0 <= k < |s| ==> s[k] == sock.incoming[start + k];
    found := b != [];
    if found {
      ghost var i := sock.cursor - 1 - start;
      assert s[i] == magic;
      assert FirstMagic(s, magic) == i;
    }
  }

  /**
   * The resync loop and the two header reads, on a live connection: the
   * result is the scan of what was unread, and exactly the bytes the scan
   * accounts for have been taken.
   */
  method ReadHeader(sock: Socket, magic: byte) returns (h: Scan)
    requires sock.Valid()
    modifies sock`cursor
    ensures sock.Valid()
    ensures h == ScanHeader(old(sock.Unread()), magic)
    ensures sock.cursor == old(sock.cursor) + ScanConsumed(old(sock.Unread()), magic)
  {
    ghost var s := sock.Unread();
    var start := sock.cursor;
    var found := SkipToMagic(sock, magic);
    if !found {
      return NoFrame;
    }
    ghost var i := FirstMagic(s, magic);
    var tag := sock.Recv(1);
    var packed := sock.Recv(4);
    if |packed| != 4 {
      return ShortHeader;
    }
    assert s[i + 1] == tag[0];
    assert s[i + 2..i + 6] == sock.incoming[start + i + 2..start + i + 6] == packed;
    h := Header(tag[0], UnpackU32(packed), sock.cursor - start);
  }
}
