/**
 * One end of a reliable byte-stream connection. `incoming` is everything the
 * peer will ever send, `cursor` how much of it has been received so far, and
 * `outgoing` everything sent. A read returns all requested bytes when they
 * exist, otherwise whatever is left; at the end of the stream it returns
 * nothing, as `recv` does after the peer has closed.
 */
module Streams {
  import opened Bytes

  class Socket {
    var incoming: seq<byte>
    var cursor: nat
    var outgoing: seq<byte>

    ghost predicate Valid()
      reads this
    {
      cursor <= |incoming|
    }

    /** The bytes not yet received. */
    ghost function Unread(): seq<byte>
      reads this
      requires Valid()
    {
      incoming[cursor..]
    }

    constructor (incoming: seq<byte>)
      ensures Valid()
      ensures this.incoming == incoming && cursor == 0 && outgoing == []
    {
      this.incoming := incoming;
      cursor := 0;
      outgoing := [];
    }

    /** `recv(n)` */
    method Recv(n: nat) returns (chunk: seq<byte>)
      requires Valid()
      modifies this`cursor
      ensures Valid()
      ensures chunk == Take(old(Unread()), n)
      ensures cursor == old(cursor) + |chunk|
      ensures chunk == incoming[old(cursor)..cursor]
    {
      chunk := Take(incoming[cursor..], n);
      cursor := cursor + |chunk|;
    }

    /** `sendall(data)` */
    method SendAll(data: seq<byte>)
      modifies this`outgoing
      ensures outgoing == old(outgoing) + data
    {
      outgoing := outgoing + data;
    }
  }
}
