/** The read side of a socket: the peer's bytes, handed out in pieces of any size. */
module Net {
  import opened Common

  class ByteStream {
    /** What the peer has sent and nobody has read yet. */
    var unread: seq<byte>

    constructor (data: seq<byte>)
      ensures unread == data
    {
      unread := data;
    }

    /** One `read` into a buffer of `max` bytes: any non-empty piece that fits, or nothing at end of stream. */
    method Read(max: nat) returns (got: seq<byte>)
      modifies this
      ensures got + unread == old(unread)
      ensures |got| <= max
      ensures got == [] ==> max == 0 || old(unread) == []
    {
      if max == 0 || unread == [] {
        got := [];
      } else {
        var n :| 1 <= n <= max && n <= |unread|;
        got := unread[..n];
        unread := unread[n..];
      }
    }

    /** `read_exact`: short reads are repeated; None when the stream ends first. */
    method ReadExact(n: nat) returns (got: Option<seq<byte>>)
      modifies this
      ensures |old(unread)| < n ==> got.None? && unread == []
      ensures |old(unread)| >= n ==> got == Some(old(unread)[..n]) && unread == old(unread)[n..]
    {
      var buf: seq<byte> := [];
      while |buf| < n
        invariant |buf| <= n
        invariant buf + unread == old(unread)
        decreases n - |buf|
      {
        var piece := Read(n - |buf|);
        if piece == [] {
          return None;
        }
        buf := buf + piece;
      }
      assert old(unread)[..n] == buf;
      got := Some(buf);
    }
  }
}
