/** A buffered reader on a socket, as tokio's `BufReader`: what it has read ahead is lost with it. */
module Buffered {
  import opened Common

  /** The bytes up to and including the first line feed, or all of them when there is none. */
  function LineLength(s: seq<byte>): (n: nat)
    ensures n <= |s|
    ensures n == 0 <==> s == []
  {
    if s == [] then 0
    else if s[0] == LF then 1
    else 1 + LineLength(s[1..])
  }

  lemma {:induction false} LineShape(s: seq<byte>)
    requires s != []
    ensures NoLf(s[..LineLength(s) - 1])
    ensures s[LineLength(s) - 1] == LF || LineLength(s) == |s|
  {
    if s[0] != LF && |s| > 1 {
      LineShape(s[1..]);
      assert s[..LineLength(s) - 1] == [s[0]] + s[1..][..LineLength(s[1..]) - 1];
    }
  }

  predicate NoLf(s: seq<byte>) {
    forall j :: 0 <= j < |s| ==> s[j] != LF
  }

  /** Where the first line feed is, the line ends. */
  lemma {:induction false} LineIs(s: seq<byte>, n: nat)
    requires 0 < n <= |s| && NoLf(s[..n - 1]) && (s[n - 1] == LF || n == |s|)
    ensures LineLength(s) == n
  {
    if n > 1 {
      assert s[0] == s[..n - 1][0];
      assert s[1..][..n - 2] == s[..n - 1][1..];
      LineIs(s[1..], n - 1);
    }
  }

  /** The default capacity. */
  const CAPACITY: nat := 8192

  /** The sizes the socket's reads would like to have, by how many bytes were taken from it before. */
  type Schedule = nat -> nat

  /** What a read of at most `max` bytes gets. */
  function Given(plan: Schedule, taken: nat, max: nat, available: nat): (n: nat)
    requires max > 0 && available > 0
    ensures 1 <= n <= max && n <= available
    ensures plan(taken) <= 1 ==> n == 1
  {
    var wanted := if plan(taken) == 0 then 1 else plan(taken);
    var most := if max <= available then max else available;
    if wanted <= most then wanted else most
  }

  /** Every read before position `p` gets one byte. */
  ghost predicate Calm(plan: Schedule, p: int) {
    forall i: nat :: i < p ==> plan(i) <= 1
  }

  class BufReader {
    const plan: Schedule
    var buffer: seq<byte>
    var socket: seq<byte>
    /** How many bytes have come from the socket. */
    var taken: nat

    predicate Valid()
      reads this
    {
      |buffer| <= CAPACITY && |buffer| <= taken
    }

    function Unread(): seq<byte>
      reads this
    {
      buffer + socket
    }

    /** How many bytes have been handed out. */
    function Position(): int
      reads this
    {
      taken - |buffer|
    }

    constructor (plan: Schedule, buffer: seq<byte>, socket: seq<byte>)
      requires |buffer| <= CAPACITY
      ensures Valid() && this.plan == plan && this.buffer == buffer && this.socket == socket && Position() == 0
    {
      this.plan, this.buffer, this.socket, taken := plan, buffer, socket, |buffer|;
    }

    /** One read from the socket. */
    method ReadSocket(max: nat) returns (got: seq<byte>)
      requires max > 0 && socket != []
      modifies this
      ensures |got| == Given(plan, old(taken), max, |old(socket)|)
      ensures got + socket == old(socket) && taken == old(taken) + |got| && buffer == old(buffer)
    {
      var n := Given(plan, taken, max, |socket|);
      got := socket[..n];
      socket := socket[n..];
      taken := taken + n;
    }

    /** `fill_buf`: only an empty buffer is filled. */
    method Fill()
      requires Valid()
      modifies this
      ensures Valid() && Unread() == old(Unread()) && Position() == old(Position())
      ensures buffer == [] ==> Unread() == []
      ensures old(buffer) != [] ==> buffer == old(buffer)
      ensures old(buffer) == [] && buffer != [] ==> |buffer| == Given(plan, old(taken), CAPACITY, |old(socket)|)
    {
      if buffer == [] && socket != [] {
        buffer := ReadSocket(CAPACITY);
      }
    }

    /** `read`: a request of at least the capacity goes past an empty buffer. */
    method Read(max: nat) returns (got: seq<byte>)
      requires Valid()
      modifies this
      ensures Valid() && got + Unread() == old(Unread()) && |got| <= max
      ensures got == [] ==> max == 0 || old(Unread()) == []
      ensures Position() == old(Position()) + |got|
      ensures old(buffer) == [] && Calm(plan, Position()) ==> buffer == []
    {
      if max == 0 {
        return [];
      }
      if buffer == [] && max >= CAPACITY {
        if socket == [] {
          return [];
        }
        got := ReadSocket(max);
        return;
      }
      Fill();
      var n := if |buffer| <= max then |buffer| else max;
      got := buffer[..n];
      buffer := buffer[n..];
    }

    /** `read` until `n` bytes are there or the stream ends. */
    method ReadUpTo(n: nat) returns (got: seq<byte>)
      requires Valid()
      modifies this
      ensures Valid() && Position() == old(Position()) + |got|
      ensures |old(Unread())| >= n ==> got == old(Unread())[..n] && Unread() == old(Unread())[n..]
      ensures |old(Unread())| < n ==> got == old(Unread()) && Unread() == []
      ensures old(buffer) == [] && Calm(plan, Position()) ==> buffer == []
    {
      ghost var s := Unread();
      got := [];
      while |got| < n
        invariant Valid() && |got| <= n && got + Unread() == s
        invariant Position() == old(Position()) + |got|
        invariant old(buffer) == [] && Calm(plan, Position()) ==> buffer == []
        decreases n - |got|
      {
        var piece := Read(n - |got|);
        if piece == [] {
          assert Unread() == [] && got == s;
          return;
        }
        Assoc(got, piece, Unread());
        got := got + piece;
      }
      assert got == s[..n] && Unread() == s[n..];
    }

    /** One turn of `read_line`: the buffer, filled if need be, is taken up to and including a line feed. */
    method TakePiece() returns (piece: seq<byte>)
      requires Valid()
      modifies this
      ensures Valid() && Position() == old(Position()) + |piece| && piece + Unread() == old(Unread())
      ensures piece == [] ==> old(Unread()) == [] && buffer == [] && socket == []
      ensures piece != [] ==> |buffer| < CAPACITY && NoLf(piece[..|piece| - 1])
      ensures piece != [] && piece[|piece| - 1] != LF ==> buffer == []
      ensures piece != [] && old(buffer) == [] ==> ReadAhead(plan, Position(), |buffer|, |Unread()|)
    {
      ghost var start, unread := taken, |Unread()|;
      ghost var empty := buffer == [];
      Fill();
      var used := LineLength(buffer);
      piece := buffer[..used];
      if buffer != [] {
        LineShape(buffer);
        assert piece[..used - 1] == buffer[..used - 1];
      }
      if empty && piece != [] {
        AheadBy(plan, start, |buffer|, used, unread);
      }
      buffer := buffer[used..];
    }

    /** `read_line`. */
    method ReadLine() returns (line: seq<byte>)
      requires Valid()
      modifies this
      ensures Valid() && Position() == old(Position()) + |line|
      ensures line == old(Unread())[..LineLength(old(Unread()))]
      ensures Unread() == old(Unread())[LineLength(old(Unread()))..]
      ensures line != [] ==> |buffer| < CAPACITY
      ensures old(buffer) == [] && line != [] && Unread() != [] ==> ReadAhead(plan, Position(), |buffer|, |Unread()|)
    {
      ghost var s := Unread();
      line := [];
      while true
        invariant Valid() && line + Unread() == s && NoLf(line)
        invariant Position() == old(Position()) + |line|
        invariant line == [] ==> buffer == old(buffer)
        invariant line != [] ==> buffer == []
        decreases |Unread()|
      {
        var piece := TakePiece();
        if piece == [] {
          LineSoFar(s, line);
          return;
        }
        LineGrows(s, line, piece, Unread());
        line := line + piece;
        if piece[|piece| - 1] == LF {
          return;
        }
      }
    }
  }

  /** A piece behind a line without line feed ends it, or belongs to it. */
  lemma LineGrows(s: seq<byte>, line: seq<byte>, piece: seq<byte>, rest: seq<byte>)
    requires s == line + (piece + rest) && NoLf(line) && piece != [] && NoLf(piece[..|piece| - 1])
    ensures line + piece + rest == s
    ensures s[..|line + piece|] == line + piece && s[|line + piece|..] == rest
    ensures if piece[|piece| - 1] == LF then LineLength(s) == |line + piece| else NoLf(line + piece)
  {
    var grown := line + piece;
    Assoc(line, piece, rest);
    assert grown[..|grown| - 1] == line + piece[..|piece| - 1];
    if piece[|piece| - 1] == LF {
      assert s[..|grown| - 1] == grown[..|grown| - 1];
      assert s[|grown| - 1] == LF;
      LineIs(s, |grown|);
    }
  }

  lemma LineSoFar(s: seq<byte>, line: seq<byte>)
    requires line == s && NoLf(line)
    ensures LineLength(s) == |s| && s[..|s|] == line && s[|s|..] == []
  {
    if s != [] {
      LineIs(s, |s|);
    }
  }

  /**
   * After a line that ends at position `p`, with every earlier read a single byte: what is read ahead is what the read
   * at the line's last byte got beyond it.
   */
  ghost predicate ReadAhead(plan: Schedule, p: int, ahead: nat, unread: nat) {
    p > 0 && (Calm(plan, p - 1) ==> ahead + 1 == Given(plan, p - 1, CAPACITY, unread + 1))
  }

  lemma AheadBy(plan: Schedule, start: nat, got: nat, used: nat, available: nat)
    requires available > 0 && got == Given(plan, start, CAPACITY, available) && 1 <= used <= got
    ensures ReadAhead(plan, start + used, got - used, available - used)
  {
    assert used > 1 && Calm(plan, start + used - 1) ==> plan(start) <= 1;
  }
}
