/** The buffered reader both protocols read from, and the socket behind it.
    The library that implements it is not part of this model; its behaviour is an assumption. */
module Stream {
  import opened Bytes

  /** How the network cuts up what the peer sends: how many bytes are there for a fill, when so
      many have not been taken off the wire yet. Nothing is assumed of it. */
  type Network = nat -> nat

  /** How many bytes a fill adds when there is room for so many and so many are on the wire. */
  function Added(network: Network, room: nat, left: nat): (n: nat)
    ensures n <= room && n <= left
    ensures n == 0 <==> room == 0 || left == 0
  {
    if room == 0 || left == 0 then 0
    else if network(left) == 0 then 1
    else Min(network(left), Min(room, left))
  }

  function Sum(pieces: seq<nat>): nat {
    if pieces == [] then 0 else pieces[0] + Sum(pieces[1..])
  }

  /** The network that delivers these pieces, one a fill. */
  function InPieces(pieces: seq<nat>, total: nat): Network {
    (left: nat) => PieceAt(pieces, total, left)
  }

  function PieceAt(pieces: seq<nat>, total: int, left: nat): nat {
    if pieces == [] then 0 else if left == total then pieces[0] else PieceAt(pieces[1..], total - pieces[0], left)
  }

  /** Any series of fills can occur. */
  lemma {:induction false} AnySeriesOccurs(pieces: seq<nat>, total: nat, k: nat, room: nat)
    requires Sum(pieces) <= total && k < |pieces| && (forall n :: n in pieces ==> n > 0) && pieces[k] <= room
    ensures Sum(pieces[..k]) + pieces[k] <= total
    ensures Added(InPieces(pieces, total), room, total - Sum(pieces[..k])) == pieces[k]
  {
    PieceComes(pieces, total, k);
    assert pieces[k] in pieces;
  }

  lemma {:induction false} PieceComes(pieces: seq<nat>, total: nat, k: nat)
    requires Sum(pieces) <= total && k < |pieces| && forall n :: n in pieces ==> n > 0
    ensures Sum(pieces[..k]) + pieces[k] <= total
    ensures PieceAt(pieces, total, total - Sum(pieces[..k])) == pieces[k]
    decreases k
  {
    assert pieces[0] in pieces;
    if k > 0 {
      assert forall n :: n in pieces[1..] ==> n in pieces;
      PieceComes(pieces[1..], total - pieces[0], k - 1);
      assert pieces[..k][1..] == pieces[1..][..k - 1] && pieces[..k][0] == pieces[0];
    }
  }

  /** All that the behaviour of a reader depends on: the bytes still to be read, and how many of
      them are buffered. */
  datatype RawSource = Source(capacity: nat, network: Network, pending: seq<byte>, buffered: nat) {
    predicate Valid() {
      buffered <= |pending| && buffered <= capacity
    }

    /** What the next fill adds. */
    function NextFill(): nat
      requires Valid()
    {
      Added(network, capacity - buffered, |pending| - buffered)
    }
  }

  type Source = s: RawSource | s.Valid() witness RawSource.Source(0, (_: nat) => 0, [], 0)

  function Refilled(s: Source): Source {
    s.(buffered := s.buffered + s.NextFill())
  }

  /** `wire` holds what the peer is still going to deliver before it closes its side. */
  class BufReader {
    const capacity: nat
    const network: Network
    var buffer: seq<byte>
    var wire: seq<byte>

    ghost predicate Valid()
      reads this
    {
      0 < capacity && |buffer| <= capacity
    }

    ghost function Pending(): seq<byte>
      reads this
    {
      buffer + wire
    }

    ghost function Ahead(): Source
      requires Valid()
      reads this
    {
      Source(capacity, network, Pending(), |buffer|)
    }

    constructor (capacity: nat, wire: seq<byte>, network: Network)
      requires 0 < capacity
      ensures Valid() && buffer == [] && this.wire == wire
      ensures Ahead() == Source(capacity, network, wire, 0)
    {
      this.capacity, this.network, this.buffer, this.wire := capacity, network, [], wire;
    }

    /** Appends some bytes of the wire, without dropping unconsumed ones; reports 0 at the end
        of the wire or when the buffer is full. */
    method Fill() returns (n: nat)
      requires Valid()
      modifies this
      ensures Valid()
      ensures n <= |old(wire)| && buffer == old(buffer) + old(wire)[..n] && wire == old(wire)[n..]
      ensures Pending() == old(Pending())
      ensures n == 0 <==> old(wire) == [] || |old(buffer)| == capacity
      ensures n == Added(network, capacity - |old(buffer)|, |old(wire)|)
    {
      n := Added(network, capacity - |buffer|, |wire|);
      assert wire == wire[..n] + wire[n..];
      buffer, wire := buffer + wire[..n], wire[n..];
    }

    method Consume(n: nat)
      requires Valid() && n <= |buffer|
      modifies this
      ensures Valid()
      ensures buffer == old(buffer)[n..] && wire == old(wire)
      ensures Pending() == old(Pending())[n..]
    {
      buffer := buffer[n..];
    }

    method Discard()
      requires Valid()
      modifies this
      ensures Valid()
      ensures buffer == [] && wire == old(wire)
      ensures Pending() == old(Pending())[|old(buffer)|..]
    {
      buffer := [];
    }

    /** `read`: at least one byte of what is buffered, if any is wanted. */
    method ReadBuffered(limit: nat) returns (data: seq<byte>)
      requires Valid() && buffer != []
      modifies this
      ensures Valid()
      ensures |data| <= limit && (data == [] <==> limit == 0)
      ensures data + Pending() == old(Pending())
    {
      if limit == 0 {
        return [];
      }
      var most := Min(limit, |buffer|);
      var n :| 1 <= n <= most;
      data, buffer := buffer[..n], buffer[n..];
    }

    /** `inner_mut().read`: straight from the socket, past the (empty) buffer. */
    method ReadSocket(limit: nat) returns (data: seq<byte>)
      requires Valid() && buffer == []
      modifies this
      ensures Valid()
      ensures |data| <= limit && (data == [] <==> limit == 0 || old(wire) == [])
      ensures data + Pending() == old(Pending())
    {
      if limit == 0 || wire == [] {
        return [];
      }
      var most := Min(limit, |wire|);
      var n :| 1 <= n <= most;
      data, wire := wire[..n], wire[n..];
    }

    /** `read_fully`: short only when the wire ends. */
    method ReadFully(limit: nat) returns (data: seq<byte>)
      requires Valid()
      modifies this
      ensures Valid()
      ensures data == old(Pending())[..Min(limit, |old(Pending())|)]
      ensures Pending() == old(Pending())[|data|..]
    {
      data := [];
      while |data| < limit
        invariant Valid()
        invariant |data| <= limit
        invariant data + Pending() == old(Pending())
        decreases limit - |data|, |wire|
      {
        if buffer == [] {
          var n := Fill();
          if n == 0 {
            break;
          }
        } else {
          var some := ReadBuffered(limit - |data|);
          data := data + some;
        }
      }
    }

    /** `try_read_type`, `read_u16_be`, ...: all of `n` bytes, or none when the wire ends first. */
    method ReadExact(n: nat) returns (data: Option<seq<byte>>)
      requires Valid()
      modifies this
      ensures Valid()
      ensures if n <= |old(Pending())|
              then data == Some(old(Pending())[..n]) && Pending() == old(Pending())[n..]
              else data == None && Pending() == []
    {
      var some := ReadFully(n);
      data := if |some| == n then Some(some) else None;
    }
  }

  /** The writing side of the connection; `sent` is what has been put on the wire. */
  class Socket {
    var sent: seq<byte>

    constructor ()
      ensures sent == []
    {
      sent := [];
    }

    /** `write_all_vectored`: writes everything, or reports a short count. */
    method WriteAllVectored(header: seq<byte>, payload: seq<byte>) returns (wrote: nat)
      modifies this
      ensures wrote <= |header| + |payload|
      ensures sent == old(sent) + (header + payload)[..wrote]
    {
      wrote :| 0 <= wrote <= |header| + |payload|;
      sent := sent + (header + payload)[..wrote];
    }
  }
}
