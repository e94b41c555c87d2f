/** What the servers see of a TCP connection. */
module Connections {
  import opened Bytes

  /** A connection: the reads still to come, each of at least one byte, and then end of file. */
  class Connection {
    var pending: seq<bytes>
    /** How many reads have been asked for, the one that met end of file included. */
    var asked: nat

    ghost predicate Valid()
      reads this
    {
      forall k :: 0 <= k < |pending| ==> pending[k] != []
    }

    ghost function Stream(): bytes
      reads this
    {
      Concat(pending)
    }

    constructor (reads_: seq<bytes>)
      requires forall k :: 0 <= k < |reads_| ==> reads_[k] != []
      ensures Valid() && pending == reads_ && asked == 0
    {
      pending, asked := reads_, 0;
    }

    /** The next read; empty at end of file only. */
    method Read() returns (chunk: bytes)
      requires Valid()
      modifies this
      ensures Valid() && chunk + Stream() == old(Stream())
      ensures chunk == [] ==> old(Stream()) == []
      ensures chunk != [] ==> |pending| < |old(pending)|
      ensures if old(pending) == [] then chunk == [] && pending == []
              else [chunk] + pending == old(pending)
      ensures asked == old(asked) + 1
    {
      asked := asked + 1;
      if |pending| == 0 {
        return [];
      }
      chunk := pending[0];
      pending := pending[1..];
    }
  }
}
