/** The inner byte stream under the writer and the reader, with any amount of delay and any short I/O. */
module Transport {
  import opened ByteStrings

  /** The outcome of polling inner I/O: Pending in the source is Blocked here. */
  datatype IoPoll<+T> = Blocked | Done(value: T) | Failed

  /**
   * A one-way byte pipe. Each poll may do as little as the async I/O traits allow: report
   * Blocked, fail, or move any number of bytes from one up to what was asked for. An
   * `eager` pipe moves bytes whenever it can.
   */
  class Pipe {
    var wire: Bytes
    var closed: bool
    const eager: bool
    ghost var sent: Bytes
    ghost var taken: Bytes
    /** How many of the bytes sent have been flushed. */
    ghost var flushed: nat
    /** How many polls were answered Blocked or Failed. */
    ghost var refused: nat

    ghost predicate Valid()
      reads this
    {
      sent == taken + wire
    }

    constructor (eager: bool)
      ensures Valid() && wire == [] && !closed && sent == [] && taken == []
      ensures this.eager == eager && flushed == 0
    {
      wire, closed, this.eager := [], false, eager;
      sent, taken, flushed, refused := [], [], 0, 0;
    }

    method PollWrite(data: Bytes) returns (r: IoPoll<nat>)
      requires Valid() && data != []
      modifies this`wire, this`sent, this`refused
      ensures refused == old(refused) + (if r.Done? then 0 else 1)
      ensures Valid()
      ensures r.Done? ==> 1 <= r.value <= |data|
      ensures sent == old(sent) + (if r.Done? then data[..r.value] else [])
      ensures wire == old(wire) + (if r.Done? then data[..r.value] else [])
      ensures eager && !closed ==> r.Done?
    {
      if closed {
        refused := refused + 1;
        return Failed;
      }
      if !eager {
        if * {
          refused := refused + 1;
          return Blocked;
        } else if * {
          refused := refused + 1;
          return Failed;
        }
      }
      var n: nat :| 1 <= n <= |data|;
      wire, sent := wire + data[..n], sent + data[..n];
      return Done(n);
    }

    /** A Done answer without bytes means end of stream, unless no bytes were asked for. */
    method PollRead(space: nat) returns (r: IoPoll<Bytes>)
      requires Valid()
      modifies this`wire, this`taken, this`refused
      ensures refused == old(refused) + (if r.Done? then 0 else 1)
      ensures Valid()
      ensures r.Done? ==> |r.value| <= space && taken == old(taken) + r.value && old(wire) == r.value + wire
      ensures !r.Done? ==> taken == old(taken) && wire == old(wire)
      ensures r.Done? && r.value == [] && space != 0 ==> closed && wire == []
      ensures eager && (wire != [] || closed) ==> r.Done?
      ensures eager ==> !r.Failed?
    {
      if !eager {
        if * {
          refused := refused + 1;
          return Blocked;
        } else if * {
          refused := refused + 1;
          return Failed;
        }
      }
      if wire == [] || space == 0 {
        if closed || space == 0 {
          return Done([]);
        }
        refused := refused + 1;
        return Blocked;
      }
      var n: nat :| 1 <= n <= space && n <= |wire|;
      var got := wire[..n];
      wire, taken := wire[n..], taken + got;
      return Done(got);
    }

    method PollFlush() returns (r: IoPoll<()>)
      modifies this`flushed, this`refused
      ensures refused == old(refused) + (if r.Done? then 0 else 1)
      ensures flushed == if r.Done? then |sent| else old(flushed)
      ensures eager ==> r.Done?
    {
      if !eager {
        if * {
          refused := refused + 1;
          return Blocked;
        } else if * {
          refused := refused + 1;
          return Failed;
        }
      }
      flushed := |sent|;
      return Done(());
    }

    method PollShutdown() returns (r: IoPoll<()>)
      modifies this`closed, this`refused
      ensures refused == old(refused) + (if r.Done? then 0 else 1)
      ensures closed == (old(closed) || r.Done?)
      ensures eager ==> r.Done?
    {
      if !eager {
        if * {
          refused := refused + 1;
          return Blocked;
        } else if * {
          refused := refused + 1;
          return Failed;
        }
      }
      closed := true;
      return Done(());
    }
  }
}
