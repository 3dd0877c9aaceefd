/** A writer and a reader at the two ends of one pipe, polled in any order. */
module Session {
  import opened ByteStrings
  import opened HelperBuffer
  import opened Framing
  import opened Transport
  import W = Writer
  import R = Reader

  /** A poll that some task makes on one of the two ends. */
  datatype Call = Write(buf: Bytes) | Flush | Shutdown | Read(n: nat) | FillBuf | Consume(n: nat)

  /** How a call is answered; Refused is Pending or an I/O error, and after Stopped there is no next call. */
  datatype Answer = Took(n: nat) | Finished | Gave(data: Bytes) | Shown | Refused | Stopped

  /** The answer is one that the call can have. */
  predicate Answers(c: Call, a: Answer) {
    match c
    case Write(buf) => a.Refused? || a.Stopped? || (a.Took? && a.n <= |buf| && (buf != [] ==> a.n != 0))
    case Flush => a.Finished? || a.Refused? || a.Stopped?
    case Shutdown => a.Finished? || a.Refused? || a.Stopped?
    case Read(n) => a.Refused? || a.Stopped? || (a.Gave? && |a.data| <= n)
    case FillBuf => a.Shown? || a.Refused? || a.Stopped?
    case Consume(n) => a.Gave? && |a.data| <= n
  }

  /** What a call has made the writer accept. */
  function TakenIn(c: Call, a: Answer): Bytes {
    if c.Write? && a.Took? && a.n <= |c.buf| then c.buf[..a.n] else []
  }

  /** What a call has had from the reader. */
  function HandedOut(c: Call, a: Answer): Bytes {
    if (c.Read? || c.Consume?) && a.Gave? then a.data else []
  }

  function AllTakenIn(calls: seq<Call>, answers: seq<Answer>): Bytes
    requires |answers| <= |calls|
    decreases |answers|
  {
    if answers == [] then []
    else var n := |answers| - 1; AllTakenIn(calls, answers[..n]) + TakenIn(calls[n], answers[n])
  }

  function AllHandedOut(calls: seq<Call>, answers: seq<Answer>): Bytes
    requires |answers| <= |calls|
    decreases |answers|
  {
    if answers == [] then []
    else var n := |answers| - 1; AllHandedOut(calls, answers[..n]) + HandedOut(calls[n], answers[n])
  }

  function Refusals(answers: seq<Answer>): nat {
    if answers == [] then 0
    else Refusals(answers[..|answers| - 1]) + if answers[|answers| - 1] == Refused then 1 else 0
  }

  lemma OneMoreAnswer(calls: seq<Call>, answers: seq<Answer>, a: Answer, x: Bytes, y: Bytes)
    requires |answers| < |calls|
    ensures var more := answers + [a];
            var c := calls[|answers|];
            && x + AllTakenIn(calls, more) == x + AllTakenIn(calls, answers) + TakenIn(c, a)
            && y + AllHandedOut(calls, more) == y + AllHandedOut(calls, answers) + HandedOut(c, a)
            && Refusals(more) == Refusals(answers) + if a == Refused then 1 else 0
  {
    hide TakenIn, HandedOut;
    var more, c := answers + [a], calls[|answers|];
    assert more[..|answers|] == answers;
    Regroup(x, AllTakenIn(calls, answers), TakenIn(c, a));
    Regroup(y, AllHandedOut(calls, answers), HandedOut(c, a));
  }

  /** A clean stream parses without failure. */
  lemma {:induction false} CleanParses(a: Aead, k: nat, d: Bytes)
    requires Clean(a, k, d)
    ensures !Parse(a, k, d).failed
    decreases |d|
  {
    if Peek(d).Some? {
      var c := Peek(d).value;
      assert c == d[4..4 + FromBigEndian(d[..4])];
      CleanParses(a, k + 1, d[4 + |c|..]);
    }
  }

  lemma {:induction false} StreamAppend(a: Aead, k: nat, ps: seq<Bytes>, qs: seq<Bytes>)
    ensures Stream(a, k, ps + qs) == Stream(a, k, ps) + Stream(a, k + |ps|, qs)
    decreases |qs|
  {
    hide Frame;
    if qs == [] {
      assert ps + qs == ps;
    } else {
      var ps1 := ps + [qs[0]];
      assert ps + qs == ps1 + qs[1..];
      StreamAppend(a, k, ps1, qs[1..]);
      StreamSnoc(a, k, ps, qs[0]);
    }
  }

  /** Frames that together are no longer than the last of them are just that one. */
  lemma ShortStream(a: Aead, k: nat, rest: seq<Bytes>, sealed: seq<Bytes>)
    requires a.Lawful() && AllSmall(sealed) && k <= |sealed| && rest == sealed[k..] && rest != []
    requires W.EndsLastFrame(a, sealed, Stream(a, k, rest))
    ensures |rest| == 1
  {
    hide BigEndian, Stream;
    var m := |rest| - 1;
    assert rest == rest[..m] + [rest[m]];
    StreamSnoc(a, k, rest[..m], rest[m]);
    StreamLength(a, k, rest[..m]);
    assert rest[m] == sealed[|sealed| - 1];
    assert |Stream(a, k, rest)| == |Stream(a, k, rest[..m])| + |rest[m]| + 20;
  }

  lemma EndOnBoundary(a: Aead, sealed: seq<Bytes>, n: nat, sent: Bytes, unsent: Bytes)
    requires a.Lawful() && AllSmall(sealed) && n <= |sealed|
    requires sent + unsent == Stream(a, 0, sealed) && unsent == Stream(a, n, sealed[n..])
    requires W.EndsLastFrame(a, sealed, unsent)
    ensures |sealed| - 1 <= n && sent == Stream(a, 0, sealed[..n])
    ensures unsent == [] ==> n == |sealed|
  {
    hide a.Lawful, W.EndsLastFrame, Frame;
    assert sealed == sealed[..n] + sealed[n..];
    StreamAppend(a, 0, sealed[..n], sealed[n..]);
    assert sent == (sent + unsent)[..|sent|];
    if n < |sealed| {
      ShortStream(a, n, sealed[n..], sealed);
      PeekFrame(a, n, sealed[n], Stream(a, n + 1, sealed[n..][1..]));
    }
  }

  lemma SamePrefix(before: Bytes, out: Bytes, msg: Bytes)
    requires before + out <= before + msg && |out| == |msg|
    ensures out == msg
  {
    assert out == (before + out)[|before|..] && msg == (before + msg)[|before|..];
  }

  lemma TakeMore(acc: Bytes, msg: Bytes, i: nat, n: nat)
    requires i + n <= |msg|
    ensures acc + msg[..i] + msg[i..][..n] == acc + msg[..i + n]
  {
    assert msg[..i] + msg[i..][..n] == msg[..i + n];
  }

  /** The books of the two ends balance. */
  lemma Balance(a: Aead, sealed: seq<Bytes>, frames: seq<Bytes>, head: Bytes, incoming: Bytes, sent: Bytes, unsent: Bytes)
    requires a.Lawful() && AllSmall(sealed) && |sealed| <= a.limit
    requires sent + unsent == Stream(a, 0, sealed)
    requires Decodes(a, 0, head, frames) && sent == head + incoming
    ensures |frames| <= |sealed| && frames == sealed[..|frames|]
    ensures incoming + unsent == Stream(a, |frames|, sealed[|frames|..])
    ensures Flat(sealed) == Flat(frames) + Flat(sealed[|frames|..])
    ensures Clean(a, |frames|, incoming)
  {
    hide a.Lawful, Stream, Flat, Clean, Decodes;
    Regroup(head, incoming, unsent);
    DecodedPrefixOfStream(a, 0, head, frames, incoming + unsent, sealed);
    FlatSplit(sealed, |frames|);
    PrefixIsClean(a, |frames|, sealed[|frames|..], incoming, unsent);
  }

  lemma Regroup(x: Bytes, y: Bytes, z: Bytes)
    ensures x + y + z == x + (y + z)
  {
  }

  lemma {:induction false} FlatSplit(ps: seq<Bytes>, n: nat)
    requires n <= |ps|
    ensures Flat(ps) == Flat(ps[..n]) + Flat(ps[n..])
  {
    hide Flat;
    assert ps == ps[..n] + ps[n..];
    FlatAppend(ps[..n], ps[n..]);
  }

  lemma {:induction false} PrefixIsClean(a: Aead, k: nat, ps: seq<Bytes>, d: Bytes, w: Bytes)
    requires a.Lawful() && AllSmall(ps) && k + |ps| <= a.limit && d + w == Stream(a, k, ps)
    ensures Clean(a, k, d)
  {
    hide a.Lawful, Stream, Clean;
    assert d <= d + w;
    StreamIsClean(a, k, ps, d);
  }

  /**
   * How a call that polls to the end finishes: as asked; after too many times Pending; with
   * an I/O error; with the counter used up; at the end of the stream; or never.
   */
  datatype Finish = Complete | GaveUp | IoFailed | CounterUsedUp | AtEnd | Never

  class Link {
    const aead: Aead
    const pipe: Pipe
    const writer: W.EncryptedWriter
    const reader: R.EncryptedReader

    ghost predicate Valid()
      reads this, pipe, writer, writer.writer, writer.bytes
      reads reader, reader.reader, reader.cleartext, reader.ciphertext
    {
      && writer.Valid() && reader.Valid()
      && writer.writer == pipe && reader.reader == pipe
      && writer.aead == aead && reader.aead == aead
      && writer.bytes != reader.cleartext && writer.bytes != reader.ciphertext
    }

    /** The plaintexts of the frames sealed and not yet opened. */
    ghost function InFlight(): seq<Bytes>
      requires |reader.frames| <= |writer.sealed|
      reads this, writer, reader
    {
      writer.sealed[|reader.frames|..]
    }

    constructor (aead: Aead, eager: bool)
      requires aead.Lawful()
      ensures Valid() && this.aead == aead && pipe.eager == eager && !pipe.closed
      ensures writer.accepted == [] && reader.delivered == [] && writer.position == 0 && writer.Unsealed() == []
      ensures reader.cleartext.Data() == [] && reader.ciphertext.Data() == []
      ensures fresh(pipe) && fresh(writer) && fresh(writer.bytes)
      ensures fresh(reader) && fresh(reader.cleartext) && fresh(reader.ciphertext)
    {
      var p := new Pipe(eager);
      this.aead, pipe := aead, p;
      writer := new W.EncryptedWriter(aead, p);
      reader := new R.EncryptedReader(aead, p);
    }

    /**
     * Conservation. What the writer accepted is, in order: the bytes delivered, the
     * buffered cleartext, the plaintext of the frames in flight and the unsealed bytes.
     * The frames opened are the frames sealed first, under the same counters, and the bytes
     * buffered, on the wire and unsent are exactly the remaining frames.
     */
    lemma Conservation()
      requires Valid()
      ensures reader.position == |reader.frames| <= |writer.sealed| == writer.position
      ensures reader.frames == writer.sealed[..|reader.frames|]
      ensures reader.ciphertext.Data() + pipe.wire + writer.Unsent() == Stream(aead, reader.position, InFlight())
      ensures reader.delivered + reader.cleartext.Data() + Flat(InFlight()) + writer.Unsealed() == writer.accepted
      ensures reader.CleanInput()
    {
      hide aead.Lawful, W.Ledger, R.Ledger, W.EndsLastFrame, Stream, Flat, Clean, Decodes;
      writer.Books();
      reader.Books();
      Balance(aead, writer.sealed, reader.frames, reader.head, reader.Incoming(), pipe.sent, writer.Unsent());
    }

    /** Everything a writer ever puts on the pipe parses without failure. */
    lemma SentBytesParse()
      requires Valid()
      ensures !Parse(aead, 0, pipe.sent).failed
    {
      hide aead.Lawful, Stream, Flat, Decodes, Parse;
      reader.Books();
      Conservation();
      DecodesThenParse(aead, 0, reader.head, reader.frames, reader.Incoming());
      CleanParses(aead, reader.position, reader.Incoming());
    }

    /** A reader that has emptied the pipe and can open no more has everything the writer sent. */
    lemma NothingWithheld()
      requires Valid() && pipe.wire == [] && writer.Unsent() == []
      requires reader.cleartext.Data() == [] && reader.Settled()
      ensures reader.delivered + writer.Unsealed() == writer.accepted
    {
      hide aead.Lawful, Clean, Peek;
      Conservation();
      reader.CleanFits();
      assert reader.ciphertext.Data() == Stream(aead, reader.position, InFlight());
      if InFlight() != [] {
        PeekFrame(aead, reader.position, InFlight()[0], Stream(aead, reader.position + 1, InFlight()[1..]));
        assert false;
      }
    }

    /**
     * No false end: when the pipe and both buffers are empty, the stream stopped between
     * two frames and the caller has all of it; at most one whole frame was never sent.
     */
    lemma EndIsOnFrameBoundary()
      requires Valid() && pipe.wire == []
      requires reader.cleartext.Data() == [] && reader.ciphertext.Data() == []
      ensures |writer.sealed| - 1 <= |reader.frames| <= |writer.sealed|
      ensures pipe.sent == Stream(aead, 0, reader.frames) && reader.delivered == Flat(reader.frames)
      ensures writer.Unsent() == [] ==> reader.delivered + writer.Unsealed() == writer.accepted
    {
      hide aead.Lawful, W.Ledger, R.Ledger, W.EndsLastFrame, Clean, Stream, Peek, Decodes;
      Conservation();
      writer.Books();
      reader.Books();
      EndOnBoundary(aead, writer.sealed, |reader.frames|, pipe.sent, writer.Unsent());
    }

    /** A poll of the writing end; stopped when the counter is used up. */
    method StepWriter(c: Call) returns (a: Answer)
      requires Valid() && (c.Write? || c.Flush? || c.Shutdown?)
      modifies writer, writer.bytes, pipe
      ensures Answers(c, a)
      ensures a != Stopped ==> Valid() && writer.accepted == old(writer.accepted) + TakenIn(c, a)
      ensures a == Stopped ==> writer.position == aead.limit
      ensures a == Finished ==> Valid() && Flushed() && (c.Shutdown? ==> pipe.closed)
      ensures pipe.refused == old(pipe.refused) + if a == Refused then 1 else 0
    {
      hide aead.Lawful, W.Ledger, R.Ledger, W.EndsLastFrame, Clean, Flat, Stream;
      match c {
        case Write(buf) =>
          var w := writer.PollWrite(buf);
          a := if w.Ready? then Took(w.value) else if w == W.SealError then Stopped else Refused;
        case Flush =>
          var w := writer.PollFlush();
          a := if w.Ready? then Finished else if w == W.SealError then Stopped else Refused;
        case Shutdown =>
          var w := writer.PollShutdown();
          a := if w.Ready? then Finished else if w == W.SealError then Stopped else Refused;
      }
    }

    /** A poll of the reading end; stopped when it never returns, which only happens once the pipe is closed. */
    method StepReader(c: Call) returns (a: Answer)
      requires Valid() && (c.Read? || c.FillBuf? || c.Consume?)
      modifies reader, reader.cleartext, reader.ciphertext, pipe
      ensures Valid() && Answers(c, a) && reader.delivered == old(reader.delivered) + HandedOut(c, a)
      ensures a == Stopped ==> pipe.closed
      ensures a == Refused ==> pipe.refused == old(pipe.refused) + 1
      ensures old(pipe.refused) <= pipe.refused
      ensures c.Read? && c.n != 0 && a == Gave([]) ==> pipe.closed && pipe.wire == []
    {
      hide reader.Promised, reader.Withheld, reader.NothingLeft, aead.Lawful, W.Ledger, R.Ledger, W.EndsLastFrame, Clean, Flat, Stream, Parse, Fitting, Unfitting, Peek;
      Conservation();
      match c {
        case Read(n) =>
          var r := reader.PollRead(n);
          a := if r.Ready? then Gave(r.value) else if r == R.Spins then Stopped else Refused;
        case FillBuf =>
          var r := reader.PollFillBuf();
          a := if r.Ready? then Shown else if r == R.Spins then Stopped else Refused;
        case Consume(n) =>
          var k := Min(n, |reader.cleartext.Data()|);
          var chunk := reader.cleartext.Data()[..k];
          reader.Consume(k);
          a := Gave(chunk);
      }
    }

    /** A poll of either end. */
    method Step(c: Call) returns (a: Answer)
      requires Valid()
      modifies writer, writer.bytes, reader, reader.cleartext, reader.ciphertext, pipe
      ensures Answers(c, a)
      ensures a == Stopped ==> writer.position == aead.limit || pipe.closed
      ensures a != Stopped ==>
                && Valid()
                && writer.accepted == old(writer.accepted) + TakenIn(c, a)
                && reader.delivered == old(reader.delivered) + HandedOut(c, a)
      ensures old(pipe.refused) + (if a == Refused then 1 else 0) <= pipe.refused
    {
      hide aead.Lawful, W.Ledger, R.Ledger, W.EndsLastFrame, Clean, Flat, Stream, Valid;
      if c.Write? || c.Flush? || c.Shutdown? {
        a := StepWriter(c);
        assert HandedOut(c, a) == [];
      } else {
        a := StepReader(c);
        assert TakenIn(c, a) == [];
      }
    }

    /**
     * Any interleaving of polls: conservation holds after every one of them, and what the
     * answers say was taken in and handed out is what was.
     */
    method Run(calls: seq<Call>) returns (answers: seq<Answer>)
      requires Valid()
      modifies writer, writer.bytes, reader, reader.cleartext, reader.ciphertext, pipe
      ensures |answers| <= |calls|
      ensures forall i :: 0 <= i < |answers| ==> Answers(calls[i], answers[i]) && answers[i] != Stopped
      ensures |answers| < |calls| ==> writer.position == aead.limit || pipe.closed
      ensures |answers| == |calls| ==> Valid() && reader.frames <= writer.sealed
      ensures |answers| == |calls| ==>
                reader.delivered + reader.cleartext.Data() + Flat(InFlight()) + writer.Unsealed() == writer.accepted
      ensures |answers| == |calls| ==>
                && writer.accepted == old(writer.accepted) + AllTakenIn(calls, answers)
                && reader.delivered == old(reader.delivered) + AllHandedOut(calls, answers)
                && old(pipe.refused) + Refusals(answers) <= pipe.refused
    {
      hide aead.Lawful, W.Ledger, R.Ledger, W.EndsLastFrame, Clean, Flat, Stream, TakenIn, HandedOut, Answers, Valid;
      answers := [];
      while |answers| < |calls|
        invariant |answers| <= |calls| && Valid()
        invariant forall i :: 0 <= i < |answers| ==> Answers(calls[i], answers[i]) && answers[i] != Stopped
        invariant writer.accepted == old(writer.accepted) + AllTakenIn(calls, answers)
        invariant reader.delivered == old(reader.delivered) + AllHandedOut(calls, answers)
        invariant old(pipe.refused) + Refusals(answers) <= pipe.refused
        decreases |calls| - |answers|
      {
        var a := Step(calls[|answers|]);
        if a == Stopped {
          return;
        }
        OneMoreAnswer(calls, answers, a, old(writer.accepted), old(reader.delivered));
        answers := answers + [a];
      }
      Conservation();
    }

    /** Everything accepted is with the pipe. */
    ghost predicate Flushed()
      requires Valid()
      reads this, pipe, writer, writer.writer, writer.bytes
      reads reader, reader.reader, reader.cleartext, reader.ciphertext
    {
      writer.Unsent() == [] && writer.Unsealed() == []
    }

    /** What has been accepted and not delivered. */
    ghost function Undelivered(): (rest: Bytes)
      requires Valid()
      reads this, pipe, writer, writer.writer, writer.bytes
      reads reader, reader.reader, reader.cleartext, reader.ciphertext
      ensures reader.delivered + rest == writer.accepted
    {
      Conservation();
      writer.accepted[|reader.delivered|..]
    }

    /** What is left for the reader once everything accepted is with the pipe. */
    lemma LeftToRead()
      requires Valid() && Flushed()
      ensures reader.NothingLeft() <==> reader.delivered == writer.accepted
      ensures |reader.delivered| + reader.Promised() <= |writer.accepted|
      ensures |writer.accepted| <= |reader.delivered| + reader.Promised() + |reader.Withheld()|
      ensures |writer.accepted| + CIPHERTEXT_OVERHEAD
                <= |reader.delivered| + |reader.cleartext.Data()| + reader.cleartext.SpareCapacityLen() ==>
              |reader.delivered| + reader.Promised() == |writer.accepted|
    {
      hide aead.Lawful, W.Ledger, R.Ledger, W.EndsLastFrame, Clean, Flat, Stream, Parse, Fitting, Unfitting;
      Conservation();
      writer.Books();
      assert reader.Incoming() == Stream(aead, reader.position, InFlight());
      StreamParses(aead, reader.position, InFlight());
      StreamFits(aead, reader.position, reader.cleartext.SpareCapacityLen(), InFlight());
    }

    /**
     * A read after everything has been sent and the pipe closed. It gives the next bytes, as
     * many as asked for if they are promised. Asked for more than is left, it never returns,
     * unless the stream is too long for the ciphertext buffer or has been read to its last
     * byte. Far from the end it always returns.
     */
    method ReadAfterClose(n: nat) returns (r: R.ReadPoll<Bytes>)
      requires Valid() && Flushed() && pipe.eager && pipe.closed && n != 0
      modifies reader, reader.cleartext, reader.ciphertext, pipe
      ensures Valid() && (r.Ready? || r == R.Spins)
      ensures r.Ready? ==> reader.delivered == old(reader.delivered) + r.value && reader.delivered <= writer.accepted
      ensures n <= old(reader.Promised()) ==> r.Ready? && |r.value| == n
      ensures r.Ready? ==> |r.value| == Min(n, old(reader.Promised()))
      ensures r == R.Ready([]) <==> old(reader.delivered == writer.accepted)
      ensures var left := old(|writer.accepted| - |reader.delivered|);
              0 < left < reader.Amount(Some(n)) && old(reader.FitsBuffer()) ==> r == R.Spins
      ensures 3 * MAX_CHUNK_SIZE <= old(|writer.accepted| - |reader.delivered|) ==> r.Ready?
    {
      hide aead.Lawful, W.Ledger, R.Ledger, W.EndsLastFrame, Clean, Flat, Stream, Parse, Fitting, Unfitting, Peek;
      Conservation();
      LeftToRead();
      reader.PromisedIsBelowCapacity();
      r := reader.PollRead(n);
      Conservation();
    }

    /** `poll_fill_buf` then: the end, or, with anything left that fits in the buffer, it never returns. */
    method FillAfterClose() returns (r: R.ReadPoll<Bytes>)
      requires Valid() && Flushed() && pipe.eager && pipe.closed
      modifies reader, reader.cleartext, reader.ciphertext, pipe
      ensures Valid() && (r.Ready? || r == R.Spins)
      ensures r == R.Ready([]) <==> old(reader.delivered == writer.accepted)
      ensures old(reader.delivered != writer.accepted && reader.FitsBuffer()) ==> r == R.Spins
      ensures 3 * MAX_CHUNK_SIZE <= old(|writer.accepted| - |reader.delivered|) ==> r.Ready?
    {
      hide aead.Lawful, W.Ledger, R.Ledger, W.EndsLastFrame, Clean, Flat, Stream, Parse, Fitting, Unfitting, Peek;
      Conservation();
      LeftToRead();
      reader.PromisedIsBelowCapacity();
      r := reader.PollFillBuf();
    }

    /** Writes what a frame has room for of `msg`, flushes and closes. */
    method WriteAndClose(msg: Bytes) returns (k: nat)
      requires Valid() && pipe.eager && !pipe.closed && msg != [] && writer.position + 3 <= aead.limit
      modifies writer, writer.bytes, pipe
      ensures Valid() && Flushed() && pipe.closed
      ensures k == Min(|msg|, MAX_PLAINTEXT - |old(writer.Unsealed())|) && 0 < k
      ensures writer.accepted == old(writer.accepted) + msg[..k]
      ensures |pipe.sent| <= |writer.accepted| + 20 * (old(writer.position) + 3)
    {
      hide aead.Lawful, W.Ledger, R.Ledger, W.EndsLastFrame, Clean, Flat, Stream;
      var w := writer.PollWrite(msg);
      k := w.value;
      var f := writer.PollFlush();
      f := writer.PollShutdown();
      StreamLength(aead, 0, writer.sealed);
    }

    /** Giving up or failing comes only of refused polls, the end and its loop only of a closed pipe. */
    ghost predicate Honest(r: Finish, before: nat, patience: nat)
      reads pipe
    {
      && before <= pipe.refused
      && (r == GaveUp ==> before + patience < pipe.refused)
      && (r == IoFailed ==> before < pipe.refused)
      && (r == AtEnd || r == Never ==> pipe.closed)
    }

    /** `write_all`: polls until all is taken, giving up after `patience` times Pending; `n` bytes are taken. */
    method WriteAll(msg: Bytes, patience: nat) returns (r: Finish, n: nat)
      requires Valid()
      modifies writer, writer.bytes, pipe
      ensures n <= |msg| && (r == Complete ==> n == |msg|)
      ensures r == CounterUsedUp ==> writer.position == aead.limit
      ensures r != CounterUsedUp ==> Valid() && writer.accepted == old(writer.accepted) + msg[..n]
      ensures pipe.closed == old(pipe.closed)
      ensures pipe.eager && !pipe.closed ==> r == Complete || r == CounterUsedUp
      ensures Honest(r, old(pipe.refused), patience)
      ensures r == GaveUp ==> pipe.refused == old(pipe.refused) + patience + 1
    {
      hide aead.Lawful, W.Ledger, R.Ledger, W.EndsLastFrame, Clean, Flat, Stream;
      n := 0;
      var left := patience;
      while n < |msg|
        invariant n <= |msg| && Valid() && pipe.closed == old(pipe.closed)
        invariant writer.accepted == old(writer.accepted) + msg[..n]
        invariant 0 <= left <= patience && pipe.refused == old(pipe.refused) + (patience - left)
        decreases |msg| - n, left
      {
        var w := writer.PollWrite(msg[n..]);
        match w {
          case SealError => return CounterUsedUp, n;
          case IoError => return IoFailed, n;
          case Pending =>
            if left == 0 {
              return GaveUp, n;
            }
            left := left - 1;
          case Ready(k) =>
            TakeMore(old(writer.accepted), msg, n, k);
            n := n + k;
        }
      }
      return Complete, n;
    }

    /** `flush`: polls until everything accepted is with the pipe, giving up after `patience` times Pending. */
    method FlushAll(patience: nat) returns (r: Finish)
      requires Valid()
      modifies writer, writer.bytes, pipe
      ensures r == CounterUsedUp ==> writer.position == aead.limit
      ensures r != CounterUsedUp ==> Valid() && writer.accepted == old(writer.accepted)
      ensures r == Complete ==> Flushed()
      ensures pipe.closed == old(pipe.closed)
      ensures pipe.eager && !pipe.closed ==> r == Complete || r == CounterUsedUp
      ensures Honest(r, old(pipe.refused), patience)
      ensures r == GaveUp ==> pipe.refused == old(pipe.refused) + patience + 1
    {
      hide aead.Lawful, W.Ledger, R.Ledger, W.EndsLastFrame, Clean, Flat, Stream;
      var f := writer.PollFlushRepeatedly(patience + 1);
      match f {
        case Ready(_) => return Complete;
        case SealError => return CounterUsedUp;
        case IoError => return IoFailed;
        case Pending => return GaveUp;
      }
    }

    /** One `poll_read` on the way to `n` bytes. */
    method ReadOnce(n: nat) returns (r: Finish, more: Bytes)
      requires Valid() && n != 0
      modifies reader, reader.cleartext, reader.ciphertext, pipe
      ensures Valid() && |more| <= n && r != CounterUsedUp && (r == Complete <==> more != [])
      ensures reader.delivered == old(reader.delivered) + more && reader.delivered <= writer.accepted
      ensures pipe.closed == old(pipe.closed)
      ensures old(pipe.eager && !pipe.closed && Flushed() && |reader.delivered| < |writer.accepted|) ==> r == Complete
      ensures Honest(r, old(pipe.refused), 0)
    {
      hide reader.Promised, reader.Withheld, reader.NothingLeft, aead.Lawful, W.Ledger, R.Ledger, W.EndsLastFrame, Clean, Flat, Stream, Parse, Fitting, Unfitting, Peek;
      Conservation();
      var p := reader.PollRead(n);
      Conservation();
      match p {
        case Ready(got) => return if got == [] then AtEnd else Complete, got;
        case Pending =>
          NothingWithheldIfFlushed();
          return GaveUp, [];
        case IoError => return IoFailed, [];
        case _ => return Never, [];
      }
    }

    /**
     * `read_exact`: polls until `n` bytes are there, giving up after `patience` times Pending.
     * It never waits for bytes that have been flushed into a pipe that gives them.
     */
    method ReadExact(n: nat, patience: nat) returns (r: Finish, out: Bytes)
      requires Valid()
      modifies reader, reader.cleartext, reader.ciphertext, pipe
      ensures Valid() && |out| <= n && r != CounterUsedUp && (r == Complete ==> |out| == n)
      ensures reader.delivered == old(reader.delivered) + out
      ensures pipe.closed == old(pipe.closed) && (old(Flushed()) ==> Flushed())
      ensures old(pipe.eager && !pipe.closed && Flushed() && |reader.delivered| + n <= |writer.accepted|) ==> r == Complete
      ensures Honest(r, old(pipe.refused), patience)
    {
      hide aead.Lawful, W.Ledger, R.Ledger, W.EndsLastFrame, Clean, Flat, Stream, Parse, Fitting, Unfitting, Peek;
      out := [];
      var left := patience;
      while |out| < n
        invariant Valid() && pipe.closed == old(pipe.closed)
        invariant |out| <= n && reader.delivered == old(reader.delivered) + out
        invariant 0 <= left <= patience && old(pipe.refused) + (patience - left) <= pipe.refused
        decreases n - |out|, left
      {
        var more;
        r, more := ReadOnce(n - |out|);
        if r == GaveUp && left != 0 {
          left := left - 1;
        } else if r != Complete {
          return;
        }
        out := out + more;
      }
      r := Complete;
    }

    /** One `poll_fill_buf` on the way to `n` bytes, and the `consume` of what is wanted of it. */
    method FillOnce(n: nat) returns (r: Finish, more: Bytes)
      requires Valid() && n != 0
      modifies reader, reader.cleartext, reader.ciphertext, pipe
      ensures Valid() && |more| <= n && r != CounterUsedUp && (r == Complete <==> more != [])
      ensures reader.delivered == old(reader.delivered) + more && reader.delivered <= writer.accepted
      ensures pipe.closed == old(pipe.closed)
      ensures old(pipe.eager && !pipe.closed && Flushed() && |reader.delivered| < |writer.accepted|) ==> r == Complete
      ensures Honest(r, old(pipe.refused), 0)
    {
      hide reader.Promised, reader.Withheld, reader.NothingLeft, aead.Lawful, W.Ledger, R.Ledger, W.EndsLastFrame, Clean, Flat, Stream, Parse, Fitting, Unfitting, Peek;
      Conservation();
      var p := reader.PollFillBuf();
      Conservation();
      match p {
        case Ready(chunk) =>
          if chunk == [] {
            return AtEnd, [];
          }
          var k := if n < |chunk| then n else |chunk|;
          reader.Consume(k);
          Conservation();
          return Complete, chunk[..k];
        case Pending =>
          NothingWithheldIfFlushed();
          return GaveUp, [];
        case IoError => return IoFailed, [];
        case _ => return Never, [];
      }
    }

    /**
     * `copy_buf` from a `take` of `n` bytes: fills the buffer, takes what is wanted of it and
     * consumes that, until all is there or the stream ends.
     */
    method CopyBuf(n: nat, patience: nat) returns (r: Finish, out: Bytes)
      requires Valid()
      modifies reader, reader.cleartext, reader.ciphertext, pipe
      ensures Valid() && |out| <= n && r != CounterUsedUp && (r == Complete ==> |out| == n)
      ensures reader.delivered == old(reader.delivered) + out
      ensures pipe.closed == old(pipe.closed) && (old(Flushed()) ==> Flushed())
      ensures old(pipe.eager && !pipe.closed && Flushed() && |reader.delivered| + n <= |writer.accepted|) ==> r == Complete
      ensures Honest(r, old(pipe.refused), patience)
    {
      hide aead.Lawful, W.Ledger, R.Ledger, W.EndsLastFrame, Clean, Flat, Stream, Parse, Fitting, Unfitting, Peek;
      out := [];
      var left := patience;
      while |out| < n
        invariant Valid() && pipe.closed == old(pipe.closed)
        invariant |out| <= n && reader.delivered == old(reader.delivered) + out
        invariant 0 <= left <= patience && old(pipe.refused) + (patience - left) <= pipe.refused
        decreases n - |out|, left
      {
        var more;
        r, more := FillOnce(n - |out|);
        if r == GaveUp && left != 0 {
          left := left - 1;
        } else if r != Complete {
          return;
        }
        out := out + more;
      }
      r := Complete;
    }

    lemma NothingWithheldIfFlushed()
      requires Valid() && reader.cleartext.Data() == [] && reader.Settled()
      ensures pipe.wire == [] && Flushed() ==> reader.delivered == writer.accepted
    {
      hide aead.Lawful, W.Ledger, R.Ledger, W.EndsLastFrame, Clean, Flat, Stream, Peek;
      if pipe.wire == [] && Flushed() {
        NothingWithheld();
      }
    }

    /**
     * Write, flush and read back, over any pipe: whenever it completes, the peer has the very
     * bytes, and over a pipe that moves bytes when it can it completes or the counter runs out.
     */
    method Exchange(msg: Bytes, patience: nat) returns (r: Finish, out: Bytes)
      requires Valid() && reader.delivered == writer.accepted
      modifies writer, writer.bytes, reader, reader.cleartext, reader.ciphertext, pipe
      ensures r == CounterUsedUp ==> writer.position == aead.limit
      ensures r != CounterUsedUp ==> Valid()
      ensures r == Complete ==> out == msg && reader.delivered == writer.accepted
      ensures old(pipe.eager && !pipe.closed) ==> r == Complete || r == CounterUsedUp
      ensures Honest(r, old(pipe.refused), patience)
    {
      hide aead.Lawful, W.Ledger, R.Ledger, W.EndsLastFrame, Clean, Flat, Stream;
      ghost var before := writer.accepted;
      var n;
      r, n := WriteAll(msg, patience);
      if r != Complete {
        return r, [];
      }
      r := FlushAll(patience);
      if r != Complete {
        return r, [];
      }
      r, out := ReadExact(|msg|, patience);
      if r == Complete {
        assert msg[..n] == msg;
        Conservation();
        SamePrefix(before, out, msg);
      }
    }
  }

  /**
   * From the start: any message of one frame written, flushed and closed. A read of no more
   * than the message gives its first bytes, and a read of more never returns.
   */
  method ReadOfOneMessage(a: Aead, msg: Bytes, n: nat) returns (r: R.ReadPoll<Bytes>)
    requires a.Lawful() && 3 <= a.limit && 0 < |msg| <= MAX_PLAINTEXT && 0 < n
    ensures r == if n <= |msg| then R.Ready(msg[..n]) else R.Spins
  {
    hide a.Lawful, W.Ledger, R.Ledger, W.EndsLastFrame, Clean, Flat, Stream, Parse, Fitting, Unfitting, Peek;
    var link := new Link(a, true);
    var k := link.WriteAndClose(msg);
    assert msg[..k] == msg && [] + msg == msg;
    link.Conservation();
    link.LeftToRead();
    r := link.ReadAfterClose(n);
    if n <= |msg| {
      assert r.Ready? && link.reader.delivered == r.value == msg[..n];
    }
  }

  /** A read of zero bytes on a new reader passes the closing assertion with an empty buffer. */
  method ZeroReadOfNewReader(a: Aead, eager: bool) returns (r: R.ReadPoll<Bytes>, cleartext: Bytes)
    requires a.Lawful()
    ensures r == R.Ready([]) && cleartext == []
  {
    hide a.Lawful, W.Ledger, R.Ledger, W.EndsLastFrame, Clean, Stream, Fitting, Unfitting;
    var link := new Link(a, eager);
    link.Conservation();
    r := link.reader.PollRead(0);
    cleartext := link.reader.cleartext.Data();
  }
}
