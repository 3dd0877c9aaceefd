/** The encrypting writer: packs plaintext into frames and drains them through a pipe. */
module Writer {
  import opened ByteStrings
  import opened HelperBuffer
  import opened Framing
  import opened Transport

  datatype WritePoll<+T> = Pending | Ready(value: T) | IoError | SealError

  /**
   * The writer's books: what the pipe was given and what it is still owed is the stream of
   * the frames sealed, and what callers gave is their plaintext and what is not sealed yet.
   */
  ghost predicate Ledger(a: Aead, sealed: seq<Bytes>, sent: Bytes, unsent: Bytes, accepted: Bytes, unsealed: Bytes) {
    && AllSmall(sealed)
    && sent + unsent == Stream(a, 0, sealed)
    && accepted == Flat(sealed) + unsealed
  }

  /** `d` is empty, or a suffix of the last frame sealed, which is of 20 to 8192 bytes. */
  ghost predicate EndsLastFrame(a: Aead, sealed: seq<Bytes>, d: Bytes) {
    d != [] ==>
      && sealed != []
      && var f := Frame(a, |sealed| - 1, sealed[|sealed| - 1]);
         20 <= |f| <= MAX_CHUNK_SIZE && |d| <= |f| && d == f[|f| - |d|..]
  }

  lemma LedgerDrain(a: Aead, sealed: seq<Bytes>, sent: Bytes, unsent: Bytes, accepted: Bytes, n: nat)
    requires Ledger(a, sealed, sent, unsent, accepted, []) && EndsLastFrame(a, sealed, unsent) && n <= |unsent|
    ensures Ledger(a, sealed, sent + unsent[..n], unsent[n..], accepted, [])
    ensures EndsLastFrame(a, sealed, unsent[n..])
  {
    hide Stream, Flat, Frame;
    assert sent + unsent == sent + unsent[..n] + unsent[n..];
    if unsent != [] {
      SuffixDrop(Frame(a, |sealed| - 1, sealed[|sealed| - 1]), unsent, n);
    }
  }

  lemma SuffixDrop(f: Bytes, d: Bytes, n: nat)
    requires n <= |d| <= |f| && d == f[|f| - |d|..]
    ensures d[n..] == f[|f| - |d[n..]|..]
  {
  }

  lemma LedgerAccept(a: Aead, sealed: seq<Bytes>, sent: Bytes, accepted: Bytes, unsealed: Bytes, more: Bytes)
    requires Ledger(a, sealed, sent, [], accepted, unsealed)
    ensures Ledger(a, sealed, sent, [], accepted + more, unsealed + more)
  {
    assert Flat(sealed) + unsealed + more == Flat(sealed) + (unsealed + more);
  }

  lemma LedgerSeal(a: Aead, sealed: seq<Bytes>, sent: Bytes, accepted: Bytes, p: Bytes)
    requires a.Lawful() && Ledger(a, sealed, sent, [], accepted, p) && |p| <= MAX_PLAINTEXT
    ensures |Frame(a, |sealed|, p)| == |p| + 20
    ensures Ledger(a, sealed + [p], sent, Frame(a, |sealed|, p), accepted, [])
    ensures EndsLastFrame(a, sealed + [p], Frame(a, |sealed|, p))
  {
    hide BigEndian, Stream, Flat;
    var f := Frame(a, |sealed|, p);
    assert |f| == |p| + 20;
    StreamSnoc(a, 0, sealed, p);
    FlatSnoc(sealed, p);
    assert sent + [] == sent;
  }

  lemma AppendBehindHeader(whole: Bytes, chunk: Bytes)
    requires 4 <= |whole|
    ensures (whole + chunk)[4..] == whole[4..] + chunk && (whole + chunk)[..4] == whole[..4]
  {
  }

  class EncryptedWriter {
    const aead: Aead
    const writer: Pipe
    const bytes: HelperBuf
    /** The number of messages encrypted so far, which is the next counter. */
    var position: nat
    var isFlushing: bool
    /** Every plaintext byte taken from callers. */
    ghost var accepted: Bytes
    /** The plaintext of every frame sealed, in counter order. */
    ghost var sealed: seq<Bytes>

    /** Capacity kept, and between frames the buffer holds a blank header, plaintext and room for a tag. */
    ghost predicate Shaped()
      reads this, bytes
    {
      && bytes.Tidy() && bytes.buf.cap == MAX_CHUNK_SIZE
      && (!isFlushing ==>
            bytes.cursor == 0 && 4 <= |bytes.buf.data| <= MAX_CHUNK_SIZE - CIPHERTEXT_OVERHEAD &&
            bytes.buf.data[..4] == [0, 0, 0, 0])
    }

    /** What is sealed but not yet handed to the pipe. */
    ghost function Unsent(): Bytes
      requires Shaped()
      reads this, bytes
    {
      if isFlushing then bytes.Data() else []
    }

    /** What is accepted but not yet sealed. */
    ghost function Unsealed(): Bytes
      requires Shaped()
      reads this, bytes
    {
      if isFlushing then [] else bytes.buf.data[4..]
    }

    /** What holds at every step, also in the middle of a poll. */
    ghost predicate Coherent()
      reads this, bytes, writer
    {
      && writer.Valid() && aead.Lawful() && Shaped()
      && position == |sealed| <= aead.limit
      && Ledger(aead, sealed, writer.sent, Unsent(), accepted, Unsealed())
      && EndsLastFrame(aead, sealed, Unsent())
    }

    /** What holds between polls: a frame that is being filled also has room for a byte. */
    ghost predicate Valid()
      reads this, bytes, writer
    {
      Coherent() && (!isFlushing ==> |bytes.buf.data| < MAX_CHUNK_SIZE - CIPHERTEXT_OVERHEAD)
    }

    lemma Books()
      requires Valid()
      ensures AllSmall(sealed) && writer.sent + Unsent() == Stream(aead, 0, sealed)
      ensures accepted == Flat(sealed) + Unsealed()
    {
    }

    /** The writer once its nonce is out: nothing buffered and marked as flushing. */
    constructor (aead: Aead, writer: Pipe)
      requires aead.Lawful() && writer.Valid() && writer.sent == []
      ensures Valid() && fresh(bytes) && this.aead == aead && this.writer == writer
      ensures accepted == [] && sealed == [] && isFlushing && bytes.buf.cap == 8192
    {
      this.aead, this.writer := aead, writer;
      bytes := new HelperBuf.WithCapacity(MAX_CHUNK_SIZE);
      position, isFlushing := 0, true;
      accepted, sealed := [], [];
    }

    /** One turn of the drain loop: offers the unsent bytes to the pipe and drops what it took. */
    method DrainOnce() returns (p: IoPoll<nat>)
      requires Valid() && isFlushing && bytes.Data() != []
      modifies bytes, writer`wire, writer`sent, writer`refused
      ensures Valid()
      ensures p.Done? ==> |bytes.Data()| < old(|bytes.Data()|)
      ensures writer.refused == old(writer.refused) + (if p.Done? then 0 else 1)
      ensures writer.eager && !writer.closed ==> p.Done?
    {
      hide Ledger, EndsLastFrame, aead.Lawful;
      ghost var before, data := writer.sent, bytes.Data();
      p := writer.PollWrite(bytes.Data());
      if p.Done? {
        LedgerDrain(aead, sealed, before, data, accepted, p.value);
        bytes.AdvanceCursor(p.value);
      } else {
        assert writer.sent == before;
      }
    }

    /** Drains the frame in flight; when it is all out, starts the next with a blank header. */
    method PollFlushLocal() returns (r: WritePoll<()>)
      requires Valid() && isFlushing
      modifies this`isFlushing, bytes, writer`wire, writer`sent, writer`refused
      ensures Valid() && r != SealError
      ensures r.Ready? ==> !isFlushing && bytes.buf.data == [0, 0, 0, 0]
      ensures !r.Ready? ==> isFlushing
      ensures writer.refused == old(writer.refused) + (if r.Ready? then 0 else 1)
      ensures writer.eager && !writer.closed ==> r.Ready?
    {
      hide Ledger, EndsLastFrame, aead.Lawful;
      while bytes.Data() != []
        invariant Valid() && isFlushing
        invariant writer.refused == old(writer.refused)
        decreases |bytes.Data()|
      {
        var p := DrainOnce();
        match p {
          case Blocked => return Pending;
          case Failed => return IoError;
          case Done(_) =>
        }
      }
      isFlushing := false;
      bytes.Append([0, 0, 0, 0]);
      assert bytes.buf.data == [0, 0, 0, 0];
      return Ready(());
    }

    /** Seals what is buffered into one frame, in place. Fails only when the counter is used up. */
    method StartFlushing() returns (ok: bool)
      requires Coherent() && !isFlushing
      modifies this, bytes
      ensures ok == (old(position) < aead.limit)
      ensures ok ==> Valid() && isFlushing && accepted == old(accepted)
      ensures ok ==> sealed == old(sealed) + [old(Unsealed())]
      ensures !ok ==> position == old(position) && bytes.buf == old(bytes.buf.SplitOff(4).0)
    {
      hide Ledger, EndsLastFrame, BigEndian;
      var (head, msg) := bytes.buf.SplitOff(4);
      if position == aead.limit {
        bytes.buf := head;
        return false;
      }
      ghost var plain := msg.data;
      LedgerSeal(aead, sealed, writer.sent, accepted, plain);
      msg := msg.(data := aead.seal(position, msg.data));
      var len := BigEndian(|msg.data|);
      SplitThenUnsplit(bytes.buf.(data := len + plain), 4, msg.data);
      bytes.buf := head.(data := len).Unsplit(msg);
      position := position + 1;
      isFlushing := true;
      sealed := sealed + [plain];
      return true;
    }

    /** Adds plaintext to the frame being filled. */
    method TakeIn(chunk: Bytes)
      requires Coherent() && !isFlushing
      requires |bytes.buf.data| + |chunk| <= MAX_CHUNK_SIZE - CIPHERTEXT_OVERHEAD
      modifies this`accepted, bytes`buf
      ensures Coherent() && accepted == old(accepted) + chunk && Unsealed() == old(Unsealed()) + chunk
      ensures |bytes.buf.data| == old(|bytes.buf.data|) + |chunk|
    {
      hide Ledger, EndsLastFrame, aead.Lawful;
      ghost var whole := bytes.buf.data;
      LedgerAccept(aead, sealed, writer.sent, accepted, whole[4..], chunk);
      bytes.Append(chunk);
      accepted := accepted + chunk;
      assert Shaped() && Unsealed() == whole[4..] + chunk by {
        AppendBehindHeader(whole, chunk);
      }
    }

    /** Takes as much of `buf` as fits in the frame being filled, and seals the frame exactly when it is full. */
    method PollWrite(buf: Bytes) returns (r: WritePoll<nat>)
      requires Valid()
      modifies this, bytes, writer`wire, writer`sent, writer`refused
      ensures r != SealError ==> Valid()
      ensures r == SealError ==>
                position == old(position) == aead.limit && MAX_PLAINTEXT <= |old(Unsealed())| + |buf|
      ensures r.Ready? ==> r.value == Min(|buf|, 8172 - |old(Unsealed())|) && (buf != [] ==> 0 < r.value)
      ensures r.Ready? ==>
                var plain := old(Unsealed()) + buf[..r.value];
                if |plain| == MAX_PLAINTEXT then isFlushing && sealed == old(sealed) + [plain]
                else !isFlushing && sealed == old(sealed) && Unsealed() == plain
      ensures r != SealError ==> accepted == old(accepted) + (if r.Ready? then buf[..r.value] else [])
      ensures r.Pending? || r.IoError? ==> isFlushing && sealed == old(sealed)
      ensures writer.refused == old(writer.refused) + (if r.Pending? || r.IoError? then 1 else 0)
      ensures !old(isFlushing) || (writer.eager && !writer.closed) ==> r.Ready? || r.SealError?
    {
      hide Ledger, EndsLastFrame, aead.Lawful;
      if isFlushing {
        var p := PollFlushLocal();
        match p {
          case Pending => return Pending;
          case Ready(_) =>
          case _ => return IoError;
        }
      }
      var room := bytes.SpareCapacityLen() - CIPHERTEXT_OVERHEAD;
      var taken := if |buf| <= room then |buf| else room;
      TakeIn(buf[..taken]);
      if bytes.SpareCapacityLen() == CIPHERTEXT_OVERHEAD {
        var ok := StartFlushing();
        if !ok {
          return SealError;
        }
      }
      return Ready(taken);
    }

    /** Seals and drains everything accepted, then flushes the pipe. */
    method PollFlush() returns (r: WritePoll<()>)
      requires Valid()
      modifies this, bytes, writer`wire, writer`sent, writer`refused, writer`flushed
      ensures r != SealError ==> Valid() && accepted == old(accepted)
      ensures r == SealError ==> position == old(position) == aead.limit
      ensures r != SealError ==> sealed == if old(isFlushing) then old(sealed) else old(sealed) + [old(Unsealed())]
      ensures r != SealError ==> Unsealed() == []
      ensures r.Ready? ==> !isFlushing && bytes.buf.data == [0, 0, 0, 0]
      ensures r.Ready? ==> writer.sent == Stream(aead, 0, sealed) && Flat(sealed) == accepted
      ensures r.Ready? ==> writer.flushed == |writer.sent|
      ensures writer.refused == old(writer.refused) + (if r.Pending? || r.IoError? then 1 else 0)
      ensures writer.eager && !writer.closed ==> r.Ready? || r.SealError?
    {
      hide EndsLastFrame, aead.Lawful;
      if !isFlushing && bytes.Data() != [] {
        var ok := StartFlushing();
        if !ok {
          return SealError;
        }
      }
      if isFlushing {
        var p := PollFlushLocal();
        if !p.Ready? {
          return p;
        }
      }
      var f := writer.PollFlush();
      match f {
        case Blocked => return Pending;
        case Failed => return IoError;
        case Done(_) => return Ready(());
      }
    }

    /**
     * Polls a flush again and again, as a caller does while it is Pending. The plaintext
     * buffered at the start is sealed once, and every further frame is empty.
     */
    method PollFlushRepeatedly(tries: nat) returns (r: WritePoll<()>)
      requires Valid()
      modifies this, bytes, writer`wire, writer`sent, writer`refused, writer`flushed
      ensures r != SealError ==> Valid() && accepted == old(accepted) && old(sealed) <= sealed
      ensures r != SealError && tries != 0 && !old(isFlushing) ==>
                |old(sealed)| < |sealed| && sealed[|old(sealed)|] == old(Unsealed())
      ensures r != SealError ==>
                forall i :: |old(sealed)| + (if old(isFlushing) then 0 else 1) <= i < |sealed| ==> sealed[i] == []
      ensures r.Ready? ==> writer.sent == Stream(aead, 0, sealed) && Flat(sealed) == accepted
      ensures r.Ready? ==> !isFlushing && Unsealed() == []
      ensures r == SealError ==> position == aead.limit
      ensures writer.eager && !writer.closed && tries != 0 ==> r.Ready? || r.SealError?
      ensures old(writer.refused) <= writer.refused
      ensures r.Pending? ==> writer.refused == old(writer.refused) + tries
      ensures r.IoError? ==> old(writer.refused) < writer.refused
    {
      hide Ledger, EndsLastFrame, aead.Lawful, Stream, Flat;
      r := Pending;
      for i := 0 to tries
        invariant Valid() && accepted == old(accepted) && old(sealed) <= sealed && r.Pending?
        invariant writer.refused == old(writer.refused) + i
        invariant i == 0 ==> sealed == old(sealed) && isFlushing == old(isFlushing) && Unsealed() == old(Unsealed())
        invariant i != 0 ==> Unsealed() == [] && !(writer.eager && !writer.closed)
        invariant i != 0 && !old(isFlushing) ==>
                    |old(sealed)| < |sealed| && sealed[|old(sealed)|] == old(Unsealed())
        invariant forall i :: |old(sealed)| + (if old(isFlushing) then 0 else 1) <= i < |sealed| ==> sealed[i] == []
      {
        r := PollFlush();
        if !r.Pending? {
          return;
        }
      }
    }

    /** Flushes, then closes the pipe. */
    method PollShutdown() returns (r: WritePoll<()>)
      requires Valid()
      modifies this, bytes, writer`wire, writer`sent, writer`refused, writer`flushed, writer`closed
      ensures r != SealError ==> Valid() && accepted == old(accepted)
      ensures r == SealError ==> position == old(position) == aead.limit
      ensures r != SealError ==> sealed == if old(isFlushing) then old(sealed) else old(sealed) + [old(Unsealed())]
      ensures r.Ready? ==> !isFlushing && Unsealed() == []
      ensures r.Ready? ==> writer.flushed == |writer.sent|
      ensures writer.refused == old(writer.refused) + (if r.Pending? || r.IoError? then 1 else 0)
      ensures r.Ready? ==> writer.closed && writer.sent == Stream(aead, 0, sealed) && Flat(sealed) == accepted
      ensures !r.Ready? ==> writer.closed == old(writer.closed)
      ensures writer.eager && !old(writer.closed) ==> r.Ready? || r.SealError?
    {
      hide Ledger, EndsLastFrame, aead.Lawful;
      var p := PollFlush();
      if !p.Ready? {
        return p;
      }
      var f := writer.PollShutdown();
      match f {
        case Blocked => return Pending;
        case Failed => return IoError;
        case Done(_) => return Ready(());
      }
    }
  }
}
