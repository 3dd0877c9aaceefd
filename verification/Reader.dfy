/** The decrypting reader: refills a ciphertext buffer, opens whole frames and hands out plaintext. */
module Reader {
  import opened ByteStrings
  import opened HelperBuffer
  import opened Framing
  import opened Transport

  /**
   * How a poll of the reader ends. `Spins` stands for a loop of the source that never
   * ends, `DecryptionError` for an authentication failure and `OutOfRange` for the panic
   * of a compaction whose two halves overlap; after the last two the reader is not used.
   */
  datatype ReadPoll<+T> = Pending | Ready(value: T) | IoError | Spins | DecryptionError | OutOfRange {
    predicate Broken() {
      DecryptionError? || OutOfRange?
    }
  }

  /** How one turn of the read loop ends; `NoChange` is a turn at the end of the stream that changes nothing. */
  datatype Turned = Blocked | Progress | NoChange | Over(result: ReadPoll<bool>)

  /** How decrypting the buffered frames ends. */
  datatype Decrypted = AllOpened | BadFrame | BadWrap

  /**
   * The reader's books, whatever the peer sends: the bytes taken from the pipe are the
   * frames opened and what is still in the ciphertext buffer, and the plaintext of the
   * frames opened is what callers have and what is still in the cleartext buffer.
   */
  ghost predicate Ledger(a: Aead, frames: seq<Bytes>, head: Bytes, taken: Bytes, cipher: Bytes,
                         delivered: Bytes, clear: Bytes)
  {
    && Decodes(a, 0, head, frames)
    && taken == head + cipher
    && delivered + clear == Flat(frames)
  }

  lemma LedgerRead(a: Aead, os: seq<Bytes>, head: Bytes, taken: Bytes, cipher: Bytes,
                   delivered: Bytes, clear: Bytes, more: Bytes)
    requires Ledger(a, os, head, taken, cipher, delivered, clear)
    ensures Ledger(a, os, head, taken + more, cipher + more, delivered, clear)
  {
    assert head + cipher + more == head + (cipher + more);
  }

  lemma LedgerOpen(a: Aead, os: seq<Bytes>, head: Bytes, taken: Bytes, cipher: Bytes,
                   delivered: Bytes, clear: Bytes, p: Bytes)
    requires Ledger(a, os, head, taken, cipher, delivered, clear)
    requires Peek(cipher).Some? && a.unseal(|os|, Peek(cipher).value) == Some(p)
    ensures var n := 4 + |Peek(cipher).value|;
            Ledger(a, os + [p], head + cipher[..n], taken, cipher[n..], delivered, clear + p)
  {
    hide Peek, Flat, Decodes;
    var n := 4 + |Peek(cipher).value|;
    DecodesSnoc(a, 0, head, os, cipher, p);
    FlatSnoc(os, p);
    assert cipher == cipher[..n] + cipher[n..];
    assert head + cipher == head + cipher[..n] + cipher[n..];
    assert delivered + clear + p == delivered + (clear + p);
  }

  lemma LedgerDeliver(a: Aead, os: seq<Bytes>, head: Bytes, taken: Bytes, cipher: Bytes,
                      delivered: Bytes, clear: Bytes, n: nat)
    requires Ledger(a, os, head, taken, cipher, delivered, clear) && n <= |clear|
    ensures Ledger(a, os, head, taken, cipher, delivered + clear[..n], clear[n..])
  {
    hide Flat, Decodes;
    assert clear == clear[..n] + clear[n..];
    assert delivered + clear == delivered + clear[..n] + clear[n..];
  }

  /** Opening more frames moves them from what one-shot parsing finds ahead to what is behind. */
  lemma LeftoverParsesAlike(a: Aead, os: seq<Bytes>, h0: Bytes, t0: Bytes, more: seq<Bytes>, h1: Bytes, t1: Bytes)
    requires Decodes(a, 0, h0, os) && Decodes(a, 0, h1, os + more) && |os + more| <= a.limit
    requires h0 + t0 == h1 + t1
    ensures Parse(a, |os|, t0) == Prepend(more, Parse(a, |os + more|, t1))
  {
    hide Parse, Decodes, Prepend;
    DecodesThenParse(a, 0, h0, os, t0);
    DecodesThenParse(a, 0, h1, os + more, t1);
    PrependCancel(os, more, Parse(a, |os|, t0), Parse(a, |os + more|, t1));
  }

  lemma PrependCancel(os: seq<Bytes>, more: seq<Bytes>, p0: Parsed, p1: Parsed)
    requires Prepend(os, p0) == Prepend(os + more, p1)
    ensures p0 == Prepend(more, p1)
  {
    assert p0.plain == (os + p0.plain)[|os|..];
    assert (os + more + p1.plain)[|os|..] == more + p1.plain;
  }

  /**
   * A reader that can open no more has no cleartext exactly when it had none before and only
   * empty frames were ahead, and no ciphertext either exactly when those frames were all.
   */
  lemma EndVerdict(a: Aead, os: seq<Bytes>, h0: Bytes, t0: Bytes, delivered: Bytes, clear0: Bytes,
                   more: seq<Bytes>, h1: Bytes, t1: Bytes, clear1: Bytes)
    requires Decodes(a, 0, h0, os) && Decodes(a, 0, h1, os + more) && |os + more| <= a.limit
    requires h0 + t0 == h1 + t1
    requires delivered + clear0 == Flat(os) && delivered + clear1 == Flat(os + more)
    requires clear1 == [] ==> Peek(t1).None?
    ensures var rest := Parse(a, |os|, t0);
            && ((clear0 == [] && Flat(rest.plain) == []) <==> clear1 == [])
            && ((clear0 == [] && Flat(rest.plain) == [] && rest.rest == []) <==> (clear1 == [] && t1 == []))
  {
    hide Decodes, Flat, Peek;
    var ahead := Parse(a, |os + more|, t1);
    LeftoverParsesAlike(a, os, h0, t0, more, h1, t1);
    FlatAppend(os, more);
    assert delivered + clear1 == delivered + (clear0 + Flat(more));
    assert clear1 == (delivered + clear1)[|delivered|..] == clear0 + Flat(more);
    FlatAppend(more, ahead.plain);
    if clear1 == [] {
      assert ahead == Parsed([], t1, false);
      assert more + [] == more;
    }
  }

  class EncryptedReader {
    const aead: Aead
    const reader: Pipe
    const cleartext: HelperBuf
    const ciphertext: HelperBuf
    /** The number of messages decrypted so far, which is the next counter. */
    var position: nat
    /** The plaintext of every frame opened, in counter order. */
    ghost var frames: seq<Bytes>
    /** The bytes of those frames. */
    ghost var head: Bytes
    /** Every plaintext byte handed to callers. */
    ghost var delivered: Bytes

    /** Capacities kept; the cleartext buffer never fills up, because of the tag that opening drops. */
    ghost predicate Shaped()
      reads this, cleartext, ciphertext
    {
      && cleartext != ciphertext
      && cleartext.Tidy() && cleartext.buf.cap == MAX_CHUNK_SIZE
      && |cleartext.buf.data| <= MAX_CHUNK_SIZE - CIPHERTEXT_OVERHEAD
      && ciphertext.Tidy() && ciphertext.buf.cap == 2 * MAX_CHUNK_SIZE
    }

    ghost predicate Valid()
      reads this, cleartext, ciphertext, reader
    {
      && reader.Valid() && aead.Lawful() && Shaped() && position == |frames| <= aead.limit
      && Ledger(aead, frames, head, reader.taken, ciphertext.Data(), delivered, cleartext.Data())
    }

    /** What the reader has yet to open: buffered ciphertext, then the bytes in the pipe. */
    ghost function Incoming(): Bytes
      requires Shaped()
      reads this, cleartext, ciphertext, reader
    {
      ciphertext.Data() + reader.wire
    }

    /** All that comes next is as this writer frames it. */
    ghost predicate CleanInput()
      requires Shaped()
      reads this, cleartext, ciphertext, reader
    {
      Clean(aead, position, Incoming())
    }

    /** How much cleartext the reader can have at hand without handing any out. */
    ghost function Promised(): nat
      requires Shaped()
      reads this, cleartext, ciphertext, reader
    {
      |cleartext.Data()| + Fitting(aead, position, cleartext.SpareCapacityLen(), Incoming())
    }

    /** What can then still not be opened, for want of room or of its last bytes. */
    ghost function Withheld(): Bytes
      requires Shaped()
      reads this, cleartext, ciphertext, reader
    {
      Unfitting(aead, position, cleartext.SpareCapacityLen(), Incoming())
    }

    /** Somewhere in what has been sent, parsed at once, there is a frame that does not open. */
    ghost predicate Rejected()
      reads reader`sent
    {
      Parse(aead, 0, reader.sent).failed
    }

    /** The ciphertext buffer is full of an incomplete frame, and too little of it is read for compaction. */
    ghost predicate Overfull()
      reads this, cleartext, ciphertext, reader
    {
      Valid() && Peek(ciphertext.Data()).None? && ciphertext.SpareCapacityLen() == 0 && ciphertext.cursor < MAX_CHUNK_SIZE
    }

    /** No frame can be opened now: the next one is incomplete, or has no room in cleartext. */
    ghost predicate Settled()
      requires Shaped()
      reads this, cleartext, ciphertext
    {
      match Peek(ciphertext.Data())
      case None => ciphertext.SpareCapacityLen() != 0
      case Some(c) => cleartext.SpareCapacityLen() < |c|
    }

    constructor (aead: Aead, reader: Pipe)
      requires aead.Lawful() && reader.Valid() && reader.taken == []
      ensures Valid() && fresh(cleartext) && fresh(ciphertext)
      ensures cleartext.buf.cap == 8192 && ciphertext.buf.cap == 16384
      ensures this.aead == aead && this.reader == reader
      ensures frames == [] && delivered == [] && cleartext.Data() == [] && ciphertext.Data() == []
    {
      this.aead, this.reader := aead, reader;
      cleartext := new HelperBuf.WithCapacity(MAX_CHUNK_SIZE);
      ciphertext := new HelperBuf.WithCapacity(2 * MAX_CHUNK_SIZE);
      position := 0;
      frames, head, delivered := [], [], [];
    }

    /** Moves bytes from the pipe into the spare part of the ciphertext buffer. */
    method InnerRead() returns (r: IoPoll<Bytes>)
      requires Valid()
      modifies ciphertext`buf, reader`wire, reader`taken, reader`refused
      ensures Valid() && Incoming() == old(Incoming())
      ensures Promised() == old(Promised()) && Withheld() == old(Withheld())
      ensures ciphertext.buf.data == old(ciphertext.buf.data) + (if r.Done? then r.value else [])
      ensures !r.Done? || r.value == [] ==> ciphertext.buf == old(ciphertext.buf) && unchanged(reader`wire, reader`taken)
      ensures reader.refused == old(reader.refused) + (if r.Done? then 0 else 1)
      ensures (!r.Done? || r.value == []) && old(Settled()) ==> Settled()
      ensures |ciphertext.buf.data| + |reader.wire| == old(|ciphertext.buf.data| + |reader.wire|)
      ensures r.Done? && r.value != [] ==> |reader.wire| < old(|reader.wire|)
      ensures r.Done? && r.value == [] && old(ciphertext.SpareCapacityLen()) != 0 ==>
                reader.closed && reader.wire == []
      ensures reader.eager && (reader.wire != [] || reader.closed) ==> r.Done?
      ensures reader.eager ==> !r.Failed?
    {
      hide Ledger, Fitting, Unfitting, aead.Lawful;
      ghost var before, cipher, wire := reader.taken, ciphertext.Data(), reader.wire;
      r := reader.PollRead(ciphertext.SpareCapacityLen());
      if r.Done? {
        LedgerRead(aead, frames, head, before, cipher, delivered, cleartext.Data(), r.value);
        ciphertext.Append(r.value);
        assert ciphertext.Data() == cipher + r.value;
        assert r.value == [] ==> ciphertext.buf == old(ciphertext.buf);
        assert r.value == [] ==> reader.wire == wire && reader.taken == before;
        assert cipher + (r.value + reader.wire) == cipher + r.value + reader.wire;
      }
    }

    lemma UnsealShrinks(c: Bytes)
      requires aead.Lawful()
      ensures aead.unseal(position, c).Some? ==> |aead.unseal(position, c).value| + CIPHERTEXT_OVERHEAD == |c|
    {
    }

    /** Copies a message behind the cleartext, opens it there and joins the two; a failure loses the spare part. */
    method OpenBehindCleartext(msg: Bytes) returns (ok: bool)
      requires aead.Lawful() && cleartext.Tidy() && |msg| <= cleartext.SpareCapacityLen()
      modifies this`position, cleartext
      ensures ok == (old(position) != aead.limit && aead.unseal(old(position), msg).Some?)
      ensures ok ==> position == old(position) + 1 && cleartext.Tidy() && cleartext.buf.cap == old(cleartext.buf.cap)
      ensures ok ==> cleartext.Data() == old(cleartext.Data()) + aead.unseal(old(position), msg).value
      ensures ok ==> |cleartext.buf.data| + CIPHERTEXT_OVERHEAD <= cleartext.buf.cap
      ensures ok ==> |cleartext.buf.data| == old(|cleartext.buf.data|) + |aead.unseal(old(position), msg).value|
      ensures !ok ==> cleartext.buf == old(cleartext.buf.SplitOff(|cleartext.buf.data|).0)
    {
      hide aead.Lawful;
      var (front, space) := cleartext.buf.SplitOff(|cleartext.buf.data|);
      space := space.Extend(msg);
      assert space.data == msg;
      UnsealShrinks(msg);
      if position == aead.limit || aead.unseal(position, space.data).None? {
        cleartext.buf := front;
        return false;
      }
      var p := aead.unseal(position, space.data).value;
      position := position + 1;
      space := space.(data := p);
      SplitThenUnsplit(cleartext.buf, |cleartext.buf.data|, p);
      cleartext.buf := front.Unsplit(space);
      return true;
    }

    lemma BadFrameIsRejected(msg: Bytes)
      requires Valid() && Peek(ciphertext.Data()) == Some(msg)
      requires position == aead.limit || aead.unseal(position, msg).None?
      ensures Rejected()
    {
      hide Ledger, Peek, Decodes, Flat, aead.Lawful;
      Books();
      DecodesThenParse(aead, 0, head, frames, Incoming());
      PeekExtends(ciphertext.Data(), reader.wire);
    }

    /** One turn of the decryption loop: opens the first buffered frame behind the cleartext. */
    method DecryptOne(msg: Bytes) returns (ok: bool)
      requires Valid() && Peek(ciphertext.Data()) == Some(msg) && |msg| <= cleartext.SpareCapacityLen()
      modifies this, cleartext, ciphertext
      ensures ok ==> Valid() && delivered == old(delivered)
      ensures ok ==> |frames| == old(|frames|) + 1 && old(frames) == frames[..old(|frames|)]
      ensures ok ==> |ciphertext.Data()| < old(|ciphertext.Data()|)
      ensures ok ==> |ciphertext.buf.data| <= old(|ciphertext.buf.data|)
      ensures ok ==> Promised() == old(Promised()) && Withheld() == old(Withheld())
      ensures old(CleanInput()) ==> ok && CleanInput()
      ensures !ok ==> Rejected()
    {
      hide Rejected, Ledger, Peek, Clean, Fitting, Unfitting, aead.Lawful;
      if position == aead.limit || aead.unseal(position, msg).None? {
        BadFrameIsRejected(msg);
      }
      ghost var cipher, clear, counter := ciphertext.Data(), cleartext.Data(), position;
      ghost var room := cleartext.SpareCapacityLen();
      if Clean(aead, position, cipher + reader.wire) {
        CleanStep(aead, position, cipher, reader.wire);
      }
      ciphertext.AdvanceCursor(|msg| + 4);
      ok := OpenBehindCleartext(msg);
      if ok {
        ghost var p := aead.unseal(counter, msg).value;
        LedgerOpen(aead, frames, head, reader.taken, cipher, delivered, clear, p);
        FittingStep(aead, counter, room, cipher, reader.wire);
        head, frames := head + cipher[..|msg| + 4], frames + [p];
      }
    }

    /**
     * On clean input the compaction is always in range: a full ciphertext buffer without a
     * complete frame holds at most 8191 unread bytes, so the copy goes to a disjoint part.
     */
    lemma WrapInRange()
      requires Shaped() && CleanInput()
      requires Peek(ciphertext.Data()).None? && ciphertext.SpareCapacityLen() == 0
      ensures |ciphertext.Data()| <= MAX_CHUNK_SIZE - 1 && MAX_CHUNK_SIZE + 1 <= ciphertext.cursor
    {
      IncompleteIsShort(aead, position, ciphertext.Data(), reader.wire);
    }

    /** Opens frames while they are complete and fit, then makes room if the buffer is full. */
    method DecryptAllFullChunks() returns (r: Decrypted)
      requires Valid()
      modifies this, cleartext, ciphertext
      ensures r == AllOpened ==> Valid() && Settled() && delivered == old(delivered) && old(frames) <= frames
      ensures r == AllOpened ==> |ciphertext.buf.data| <= old(|ciphertext.buf.data|)
      ensures r == AllOpened ==> Promised() == old(Promised()) && Withheld() == old(Withheld())
      ensures r == BadFrame ==> Rejected()
      ensures r == BadWrap ==> Overfull()
      ensures old(Peek(ciphertext.Data()).None? && ciphertext.SpareCapacityLen() == 0) ==>
                (r == BadWrap <==> old(ciphertext.cursor) < MAX_CHUNK_SIZE)
      ensures old(CleanInput()) ==> r == AllOpened && CleanInput()
      ensures old(Settled()) ==> r == AllOpened && unchanged(this) && unchanged(cleartext) && unchanged(ciphertext)
    {
      hide Rejected, Ledger, Clean, Fitting, Unfitting, aead.Lawful, FromBigEndian;
      var msg := Peek(ciphertext.Data());
      while msg.Some?
        invariant Valid() && msg == Peek(ciphertext.Data())
        invariant delivered == old(delivered) && old(frames) <= frames
        invariant |ciphertext.buf.data| <= old(|ciphertext.buf.data|)
        invariant Promised() == old(Promised()) && Withheld() == old(Withheld())
        invariant old(CleanInput()) ==> CleanInput()
        invariant old(Settled()) ==> unchanged(this) && unchanged(cleartext) && unchanged(ciphertext)
        invariant old(Peek(ciphertext.Data())).None? ==> unchanged(ciphertext)
        decreases |ciphertext.Data()|
      {
        if cleartext.SpareCapacityLen() < |msg.value| {
          return AllOpened;
        }
        var ok := DecryptOne(msg.value);
        if !ok {
          return BadFrame;
        }
        msg := Peek(ciphertext.Data());
      }
      if ciphertext.SpareCapacityLen() == 0 {
        if CleanInput() {
          WrapInRange();
        }
        if ciphertext.cursor < |ciphertext.Data()| {
          return BadWrap;
        }
        ciphertext.Wrap();
      }
      return AllOpened;
    }

    /** The most cleartext a call may wait for. */
    function Amount(wanted: Option<nat>): (amount: nat)
      ensures amount <= MAX_CHUNK_SIZE && (wanted.Some? ==> amount <= wanted.value)
      ensures amount == MAX_CHUNK_SIZE || wanted == Some(amount)
    {
      if wanted.Some? && wanted.value < MAX_CHUNK_SIZE then wanted.value else MAX_CHUNK_SIZE
    }

    /**
     * At the end of the stream with bytes buffered, too few for the caller: the read brings
     * nothing, nothing more can be opened, and the loop of the source goes round unchanged.
     */
    ghost predicate Stuck(amount: nat)
      requires Shaped()
      reads this, cleartext, ciphertext, reader
    {
      && reader.closed && reader.wire == [] && Settled()
      && (cleartext.Data() != [] || ciphertext.Data() != [])
      && |cleartext.Data()| < amount && ciphertext.SpareCapacityLen() != 0
    }

    /** The rest of the stream is at hand and is followed by its end. */
    ghost predicate AtHand()
      reads reader
    {
      reader.eager && reader.closed
    }

    /** The ciphertext buffer has room for the rest of the stream, and more. */
    ghost predicate FitsBuffer()
      reads this, ciphertext, reader
    {
      |ciphertext.buf.data| + |reader.wire| < 2 * MAX_CHUNK_SIZE
    }

    /** With an empty cleartext buffer every clean frame has room, so settled means incomplete. */
    lemma CleanFits()
      requires Valid() && CleanInput() && Settled() && cleartext.Data() == []
      ensures Peek(ciphertext.Data()).None? && ciphertext.SpareCapacityLen() != 0
    {
      if Peek(ciphertext.Data()).Some? {
        CleanStep(aead, position, ciphertext.Data(), reader.wire);
      }
    }

    /** One turn of the read loop: reads, looks for the end of the stream, and decrypts. */
    method Turn() returns (t: Turned)
      requires Valid() && Settled() && ciphertext.SpareCapacityLen() != 0
      modifies this, cleartext, ciphertext, reader`wire, reader`taken, reader`refused
      ensures t.Over? ==> t.result in {IoError, Ready(true), DecryptionError, OutOfRange}
      ensures (t.Over? && t.result.Broken()) || (Valid() && delivered == old(delivered) && old(frames) <= frames)
      ensures old(CleanInput()) ==> !(t.Over? && t.result.Broken()) && CleanInput()
      ensures t == Over(DecryptionError) ==> Rejected()
      ensures t == Over(OutOfRange) ==> Overfull()
      ensures !t.Over? ==> Settled()
      ensures t.Blocked? || t.NoChange? ==> unchanged(this) && unchanged(cleartext) && unchanged(ciphertext)
      ensures t.Blocked? || t.NoChange? ==> unchanged(reader`wire, reader`taken)
      ensures reader.refused == old(reader.refused) + (if t.Blocked? || t == Over(IoError) then 1 else 0)
      ensures t.Blocked? && reader.eager ==> reader.wire == [] && !reader.closed
      ensures t.Progress? ==> |reader.wire| < old(|reader.wire|)
      ensures t.NoChange? ==> reader.closed && reader.wire == [] && (cleartext.Data() != [] || ciphertext.Data() != [])
      ensures t == Over(Ready(true)) ==>
                reader.closed && reader.wire == [] && cleartext.Data() == [] && ciphertext.Data() == []
      ensures t == Over(IoError) ==> !reader.eager && unchanged(cleartext)
      ensures old(reader.eager && reader.closed && reader.wire == [] && (cleartext.Data() != [] || ciphertext.Data() != [])) ==>
                t == NoChange
      ensures !(t.Over? && t.result.Broken()) ==>
                |ciphertext.buf.data| + |reader.wire| <= old(|ciphertext.buf.data| + |reader.wire|)
      ensures !(t.Over? && t.result.Broken()) ==> Promised() == old(Promised()) && Withheld() == old(Withheld())
    {
      hide Rejected, Overfull, Ledger, Clean, Settled, Peek, Fitting, Unfitting, aead.Lawful;
      var p := InnerRead();
      match p {
        case Failed => return Over(IoError);
        case Blocked => return Turned.Blocked;
        case Done(got) =>
          if ciphertext.Data() == [] && cleartext.Data() == [] {
            return Over(Ready(true));
          }
          var d := DecryptAllFullChunks();
          if d != AllOpened {
            return Over(if d == BadFrame then DecryptionError else OutOfRange);
          }
          return if got == [] then NoChange else Progress;
      }
    }

    /** No plaintext is left for the caller and the stream ends between two frames. */
    ghost predicate NothingLeft()
      requires Shaped()
      reads this, cleartext, ciphertext, reader
    {
      var rest := Parse(aead, position, Incoming());
      cleartext.Data() == [] && Flat(rest.plain) == [] && rest.rest == []
    }

    /** No cleartext is buffered, and the complete frames buffered hold none. */
    ghost predicate NoCleartextAhead()
      requires Shaped()
      reads this, cleartext, ciphertext
    {
      cleartext.Data() == [] && Flat(Parse(aead, position, ciphertext.Data()).plain) == []
    }

    lemma Books()
      requires Valid()
      ensures Decodes(aead, 0, head, frames) && delivered + cleartext.Data() == Flat(frames)
      ensures reader.sent == head + Incoming() && reader.taken == head + ciphertext.Data()
    {
      hide Decodes, Flat, aead.Lawful;
      assert head + ciphertext.Data() + reader.wire == head + Incoming();
    }

    /** What a reader that has had `frames0` opened and `inc0` ahead finds at the end. */
    lemma Verdict(frames0: seq<Bytes>, head0: Bytes, inc0: Bytes, clear0: Bytes)
      requires Valid() && frames0 <= frames && Decodes(aead, 0, head0, frames0)
      requires reader.sent == head0 + inc0 && delivered + clear0 == Flat(frames0)
      requires cleartext.Data() == [] ==> reader.wire == [] && Peek(ciphertext.Data()).None?
      ensures var rest := Parse(aead, |frames0|, inc0);
              (clear0 == [] && Flat(rest.plain) == [] && rest.rest == []) <==> (cleartext.Data() == [] && Incoming() == [])
    {
      hide Ledger, Peek, Parse, Decodes, Flat, aead.Lawful;
      Books();
      assert frames == frames0 + frames[|frames0|..];
      assert reader.wire == [] ==> Incoming() == ciphertext.Data();
      EndVerdict(aead, frames0, head0, inc0, delivered, clear0,
                 frames[|frames0|..], head, Incoming(), cleartext.Data());
    }

    /** Settled at the end of the stream, the reader has all the cleartext it can have. */
    lemma NothingMorePromised()
      requires Shaped() && Settled() && reader.wire == []
      ensures Promised() == |cleartext.Data()| && Withheld() == ciphertext.Data()
    {
      assert Incoming() == ciphertext.Data();
    }

    /** Settled with a full ciphertext buffer, it has it too: the next frame is there and has no room. */
    lemma FullIsAllThatFits()
      requires Shaped() && Settled() && ciphertext.SpareCapacityLen() == 0
      ensures Promised() == |cleartext.Data()|
    {
      PeekExtends(ciphertext.Data(), reader.wire);
    }

    /** The cleartext buffer never fills up. */
    lemma PromisedIsBelowCapacity()
      requires Valid()
      ensures Promised() < MAX_CHUNK_SIZE
    {
      hide Fitting, Unfitting, Ledger;
      FittingBound(aead, position, cleartext.SpareCapacityLen(), Incoming());
    }

    /** The loop of `read_if_necessary`, for an amount already cut to the capacity. */
    method ReadUntil(amount: nat) returns (r: ReadPoll<bool>)
      requires Valid() && amount <= MAX_CHUNK_SIZE
      modifies this, cleartext, ciphertext, reader`wire, reader`taken, reader`refused
      ensures old(reader.refused) <= reader.refused <= old(reader.refused) + 1
      ensures r.Broken() || (Valid() && delivered == old(delivered) && old(frames) <= frames)
      ensures old(CleanInput()) ==> !r.Broken() && CleanInput()
      ensures r == DecryptionError ==> Rejected()
      ensures r == OutOfRange ==> Overfull()
      ensures !r.Broken() ==> Promised() == old(Promised()) && Withheld() == old(Withheld())
      ensures !r.Broken() ==>
                |ciphertext.buf.data| + |reader.wire| <= old(|ciphertext.buf.data| + |reader.wire|)
      ensures r == Pending ==> cleartext.Data() == [] && Settled()
      ensures r == Pending && reader.eager ==> reader.wire == [] && !reader.closed
      ensures r == Ready(true) ==> reader.closed && reader.wire == []
      ensures r == Ready(true) ==> cleartext.Data() == [] && ciphertext.Data() == []
      ensures r == Ready(false) ==> Settled()
      ensures r == Ready(false) && old(CleanInput()) && amount != 0 ==> cleartext.Data() != []
      ensures r == Spins ==> Stuck(amount)
      ensures reader.eager ==> r != IoError
      ensures r == Ready(false) && reader.eager ==>
                || amount <= |cleartext.Data()| || ciphertext.SpareCapacityLen() == 0
                || (reader.wire == [] && !reader.closed)
      ensures r == Ready(false) && reader.refused == old(reader.refused) ==>
                amount <= |cleartext.Data()| || ciphertext.SpareCapacityLen() == 0
      ensures r == Pending || r == IoError ==>
                reader.refused == old(reader.refused) + 1 && |cleartext.Data()| < amount
      ensures r == Ready(true) || r == Spins ==> reader.refused == old(reader.refused)
      ensures amount == 0 && !r.Broken() ==> r == Ready(false) && unchanged(reader)
    {
      hide Rejected, Overfull, Promised, Withheld, Ledger, Clean, Settled, Peek, Fitting, Unfitting, aead.Lawful;
      var d := DecryptAllFullChunks();
      if d != AllOpened {
        return if d == BadFrame then DecryptionError else OutOfRange;
      }
      while |cleartext.Data()| < amount && ciphertext.SpareCapacityLen() != 0
        invariant Valid() && Settled() && delivered == old(delivered) && old(frames) <= frames
        invariant old(CleanInput()) ==> CleanInput()
        invariant amount == 0 ==> unchanged(reader)
        invariant reader.refused == old(reader.refused)
        invariant |ciphertext.buf.data| + |reader.wire| <= old(|ciphertext.buf.data| + |reader.wire|)
        invariant Promised() == old(Promised()) && Withheld() == old(Withheld())
        decreases |reader.wire|
      {
        var t := Turn();
        match t {
          case Over(end) => return end;
          case NoChange => return Spins;
          case Progress =>
          case Blocked =>
            if cleartext.Data() == [] {
              return Pending;
            }
            break;
        }
      }
      if old(CleanInput()) && amount != 0 && cleartext.Data() == [] {
        CleanFits();
      }
      return Ready(false);
    }

    lemma NoPromise()
      requires Shaped() && cleartext.Data() == [] && Incoming() == []
      ensures Promised() == 0
    {
    }

    /** How much cleartext a call that wanted `amount` bytes leaves, by how it ended; `ready` if no inner poll was refused. */
    lemma LeavesPromised(amount: nat, r: ReadPoll<bool>, ready: bool)
      requires Valid() && !r.Broken()
      requires r == Ready(true) ==> reader.wire == [] && cleartext.Data() == [] && ciphertext.Data() == []
      requires r == Ready(false) || r == Pending ==> Settled()
      requires r == Spins ==> Stuck(amount)
      requires r == Pending ==> cleartext.Data() == [] && (reader.eager ==> reader.wire == []) && !ready
      requires r == Ready(false) && reader.eager ==>
                 amount <= |cleartext.Data()| || ciphertext.SpareCapacityLen() == 0 || reader.wire == []
      requires r == Ready(false) && ready ==> amount <= |cleartext.Data()| || ciphertext.SpareCapacityLen() == 0
      ensures |cleartext.Data()| <= Promised()
      ensures r == Spins ==> Promised() < amount && |Withheld()| < 2 * MAX_CHUNK_SIZE
      ensures (reader.eager && r == Pending) || r == Ready(true) ==> Promised() == 0
      ensures (reader.eager || ready) && r == Ready(false) ==>
                amount <= |cleartext.Data()| || |cleartext.Data()| == Promised()
    {
      hide Withheld, Ledger, Settled, Fitting, Unfitting, aead.Lawful, Peek;
      if r == Ready(true) {
        NoPromise();
      } else if Settled() && reader.wire == [] {
        NothingMorePromised();
      } else if Settled() && ciphertext.SpareCapacityLen() == 0 {
        FullIsAllThatFits();
      }
    }

    /**
     * How a call that wants `amount` bytes ends on a stream at hand to its end, unless the
     * ciphertext buffer fills up before: with cleartext if enough can be had, at the end if
     * nothing is left, and otherwise never.
     */
    ghost function Outcome(amount: nat): ReadPoll<bool>
      requires Shaped()
      reads this, cleartext, ciphertext, reader
    {
      if amount <= Promised() then Ready(false) else if NothingLeft() then Ready(true) else Spins
    }

    /** Reads and decrypts until the wanted cleartext is there; the value says end of stream. */
    method ReadIfNecessary(wanted: Option<nat>) returns (r: ReadPoll<bool>)
      requires Valid()
      modifies this, cleartext, ciphertext, reader`wire, reader`taken, reader`refused
      ensures old(reader.refused) <= reader.refused <= old(reader.refused) + 1
      ensures r.Broken() || (Valid() && delivered == old(delivered) && old(frames) <= frames)
      ensures old(CleanInput()) ==> !r.Broken() && CleanInput()
      ensures r == DecryptionError ==> Rejected()
      ensures r == OutOfRange ==> Overfull()
      ensures r == Pending ==> cleartext.Data() == [] && Settled()
      ensures r == Pending && reader.eager ==> reader.wire == [] && !reader.closed
      ensures r == Ready(true) ==> reader.closed && reader.wire == []
      ensures r == Ready(true) ==> cleartext.Data() == [] && ciphertext.Data() == []
      ensures r == Ready(false) && old(CleanInput()) && wanted != Some(0) ==> cleartext.Data() != []
      ensures r == Spins ==> Stuck(Amount(wanted))
      ensures r == Spins ==> old(Promised()) < Amount(wanted) && |old(Withheld())| < 2 * MAX_CHUNK_SIZE
      ensures old(CleanInput()) && (r.Ready? || r == Spins) && wanted != Some(0) ==>
                (r == Ready(true) <==> old(NothingLeft()))
      ensures reader.eager ==> r != IoError
      ensures r == Ready(false) && reader.eager ==>
                || Amount(wanted) <= |cleartext.Data()| || ciphertext.SpareCapacityLen() == 0
                || (reader.wire == [] && !reader.closed)
      ensures !r.Broken() ==> |cleartext.Data()| <= old(Promised())
      ensures r == Pending || r == IoError ==>
                reader.refused == old(reader.refused) + 1 && |cleartext.Data()| < Amount(wanted)
      ensures (reader.eager && r == Pending) || r == Ready(true) ==> old(Promised()) == 0
      ensures (reader.eager || reader.refused == old(reader.refused)) && r == Ready(false) ==>
                Amount(wanted) <= |cleartext.Data()| || |cleartext.Data()| == old(Promised())
      ensures wanted == Some(0) && !r.Broken() ==> r == Ready(false) && Settled() && unchanged(reader)
      ensures wanted == Some(0) && old(CleanInput()) ==> (cleartext.Data() == [] <==> old(NoCleartextAhead()))
      ensures old(CleanInput() && AtHand()) ==>
                || r == old(Outcome(Amount(wanted)))
                || (old(Outcome(Amount(wanted))) == Spins && r == Ready(false) &&
                    ciphertext.SpareCapacityLen() == 0 && !old(FitsBuffer()))
    {
      hide Rejected, Overfull, Promised, Withheld, Ledger, Clean, Settled, FromBigEndian, Parse, Flat, Fitting, Unfitting, Decodes, aead.Lawful;
      ghost var frames0, head0, clear0, inc0 := frames, head, cleartext.Data(), Incoming();
      ghost var cipher0 := ciphertext.Data();
      Books();
      r := ReadUntil(Amount(wanted));
      if !r.Broken() {
        LeavesPromised(Amount(wanted), r, reader.refused == old(reader.refused));
      }
      if old(CleanInput()) && (r.Ready? || r == Spins) && wanted != Some(0) {
        if r == Spins && cleartext.Data() == [] {
          CleanFits();
        }
        assert r == Spins || r.value || r == Ready(false);
        Verdict(frames0, head0, inc0, clear0);
      }
      if wanted == Some(0) && old(CleanInput()) {
        Books();
        assert frames == frames0 + frames[|frames0|..];
        if cleartext.Data() == [] {
          CleanFits();
        }
        EndVerdict(aead, frames0, head0, cipher0, delivered, clear0,
                   frames[|frames0|..], head, ciphertext.Data(), cleartext.Data());
      }
    }

    /**
     * Reading in pieces refines parsing at once, whatever the peer sends and however it is
     * cut: what is delivered or buffered as cleartext is the plaintext of a prefix of the
     * frames found by parsing all bytes ever sent.
     */
    lemma RefinesOneShotParsing()
      requires Valid()
      ensures var all := Parse(aead, 0, reader.sent);
              |frames| <= |all.plain| && delivered + cleartext.Data() == Flat(all.plain[..|frames|])
    {
      hide Ledger, Parse, Decodes, Flat, aead.Lawful;
      Books();
      var ahead := Parse(aead, |frames|, Incoming());
      DecodesThenParse(aead, 0, head, frames, Incoming());
      assert (frames + ahead.plain)[..|frames|] == frames;
    }

    /** Copies up to `n` bytes of cleartext to the caller. */
    method PollRead(n: nat) returns (r: ReadPoll<Bytes>)
      requires Valid()
      modifies this, cleartext, ciphertext, reader`wire, reader`taken, reader`refused
      ensures old(reader.refused) <= reader.refused <= old(reader.refused) + 1
      ensures r.Broken() || (Valid() && old(frames) <= frames)
      ensures !r.Broken() ==> delivered == old(delivered) + (if r.Ready? then r.value else [])
      ensures old(CleanInput()) ==> !r.Broken() && CleanInput()
      ensures r == DecryptionError ==> Rejected()
      ensures r == OutOfRange ==> Overfull()
      ensures r.Ready? ==> |r.value| <= n && (|r.value| < n ==> cleartext.Data() == [])
      ensures r == Ready([]) && n != 0 && old(CleanInput()) ==>
                reader.closed && reader.wire == [] && ciphertext.Data() == [] && cleartext.Data() == []
      ensures r == Pending ==> cleartext.Data() == [] && Settled()
      ensures r == Pending && reader.eager ==> reader.wire == [] && !reader.closed
      ensures r == Spins ==> Stuck(Amount(Some(n)))
      ensures r == Spins ==> old(Promised()) < Amount(Some(n)) && |old(Withheld())| < 2 * MAX_CHUNK_SIZE
      ensures old(CleanInput()) && (r.Ready? || r == Spins) && n != 0 ==> (r == Ready([]) <==> old(NothingLeft()))
      ensures reader.eager ==> r != IoError
      ensures n == 0 && old(CleanInput()) ==> r == Ready([]) && (cleartext.Data() == [] <==> old(NoCleartextAhead()))
      ensures r == Spins ==> old(Promised()) < n
      ensures r.Ready? ==> |r.value| <= old(Promised())
      ensures r == Pending || r == IoError ==>
                reader.refused == old(reader.refused) + 1 && |cleartext.Data()| < n
      ensures r.Ready? && (reader.eager || reader.refused == old(reader.refused)) ==>
                |r.value| == if n <= old(Promised()) then n else old(Promised())
      ensures r == Pending && reader.eager ==> n != 0 && old(Promised()) == 0
      ensures old(CleanInput() && AtHand()) ==> r.Ready? || r == Spins
      ensures old(CleanInput() && AtHand()) && old(!NothingLeft() && Promised() < n) ==>
                r == Spins || (ciphertext.SpareCapacityLen() == 0 && !old(FitsBuffer()))
    {
      hide Rejected, Overfull, Ledger, Clean, Settled, Peek, Parse, Flat, Fitting, Unfitting, aead.Lawful;
      PromisedIsBelowCapacity();
      var eof := ReadIfNecessary(Some(n));
      match eof {
        case Pending => return Pending;
        case IoError => return IoError;
        case Spins => return Spins;
        case DecryptionError => return DecryptionError;
        case OutOfRange => return OutOfRange;
        case Ready(true) => return Ready([]);
        case Ready(false) =>
          var chunk := cleartext.Data();
          var num := if n < |chunk| then n else |chunk|;
          Consume(num);
          return Ready(chunk[..num]);
      }
    }

    /** Shows the caller the cleartext at hand; empty at the end of the stream. */
    method PollFillBuf() returns (r: ReadPoll<Bytes>)
      requires Valid()
      modifies this, cleartext, ciphertext, reader`wire, reader`taken, reader`refused
      ensures old(reader.refused) <= reader.refused <= old(reader.refused) + 1
      ensures r.Broken() || (Valid() && old(frames) <= frames && delivered == old(delivered))
      ensures old(CleanInput()) ==> !r.Broken() && CleanInput()
      ensures r == DecryptionError ==> Rejected()
      ensures r == OutOfRange ==> Overfull()
      ensures r.Ready? ==> r.value == cleartext.Data()
      ensures r == Ready([]) && old(CleanInput()) ==>
                reader.closed && reader.wire == [] && ciphertext.Data() == []
      ensures r.Ready? ==> |r.value| <= old(Promised())
      ensures r == Pending || r == IoError ==> reader.refused == old(reader.refused) + 1
      ensures r.Ready? && (reader.eager || reader.refused == old(reader.refused)) ==>
                |r.value| == old(Promised())
      ensures r == Pending && reader.eager ==> old(Promised()) == 0
      ensures r == Pending ==> cleartext.Data() == [] && Settled()
      ensures r == Pending && reader.eager ==> reader.wire == [] && !reader.closed
      ensures reader.eager ==> r != IoError
      ensures r == Spins ==> Stuck(MAX_CHUNK_SIZE) && |old(Withheld())| < 2 * MAX_CHUNK_SIZE
      ensures old(CleanInput()) && (r.Ready? || r == Spins) ==> (r == Ready([]) <==> old(NothingLeft()))
      ensures old(CleanInput() && AtHand()) ==> r.Ready? || r == Spins
      ensures old(CleanInput() && AtHand()) && old(!NothingLeft()) ==>
                r == Spins || (ciphertext.SpareCapacityLen() == 0 && !old(FitsBuffer()))
    {
      hide Rejected, Overfull, Ledger, Clean, Settled, Peek, Parse, Flat, Fitting, Unfitting, aead.Lawful;
      PromisedIsBelowCapacity();
      var eof := ReadIfNecessary(None);
      match eof {
        case Pending => return Pending;
        case IoError => return IoError;
        case Spins => return Spins;
        case DecryptionError => return DecryptionError;
        case OutOfRange => return OutOfRange;
        case Ready(true) => return Ready([]);
        case Ready(false) => return Ready(cleartext.Data());
      }
    }

    /** Tells the reader that the caller is done with `amt` bytes. The source asserts that there are as many. */
    method Consume(amt: nat)
      requires Valid() && amt <= |cleartext.Data()|
      modifies this`delivered, cleartext
      ensures Valid() && cleartext.Data() == old(cleartext.Data())[amt..]
      ensures delivered == old(delivered) + old(cleartext.Data())[..amt]
      ensures Incoming() == old(Incoming())
    {
      hide Ledger, aead.Lawful;
      LedgerDeliver(aead, frames, head, reader.taken, ciphertext.Data(), delivered, cleartext.Data(), amt);
      delivered := delivered + cleartext.Data()[..amt];
      cleartext.AdvanceCursor(amt);
    }
  }
}
