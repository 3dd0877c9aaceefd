/** The sealed frame format, its one-shot parser and the streams the writer produces. */
module Framing {
  import opened ByteStrings
  import opened HelperBuffer

  /**
   * An authenticated cipher in stream mode under one key and nonce: message number `k` is
   * sealed and opened under counter `k`, and neither side works once the counter is `limit`.
   */
  datatype Aead = Aead(seal: (nat, Bytes) -> Bytes, unseal: (nat, Bytes) -> Option<Bytes>, limit: nat) {

    /** Sealing adds a 16-byte tag, opening strips it, and opening undoes sealing. */
    ghost predicate Lawful() {
      && (forall k: nat, p: Bytes :: |seal(k, p)| == |p| + CIPHERTEXT_OVERHEAD)
      && (forall k: nat, p: Bytes :: unseal(k, seal(k, p)) == Some(p))
      && (forall k: nat, c: Bytes :: unseal(k, c).Some? ==> |unseal(k, c).value| + CIPHERTEXT_OVERHEAD == |c|)
    }
  }

  /** A stand-in that only pads; it shows that the laws can be met. */
  function Padding(limit: nat): Aead {
    var tag := seq(CIPHERTEXT_OVERHEAD, _ => 0);
    Aead((k: nat, p: Bytes) => p + tag,
         (k: nat, c: Bytes) =>
           if |c| < CIPHERTEXT_OVERHEAD || c[|c| - CIPHERTEXT_OVERHEAD..] != tag then None
           else Some(c[..|c| - CIPHERTEXT_OVERHEAD]),
         limit)
  }

  lemma PaddingIsLawful(limit: nat)
    ensures Padding(limit).Lawful() && Padding(limit).limit == limit
  {
    var a := Padding(limit);
    var tag := seq(CIPHERTEXT_OVERHEAD, _ => 0);
    forall k: nat, p: Bytes
      ensures |a.seal(k, p)| == |p| + CIPHERTEXT_OVERHEAD && a.unseal(k, a.seal(k, p)) == Some(p)
    {
      assert (p + tag)[|p|..] == tag && (p + tag)[..|p|] == p;
    }
  }

  /** The most plaintext the writer puts in a frame: header and tag leave 8172 bytes. */
  const MAX_PLAINTEXT: nat := MAX_CHUNK_SIZE - 4 - CIPHERTEXT_OVERHEAD

  /** The longest ciphertext in such a frame. */
  const MAX_BODY: nat := MAX_CHUNK_SIZE - 4

  ghost predicate AllSmall(ps: seq<Bytes>) {
    forall i :: 0 <= i < |ps| ==> |ps[i]| <= MAX_PLAINTEXT
  }

  function Frame(a: Aead, k: nat, p: Bytes): Bytes {
    BigEndian(|a.seal(k, p)|) + a.seal(k, p)
  }

  /** The frames of `ps`, sealed under the counters k, k+1, ... */
  function Stream(a: Aead, k: nat, ps: seq<Bytes>): Bytes
    decreases |ps|
  {
    if ps == [] then [] else Frame(a, k, ps[0]) + Stream(a, k + 1, ps[1..])
  }

  /** The ciphertext of the first frame of `d`, if all of it is there. */
  function Peek(d: Bytes): (r: Option<Bytes>)
    ensures r.Some? ==> 4 + |r.value| <= |d| && r.value == d[4..4 + |r.value|]
  {
    if |d| < 4 then None
    else
      var len := FromBigEndian(d[..4]);
      if 4 + len <= |d| then Some(d[4..4 + len]) else None
  }

  /** `bs` is exactly the frames that open to `ps` under the counters k, k+1, ... */
  ghost predicate Decodes(a: Aead, k: nat, bs: Bytes, ps: seq<Bytes>)
    decreases |ps|
  {
    if ps == [] then bs == []
    else
      && Peek(bs).Some?
      && a.unseal(k, Peek(bs).value) == Some(ps[0])
      && Decodes(a, k + 1, bs[4 + |Peek(bs).value|..], ps[1..])
  }

  datatype Parsed = Parsed(plain: seq<Bytes>, rest: Bytes, failed: bool)

  /** The whole of `d` deframed and opened at once, with what is left over. */
  function Parse(a: Aead, k: nat, d: Bytes): Parsed
    decreases |d|
  {
    match Peek(d)
    case None => Parsed([], d, false)
    case Some(c) =>
      if k == a.limit || a.unseal(k, c).None? then Parsed([], d, true)
      else
        Prepend([a.unseal(k, c).value], Parse(a, k + 1, d[4 + |c|..]))
  }

  /** No frame begun in `d` is longer than the writer's, and every complete one opens. */
  ghost predicate Clean(a: Aead, k: nat, d: Bytes)
    decreases |d|
  {
    |d| < 4 ||
    var len := FromBigEndian(d[..4]);
    && len <= MAX_BODY
    && (|d| < 4 + len ||
        (k < a.limit && a.unseal(k, d[4..4 + len]).Some? && Clean(a, k + 1, d[4 + len..])))
  }

  /** Bytes arriving later do not change a frame that is already complete. */
  lemma PeekExtends(d: Bytes, w: Bytes)
    requires Peek(d).Some?
    ensures Peek(d + w) == Peek(d)
    ensures (d + w)[4 + |Peek(d).value|..] == d[4 + |Peek(d).value|..] + w
  {
    assert (d + w)[..4] == d[..4];
    var len := FromBigEndian(d[..4]);
    assert (d + w)[4..4 + len] == d[4..4 + len];
  }

  lemma PeekFrame(a: Aead, k: nat, p: Bytes, w: Bytes)
    requires a.Lawful() && |p| <= MAX_PLAINTEXT
    ensures |Frame(a, k, p)| == |p| + 20
    ensures Peek(Frame(a, k, p) + w) == Some(a.seal(k, p))
    ensures (Frame(a, k, p) + w)[|p| + 20..] == w
  {
    var body := a.seal(k, p);
    var d := Frame(a, k, p) + w;
    assert d[..4] == BigEndian(|body|);
    BigEndianRoundTrip(|body|);
    assert d[4..4 + |body|] == body;
  }

  /** The writer's side of appending a frame. */
  lemma {:induction false} StreamSnoc(a: Aead, k: nat, ps: seq<Bytes>, p: Bytes)
    ensures Stream(a, k, ps + [p]) == Stream(a, k, ps) + Frame(a, k + |ps|, p)
    decreases |ps|
  {
    var qs := ps + [p];
    if ps == [] {
      assert qs[1..] == [];
      assert Stream(a, k, qs) == Frame(a, k, p) + Stream(a, k + 1, []);
    } else {
      assert qs[1..] == ps[1..] + [p];
      StreamSnoc(a, k + 1, ps[1..], p);
      assert Stream(a, k, qs) == Frame(a, k, ps[0]) + (Stream(a, k + 1, ps[1..]) + Frame(a, k + |ps|, p));
    }
  }

  /** The reader's side of opening one more frame. */
  lemma {:induction false} DecodesSnoc(a: Aead, k: nat, h: Bytes, ps: seq<Bytes>, d: Bytes, p: Bytes)
    requires Decodes(a, k, h, ps)
    requires Peek(d).Some? && a.unseal(k + |ps|, Peek(d).value) == Some(p)
    ensures Decodes(a, k, h + d[..4 + |Peek(d).value|], ps + [p])
    decreases |ps|
  {
    var x := d[..4 + |Peek(d).value|];
    assert x[..4] == d[..4];
    assert x[4..|x|] == Peek(d).value;
    assert Peek(x) == Peek(d);
    var qs := ps + [p];
    if ps == [] {
      assert h + x == x && qs[1..] == [];
    } else {
      PeekExtends(h, x);
      assert qs[1..] == ps[1..] + [p];
      DecodesSnoc(a, k + 1, h[4 + |Peek(h).value|..], ps[1..], d, p);
    }
  }

  /** `d` parsed with the plaintexts `ps` already in hand. */
  function Prepend(ps: seq<Bytes>, d: Parsed): Parsed {
    Parsed(ps + d.plain, d.rest, d.failed)
  }

  lemma PrependCons(ps: seq<Bytes>, d: Parsed)
    requires ps != []
    ensures Prepend([ps[0]], Prepend(ps[1..], d)) == Prepend(ps, d)
  {
    assert [ps[0]] + (ps[1..] + d.plain) == ps + d.plain;
  }

  lemma ParseStep(a: Aead, k: nat, d: Bytes)
    requires Peek(d).Some? && k < a.limit && a.unseal(k, Peek(d).value).Some?
    ensures Parse(a, k, d)
         == Prepend([a.unseal(k, Peek(d).value).value], Parse(a, k + 1, d[4 + |Peek(d).value|..]))
  {
  }

  /** One-shot parsing of a decoded head and any tail starts with the head's plaintexts. */
  lemma {:induction false} DecodesThenParse(a: Aead, k: nat, h: Bytes, ps: seq<Bytes>, t: Bytes)
    requires Decodes(a, k, h, ps) && k + |ps| <= a.limit
    ensures Parse(a, k, h + t) == Prepend(ps, Parse(a, k + |ps|, t))
    decreases |ps|
  {
    hide Peek, Decodes, Parse;
    DecodesUnfold(a, k, h, ps);
    var rest := Parse(a, k + |ps|, t);
    if ps == [] {
      assert h + t == t;
      assert ps + rest.plain == rest.plain;
    } else {
      var h1 := h[4 + |Peek(h).value|..];
      PeekExtends(h, t);
      ParseStep(a, k, h + t);
      DecodesThenParse(a, k + 1, h1, ps[1..], t);
      PrependCons(ps, rest);
    }
  }

  lemma DecodesUnfold(a: Aead, k: nat, h: Bytes, ps: seq<Bytes>)
    requires Decodes(a, k, h, ps)
    ensures ps == [] ==> h == []
    ensures ps != [] ==>
              && Peek(h).Some? && a.unseal(k, Peek(h).value) == Some(ps[0])
              && Decodes(a, k + 1, h[4 + |Peek(h).value|..], ps[1..])
  {
  }

  /**
   * Whatever a reader has decoded from the front of a writer's stream is a prefix of what
   * was sealed, frame by frame and counter by counter, and what it has not decoded is
   * exactly the stream of the remaining frames.
   */
  lemma {:induction false} DecodedPrefixOfStream(a: Aead, k: nat, h: Bytes, os: seq<Bytes>, t: Bytes, ps: seq<Bytes>)
    requires a.Lawful() && AllSmall(ps)
    requires Decodes(a, k, h, os) && h + t == Stream(a, k, ps)
    ensures |os| <= |ps| && os == ps[..|os|]
    ensures t == Stream(a, k + |os|, ps[|os|..])
    decreases |os|
  {
    hide BigEndian, Peek;
    if os == [] {
      assert h + t == t && ps[0..] == ps;
    } else {
      PeekExtends(h, t);
      assert ps != [];
      var s := Stream(a, k + 1, ps[1..]);
      PeekFrame(a, k, ps[0], s);
      DecodedPrefixOfStream(a, k + 1, h[4 + |Peek(h).value|..], os[1..], t, ps[1..]);
      assert ps[..|os|] == [ps[0]] + ps[1..][..|os| - 1];
      assert ps[1..][|os| - 1..] == ps[|os|..];
    }
  }

  /** Any prefix of a writer's stream is clean, wherever the transport has cut it. */
  lemma {:induction false} StreamIsClean(a: Aead, k: nat, ps: seq<Bytes>, d: Bytes)
    requires a.Lawful() && AllSmall(ps) && k + |ps| <= a.limit
    requires d <= Stream(a, k, ps)
    ensures Clean(a, k, d)
    decreases |ps|
  {
    if 4 <= |d| {
      assert ps != [];
      var s := Stream(a, k + 1, ps[1..]);
      PeekFrame(a, k, ps[0], s);
      var all := Frame(a, k, ps[0]) + s;
      assert d[..4] == all[..4];
      var len := FromBigEndian(d[..4]);
      assert len == |ps[0]| + 16;
      if 4 + len <= |d| {
        assert d[4..4 + len] == all[4..4 + len];
        assert d[4 + len..] <= all[4 + len..];
        StreamIsClean(a, k + 1, ps[1..], d[4 + len..]);
      }
    }
  }

  /** Opening the first frame of a clean stream succeeds and leaves a clean stream. */
  lemma CleanStep(a: Aead, k: nat, d: Bytes, w: Bytes)
    requires Clean(a, k, d + w) && Peek(d).Some?
    ensures |Peek(d).value| <= MAX_BODY && k < a.limit && a.unseal(k, Peek(d).value).Some?
    ensures Clean(a, k + 1, d[4 + |Peek(d).value|..] + w)
  {
    PeekExtends(d, w);
  }

  /** An incomplete frame of a clean stream is shorter than half of the ciphertext buffer. */
  lemma IncompleteIsShort(a: Aead, k: nat, d: Bytes, w: Bytes)
    requires Clean(a, k, d + w) && Peek(d).None?
    ensures |d| < MAX_CHUNK_SIZE
  {
    if 4 <= |d| {
      assert (d + w)[..4] == d[..4];
    }
  }

  /** How much plaintext the leading frames of `d` hold that can be opened, one after the other, into `room` bytes. */
  function Fitting(a: Aead, k: nat, room: nat, d: Bytes): (n: nat)
    ensures n <= room
    decreases |d|
  {
    match Peek(d)
    case None => 0
    case Some(c) =>
      if room < |c| || k == a.limit || a.unseal(k, c).None? || |c| < |a.unseal(k, c).value| then 0
      else
        var n := |a.unseal(k, c).value|;
        n + Fitting(a, k + 1, room - n, d[4 + |c|..])
  }

  /** What is left of `d` behind the leading frames that can be opened into `room` bytes. */
  function Unfitting(a: Aead, k: nat, room: nat, d: Bytes): (rest: Bytes)
    ensures |rest| <= |d|
    decreases |d|
  {
    match Peek(d)
    case None => d
    case Some(c) =>
      if room < |c| || k == a.limit || a.unseal(k, c).None? || |c| < |a.unseal(k, c).value| then d
      else
        Unfitting(a, k + 1, room - |a.unseal(k, c).value|, d[4 + |c|..])
  }

  /** Opening a frame that fits moves its plaintext out of what fits, and leaves alone what does not. */
  lemma FittingStep(a: Aead, k: nat, room: nat, d: Bytes, w: Bytes)
    requires a.Lawful() && Peek(d).Some? && |Peek(d).value| <= room
    requires k != a.limit && a.unseal(k, Peek(d).value).Some?
    ensures var c := Peek(d).value;
            var n := |a.unseal(k, c).value|;
            && n <= room && Fitting(a, k, room, d + w) == n + Fitting(a, k + 1, room - n, d[4 + |c|..] + w)
            && Unfitting(a, k, room, d + w) == Unfitting(a, k + 1, room - n, d[4 + |c|..] + w)
  {
    PeekExtends(d, w);
    hide Peek;
  }

  /**
   * Of a writer's stream no more plaintext fits than its frames hold, what does not fit is
   * behind, and with room for all of it and a tag all fits.
   */
  lemma {:induction false} StreamFits(a: Aead, k: nat, room: nat, ps: seq<Bytes>)
    requires a.Lawful() && AllSmall(ps)
    ensures var d := Stream(a, k, ps);
            && Fitting(a, k, room, d) <= |Flat(ps)| <= Fitting(a, k, room, d) + |Unfitting(a, k, room, d)|
            && (k + |ps| <= a.limit && |Flat(ps)| + CIPHERTEXT_OVERHEAD <= room ==> Fitting(a, k, room, d) == |Flat(ps)|)
    decreases |ps|
  {
    hide FromBigEndian, Frame;
    StreamLength(a, k, ps);
    if ps != [] {
      PeekFrame(a, k, ps[0], Stream(a, k + 1, ps[1..]));
      if |ps[0]| <= room {
        StreamFits(a, k + 1, room - |ps[0]|, ps[1..]);
      }
    }
  }

  /** Parsing a writer's whole stream gives the chunks back and leaves nothing. */
  lemma {:induction false} StreamParses(a: Aead, k: nat, ps: seq<Bytes>)
    requires a.Lawful() && AllSmall(ps) && k + |ps| <= a.limit
    ensures Parse(a, k, Stream(a, k, ps)) == Parsed(ps, [], false)
    decreases |ps|
  {
    hide Frame, FromBigEndian;
    if ps != [] {
      PeekFrame(a, k, ps[0], Stream(a, k + 1, ps[1..]));
      ParseStep(a, k, Stream(a, k, ps));
      StreamParses(a, k + 1, ps[1..]);
      assert ps == [ps[0]] + ps[1..];
    }
  }

  /** A frame takes 20 bytes more than its plaintext. */
  lemma {:induction false} StreamLength(a: Aead, k: nat, ps: seq<Bytes>)
    requires a.Lawful()
    ensures |Stream(a, k, ps)| == |Flat(ps)| + 20 * |ps|
    decreases |ps|
  {
    hide BigEndian;
    if ps != [] {
      StreamLength(a, k + 1, ps[1..]);
      assert |Frame(a, k, ps[0])| == |ps[0]| + 20;
    }
  }

  /** What fits leaves room for the tag of the last frame opened. */
  lemma {:induction false} FittingBound(a: Aead, k: nat, room: nat, d: Bytes)
    requires a.Lawful()
    ensures Fitting(a, k, room, d) == 0 || Fitting(a, k, room, d) + CIPHERTEXT_OVERHEAD <= room
    decreases |d|
  {
    hide FromBigEndian;
    if Peek(d).Some? && k != a.limit && a.unseal(k, Peek(d).value).Some? {
      var c := Peek(d).value;
      var n := |a.unseal(k, c).value|;
      if |c| <= room {
        FittingBound(a, k + 1, room - n, d[4 + |c|..]);
      }
    }
  }
}
