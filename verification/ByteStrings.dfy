/** Byte sequences, big-endian lengths and concatenation of chunks. */
module ByteStrings {

  type Byte = b: int | 0 <= b < 256

  type Bytes = seq<Byte>

  datatype Option<+T> = None | Some(value: T)

  /** The four bytes of `u32::to_be_bytes`; a number of more than 32 bits is cut to its low 32. */
  function BigEndian(n: nat): (r: Bytes)
    ensures |r| == 4
  {
    [n / 16777216 % 256, n / 65536 % 256, n / 256 % 256, n % 256]
  }

  /** `u32::from_be_bytes`. */
  function FromBigEndian(b: Bytes): (n: nat)
    requires |b| == 4
    ensures n < 0x1_0000_0000
  {
    var n0: int, n1: int, n2: int := b[0], b[1], b[2];
    n0 * 16777216 + n1 * 65536 + n2 * 256 + b[3]
  }

  lemma BigEndianRoundTrip(n: nat)
    requires n < 0x1_0000_0000
    ensures FromBigEndian(BigEndian(n)) == n
  {
    var q1, q2, q3 := n / 256, n / 65536, n / 16777216;
    assert n == 256 * q1 + n % 256;
    assert q2 == q1 / 256 && q1 == 256 * q2 + q1 % 256;
    assert q3 == q2 / 256 && q2 == 256 * q3 + q2 % 256;
    assert q3 % 256 == q3;
  }

  /** `a` comes before `b` in the order of words, byte by byte. */
  ghost predicate Earlier(a: Bytes, b: Bytes) {
    exists i :: 0 <= i < |a| && i < |b| && a[..i] == b[..i] && a[i] < b[i]
  }

  /** Most significant byte first: lengths are ordered as the words of their bytes are. */
  lemma BigEndianOrder(m: nat, n: nat)
    requires m < 0x1_0000_0000 && n < 0x1_0000_0000
    ensures m < n <==> Earlier(BigEndian(m), BigEndian(n))
  {
    var a, b := BigEndian(m), BigEndian(n);
    BigEndianRoundTrip(m);
    BigEndianRoundTrip(n);
    hide BigEndian, FromBigEndian;
    if Earlier(a, b) {
      WordOrder(a, b);
    }
    if a != b {
      FirstDifference(a, b);
      if Earlier(b, a) {
        WordOrder(b, a);
      }
    }
  }

  lemma {:induction false} FirstDifference(a: Bytes, b: Bytes)
    requires |a| == |b| && a != b
    ensures Earlier(a, b) || Earlier(b, a)
    decreases |a|
  {
    var n := |a| - 1;
    assert a == a[..n] + [a[n]] && b == b[..n] + [b[n]];
    if a[..n] == b[..n] {
      assert a[n] < b[n] || b[n] < a[n];
    } else {
      FirstDifference(a[..n], b[..n]);
      var i :| 0 <= i < n && a[..n][..i] == b[..n][..i] && (a[..n][i] < b[..n][i] || b[..n][i] < a[..n][i]);
      assert a[..i] == a[..n][..i] && b[..i] == b[..n][..i];
    }
  }

  lemma WordOrder(a: Bytes, b: Bytes)
    requires |a| == |b| == 4 && Earlier(a, b)
    ensures FromBigEndian(a) < FromBigEndian(b)
  {
    var i :| 0 <= i < 4 && a[..i] == b[..i] && a[i] < b[i];
    assert forall j :: 0 <= j < i ==> a[j] == a[..i][j] == b[j];
  }

  function Min(a: nat, b: nat): (m: nat)
    ensures m <= a && m <= b && (m == a || m == b)
  {
    if a <= b then a else b
  }

  /** The chunks of `ps`, one after the other. */
  function Flat(ps: seq<Bytes>): Bytes {
    if ps == [] then [] else ps[0] + Flat(ps[1..])
  }

  lemma {:induction false} FlatAppend(ps: seq<Bytes>, qs: seq<Bytes>)
    ensures Flat(ps + qs) == Flat(ps) + Flat(qs)
  {
    if ps == [] {
      assert ps + qs == qs;
    } else {
      assert (ps + qs)[1..] == ps[1..] + qs;
      FlatAppend(ps[1..], qs);
    }
  }

  lemma FlatSnoc(ps: seq<Bytes>, p: Bytes)
    ensures Flat(ps + [p]) == Flat(ps) + p
  {
    FlatAppend(ps, [p]);
    assert Flat([p]) == p + Flat([][..]);
  }
}
