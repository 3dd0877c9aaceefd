/** The fixed-capacity buffer behind the encrypted reader and writer. */
module HelperBuffer {
  import opened ByteStrings

  const MAX_CHUNK_SIZE: nat := 8192
  const CIPHERTEXT_OVERHEAD: nat := 16

  /**
   * A handle of the `bytes` library on the block [start, start + cap) of one allocation,
   * of which the first |data| bytes are initialised.
   */
  datatype BytesMut = BytesMut(start: nat, data: Bytes, cap: nat) {

    ghost predicate Fits() {
      |data| <= cap
    }

    /** Two handles on [0, at) and [at, cap) of this block. */
    function SplitOff(at: nat): (BytesMut, BytesMut)
      requires at <= cap
    {
      var cut := if at <= |data| then at else |data|;
      (BytesMut(start, data[..cut], at), BytesMut(start + at, data[cut..], cap - at))
    }

    /** Appends in place while the block has room; otherwise moves to a larger block. */
    function Extend(s: Bytes): (r: BytesMut)
      ensures r.data == data + s && (Fits() ==> r.Fits() && cap <= r.cap)
    {
      if |data| + |s| <= cap then BytesMut(start, data + s, cap)
      else BytesMut(0, data + s, |data| + |s|)
    }

    /** Joins two handles: capacities add up only when the blocks touch. */
    function Unsplit(other: BytesMut): (r: BytesMut)
      ensures Fits() && other.Fits() ==> r.data == data + other.data && r.Fits()
    {
      if data == [] then other
      else if other.cap == 0 then this
      else if start + |data| == other.start then BytesMut(start, data + other.data, cap + other.cap)
      else Extend(other.data)
    }
  }

  /**
   * Splitting a buffer inside its data, rewriting the second half within its capacity and
   * joining the halves again gives back the very same block with the very same capacity.
   */
  lemma SplitThenUnsplit(b: BytesMut, at: nat, d: Bytes)
    requires b.Fits() && at <= |b.data| && |d| <= b.cap - at
    ensures var (left, right) := b.SplitOff(at);
            left.Unsplit(right.(data := d)) == BytesMut(b.start, b.data[..at] + d, b.cap)
  {
    var (left, right) := b.SplitOff(at);
    if at == 0 {
      assert b.data[..at] + d == d;
    } else if right.cap == 0 {
      assert b.data[..at] + d == b.data[..at];
    }
  }

  class HelperBuf {
    var buf: BytesMut
    var cursor: nat

    /** Within capacity, and the cursor never rests at the end of a non-empty buffer. */
    ghost predicate Tidy()
      reads this
    {
      buf.Fits() && cursor <= |buf.data| && (cursor == |buf.data| ==> cursor == 0)
    }

    /** The unread bytes. */
    function Data(): Bytes
      requires cursor <= |buf.data|
      reads this
    {
      buf.data[cursor..]
    }

    function SpareCapacityLen(): nat
      requires buf.Fits()
      reads this
    {
      buf.cap - |buf.data|
    }

    constructor WithCapacity(capacity: nat)
      ensures Tidy() && buf.cap == capacity && buf.data == [] && cursor == 0
    {
      buf := BytesMut(0, [], capacity);
      cursor := 0;
    }

    /** Drops `n` unread bytes. The source asserts that there are as many. */
    method AdvanceCursor(n: nat)
      requires Tidy() && n <= |Data()|
      modifies this
      ensures Tidy() && buf.cap == old(buf.cap) && buf.start == old(buf.start)
      ensures Data() == old(Data())[n..]
      ensures |buf.data| <= old(|buf.data|)
      ensures n < old(|Data()|) ==> buf == old(buf) && cursor == old(cursor) + n
      ensures n == old(|Data()|) ==> buf.data == [] && cursor == 0
    {
      cursor := cursor + n;
      if cursor == |buf.data| {
        cursor := 0;
        buf := buf.(data := []);
      }
    }

    /** Appends bytes, as the reader's `set_len` after an inner read does. */
    method Append(s: Bytes)
      requires Tidy() && |s| <= SpareCapacityLen()
      modifies this`buf
      ensures Tidy() && buf.cap == old(buf.cap) && buf.start == old(buf.start)
      ensures buf.data == old(buf.data) + s
    {
      buf := buf.Extend(s);
    }

    /**
     * Moves the unread bytes to the front. The source copies them into the part before the
     * cursor, so they must not be longer than that part.
     */
    method Wrap()
      requires Tidy() && |Data()| <= cursor
      modifies this
      ensures Tidy() && buf.cap == old(buf.cap) && cursor == 0
      ensures Data() == old(Data())
      ensures |buf.data| == old(|buf.data| - cursor)
    {
      var blank, data := buf.data[..cursor], buf.data[cursor..];
      var dataLen := |data|;
      blank := data + blank[dataLen..];
      buf := buf.(data := (blank + data)[..dataLen]);
      cursor := 0;
    }
  }
}
