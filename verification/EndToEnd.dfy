/** Files chosen by the peer, sent through the encrypted link and saved at the other end. */
module EndToEnd {
  import opened ByteStrings
  import opened FileTransfer
  import opened Session

  lemma {:induction false} SameLengths(a: seq<Bytes>, b: seq<Bytes>)
    requires |a| == |b| && forall i :: 0 <= i < |a| ==> |a[i]| == |b[i]|
    ensures |Flat(a)| == |Flat(b)|
  {
    if a != [] {
      SameLengths(a[1..], b[1..]);
    }
  }

  /** Pieces of the sizes of the files, taken from the front of the files and the chat, are the files. */
  lemma PiecesAreFiles(saved: seq<Bytes>, tail: Bytes, contents: seq<Bytes>, chat: Bytes, sizes: seq<nat>)
    requires SizesMatch(saved, sizes) && SizesMatch(contents, sizes)
    requires Flat(saved) + tail == Flat(contents) + chat
    ensures saved == contents && tail == chat
  {
    hide Flat;
    MatchingSizesSplit(saved, sizes, tail);
    MatchingSizesSplit(contents, sizes, chat);
  }

  /** Before file `k` there are as many bytes taken as the files before it have, so file `k` is still ahead. */
  lemma StillAhead(contents: seq<Bytes>, sizes: seq<nat>, saved: seq<Bytes>)
    requires SizesMatch(contents, sizes) && |saved| < |sizes| && SizesMatch(saved, sizes[..|saved|])
    ensures |Flat(saved)| + sizes[|saved|] <= |Flat(contents)|
  {
    var k := |saved|;
    SameLengths(saved, contents[..k]);
    hide Flat;
    assert contents[..k + 1] == contents[..k] + [contents[k]];
    FlatSnoc(contents[..k], contents[k]);
    assert contents == contents[..k + 1] + contents[k + 1..];
    FlatAppend(contents[..k + 1], contents[k + 1..]);
  }

  /** The receiving loop: for each file a `take` of its size from the link, copied to the file. */
  method ReceiveOverLink(link: Link, files: seq<FileMeta>, patience: nat, ghost contents: seq<Bytes>, ghost chat: Bytes)
    returns (r: Finish, saved: seq<Bytes>)
    requires link.Valid() && SizesMatch(contents, Sizes(files))
    requires link.writer.accepted == link.reader.delivered + Flat(contents) + chat
    modifies link.reader, link.reader.cleartext, link.reader.ciphertext, link.pipe
    ensures link.Valid() && r != CounterUsedUp && link.Honest(r, old(link.pipe.refused), patience)
    ensures r == Complete ==> saved == contents && link.writer.accepted == link.reader.delivered + chat
    ensures old(link.pipe.eager && !link.pipe.closed && link.Flushed()) ==> r == Complete
  {
    hide link.Valid, link.Flushed, Flat;
    ghost var before, sizes := link.reader.delivered, Sizes(files);
    saved := [];
    EmptyFlat();
    for k := 0 to |files|
      invariant link.Valid() && |saved| == k && SizesMatch(saved, sizes[..k])
      invariant link.reader.delivered == before + Flat(saved)
      invariant link.pipe.closed == old(link.pipe.closed) && old(link.pipe.refused) <= link.pipe.refused
      invariant old(link.Flushed()) ==> link.Flushed()
    {
      StillAhead(contents, sizes, saved);
      var out;
      r, out := link.CopyBuf(files[k].size, patience);
      if r != Complete {
        return;
      }
      FlatSnoc(saved, out);
      assert before + Flat(saved) + out == before + (Flat(saved) + out);
      saved := saved + [out];
    }
    r := Complete;
    assert sizes[..|files|] == sizes;
    ghost var tail := link.Undelivered();
    Regroup(before, Flat(saved), tail);
    Regroup(before, Flat(contents), chat);
    SameTail(before, Flat(saved) + tail, Flat(contents) + chat);
    PiecesAreFiles(saved, tail, contents, chat, sizes);
  }

  lemma SameTail(before: Bytes, x: Bytes, y: Bytes)
    requires before + x == before + y
    ensures x == y
  {
    assert x == (before + x)[|before|..] && y == (before + y)[|before|..];
  }

  lemma EmptyFlat()
    ensures Flat([]) == []
  {
  }

  /**
   * Sends the chosen files and some chat through the link and receives the files one by
   * one. Over any pipe, whenever this completes the peer has exactly the files, in order, and
   * exactly the chat is still to come; over a pipe that moves bytes when it can it completes,
   * unless the link's counter runs out.
   */
  method TransferOverLink(link: Link, disk: map<Path, Bytes>, files: seq<LocalFileMeta>,
                          chosen: seq<bool>, chat: Bytes, patience: nat)
    returns (r: Finish, saved: seq<Bytes>)
    requires link.Valid() && link.reader.delivered == link.writer.accepted
    requires forall i :: 0 <= i < |Selected(files, chosen)| ==>
               var f := Selected(files, chosen)[i]; f.localPath in disk && |disk[f.localPath]| == f.size
    modifies link.writer, link.writer.bytes, link.reader, link.reader.cleartext, link.reader.ciphertext, link.pipe
    ensures r == CounterUsedUp ==> link.writer.position == link.aead.limit
    ensures link.Honest(r, old(link.pipe.refused), patience)
    ensures r == Complete ==> saved == Contents(disk, Selected(files, chosen))
    ensures r == Complete ==> link.writer.accepted == link.reader.delivered + chat
    ensures old(link.pipe.eager && !link.pipe.closed) ==> r == Complete || r == CounterUsedUp
  {
    hide link.Valid, link.Flushed, Flat;
    ghost var before, contents := link.writer.accepted, Contents(disk, Selected(files, chosen));
    var sent, _ := SendFiles(disk, Selected(files, chosen));
    var n;
    r, n := link.WriteAll(sent + chat, patience);
    if r != Complete {
      return r, [];
    }
    assert (sent + chat)[..n] == sent + chat;
    r := link.FlushAll(patience);
    if r != Complete {
      return r, [];
    }
    BothEndsSelectAlike(files, chosen);
    assert before + (sent + chat) == before + sent + chat;
    r, saved := ReceiveOverLink(link, Selected(Metas(files), chosen), patience, contents, chat);
  }
}
