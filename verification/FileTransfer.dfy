/** Offering, choosing and transferring files over one undelimited byte stream. */
module FileTransfer {
  import opened ByteStrings

  type Path = seq<string>

  datatype FileMeta = FileMeta(path: Path, size: nat)

  datatype LocalFileMeta = LocalFileMeta(localPath: Path, publicPath: Path, size: nat)

  /** What the sender offers of its files. */
  function Metas(files: seq<LocalFileMeta>): (ms: seq<FileMeta>)
    ensures |ms| == |files|
    ensures forall i :: 0 <= i < |files| ==> ms[i] == FileMeta(files[i].publicPath, files[i].size)
  {
    seq(|files|, i requires 0 <= i < |files| => FileMeta(files[i].publicPath, files[i].size))
  }

  /** The files paired with an accepting answer; files without an answer and answers without a file count for nothing. */
  function Selected<T>(files: seq<T>, chosen: seq<bool>): seq<T> {
    if files == [] || chosen == [] then []
    else (if chosen[0] then [files[0]] else []) + Selected(files[1..], chosen[1..])
  }

  /** How many of the first `i` answers accept. */
  function Rank(chosen: seq<bool>, i: nat): nat
    requires i <= |chosen|
    decreases i
  {
    if i == 0 then 0 else Rank(chosen, i - 1) + (if chosen[i - 1] then 1 else 0)
  }

  lemma {:induction false} RankTail(chosen: seq<bool>, i: nat)
    requires 0 < i <= |chosen|
    ensures Rank(chosen, i) == (if chosen[0] then 1 else 0) + Rank(chosen[1..], i - 1)
  {
    if i != 1 {
      RankTail(chosen, i - 1);
    }
  }

  /** Exactly the accepted files are selected: each comes after as many files as were accepted before it. */
  lemma {:induction false} SelectedByRank<T>(files: seq<T>, chosen: seq<bool>, i: nat)
    requires i <= |files| && i <= |chosen|
    ensures Rank(chosen, i) <= |Selected(files, chosen)|
    ensures i < |files| && i < |chosen| && chosen[i] ==>
              Rank(chosen, i) < |Selected(files, chosen)| && Selected(files, chosen)[Rank(chosen, i)] == files[i]
    ensures i == |files| || i == |chosen| ==> |Selected(files, chosen)| == Rank(chosen, i)
  {
    if i != 0 {
      RankTail(chosen, i);
      SelectedByRank(files[1..], chosen[1..], i - 1);
    }
  }

  /** The two ends apply the same answers to the same offer and so select the same files in the same order. */
  lemma {:induction false} BothEndsSelectAlike(files: seq<LocalFileMeta>, chosen: seq<bool>)
    ensures Selected(Metas(files), chosen) == Metas(Selected(files, chosen))
  {
    if files != [] && chosen != [] {
      var rest := files[1..];
      assert Metas(files)[1..] == Metas(rest);
      BothEndsSelectAlike(rest, chosen[1..]);
      var first := if chosen[0] then [files[0]] else [];
      assert Metas(first + Selected(rest, chosen[1..])) == Metas(first) + Metas(Selected(rest, chosen[1..]));
    }
  }

  /** The contents of files on disk, in order. */
  function Contents(disk: map<Path, Bytes>, files: seq<LocalFileMeta>): (cs: seq<Bytes>)
    requires forall i :: 0 <= i < |files| ==> files[i].localPath in disk
    ensures |cs| == |files|
    ensures forall i :: 0 <= i < |files| ==> cs[i] == disk[files[i].localPath]
  {
    seq(|files|, i requires 0 <= i < |files| => disk[files[i].localPath])
  }

  /** The first file that is not there. */
  predicate StopsAt(disk: map<Path, Bytes>, files: seq<LocalFileMeta>, k: int) {
    && 0 <= k < |files| && files[k].localPath !in disk
    && forall i :: 0 <= i < k ==> files[i].localPath in disk
  }

  /** Writes the files to the stream one after the other; stops at one that cannot be opened. */
  method SendFiles(disk: map<Path, Bytes>, files: seq<LocalFileMeta>) returns (sent: Bytes, ok: bool)
    ensures ok <==> forall i :: 0 <= i < |files| ==> files[i].localPath in disk
    ensures ok ==> sent == Flat(Contents(disk, files))
    ensures !ok ==> exists k :: 0 <= k < |files| && StopsAt(disk, files, k) && sent == Flat(Contents(disk, files[..k]))
  {
    sent := [];
    ghost var done: seq<Bytes> := [];
    for k := 0 to |files|
      invariant |done| == k && sent == Flat(done)
      invariant forall i :: 0 <= i < k ==> files[i].localPath in disk && done[i] == disk[files[i].localPath]
    {
      if files[k].localPath !in disk {
        assert done == Contents(disk, files[..k]) && StopsAt(disk, files, k);
        return sent, false;
      }
      var content := disk[files[k].localPath];
      FlatSnoc(done, content);
      sent, done := sent + content, done + [content];
    }
    assert done == Contents(disk, files);
    return sent, true;
  }

  /** The stream cut into pieces of the given sizes, each as long as the stream lasts, and what is left. */
  function Portions(stream: Bytes, sizes: seq<nat>): (seq<Bytes>, Bytes) {
    if sizes == [] then ([], stream)
    else
      var n := Min(sizes[0], |stream|);
      var (parts, rest) := Portions(stream[n..], sizes[1..]);
      ([stream[..n]] + parts, rest)
  }

  function Sizes(files: seq<FileMeta>): (ns: seq<nat>)
    ensures |ns| == |files| && forall i :: 0 <= i < |files| ==> ns[i] == files[i].size
  {
    seq(|files|, i requires 0 <= i < |files| => files[i].size)
  }

  lemma {:induction false} PortionsStep(stream: Bytes, done: seq<nat>, n: nat)
    ensures var (parts, rest) := Portions(stream, done);
            var m := Min(n, |rest|);
            Portions(stream, done + [n]) == (parts + [rest[..m]], rest[m..])
  {
    if done == [] {
      assert done + [n] == [n] && [n][1..] == [];
      var x := stream[..Min(n, |stream|)];
      assert [x] + [] == [] + [x];
    } else {
      var k := Min(done[0], |stream|);
      assert (done + [n])[1..] == done[1..] + [n];
      PortionsStep(stream[k..], done[1..], n);
      var (parts, rest) := Portions(stream[k..], done[1..]);
      var x := rest[..Min(n, |rest|)];
      assert [stream[..k]] + (parts + [x]) == [stream[..k]] + parts + [x];
    }
  }

  /** Reads each file's size from the stream and saves it under the file's path. */
  method ReceiveFiles(stream: Bytes, files: seq<FileMeta>) returns (saved: seq<Bytes>, rest: Bytes)
    ensures (saved, rest) == Portions(stream, Sizes(files))
  {
    saved, rest := [], stream;
    for k := 0 to |files|
      invariant (saved, rest) == Portions(stream, Sizes(files)[..k])
    {
      PortionsStep(stream, Sizes(files)[..k], files[k].size);
      assert Sizes(files)[..k + 1] == Sizes(files)[..k] + [files[k].size];
      var n := Min(files[k].size, |rest|);
      saved, rest := saved + [rest[..n]], rest[n..];
    }
    assert Sizes(files)[..|files|] == Sizes(files);
  }

  ghost predicate SizesMatch(cs: seq<Bytes>, sizes: seq<nat>) {
    |cs| == |sizes| && forall i :: 0 <= i < |cs| ==> |cs[i]| == sizes[i]
  }

  lemma {:induction false} FlatFirst(cs: seq<Bytes>, tail: Bytes)
    requires cs != []
    ensures |cs[0]| <= |Flat(cs) + tail| && (Flat(cs) + tail)[..|cs[0]|] == cs[0]
    ensures (Flat(cs) + tail)[|cs[0]|..] == Flat(cs[1..]) + tail
  {
    var rest := Flat(cs[1..]);
    assert Flat(cs) + tail == cs[0] + (rest + tail);
  }

  lemma {:induction false} FirstPortion(stream: Bytes, sizes: seq<nat>)
    requires sizes != [] && sizes[0] <= |stream|
    ensures var (parts, rest) := Portions(stream[sizes[0]..], sizes[1..]);
            Portions(stream, sizes) == ([stream[..sizes[0]]] + parts, rest)
  {
  }

  lemma {:induction false} MatchingSizesSplit(cs: seq<Bytes>, sizes: seq<nat>, tail: Bytes)
    requires SizesMatch(cs, sizes)
    ensures Portions(Flat(cs) + tail, sizes) == (cs, tail)
  {
    if cs == [] {
      assert Flat(cs) + tail == tail;
    } else {
      FlatFirst(cs, tail);
      hide Flat, Portions;
      MatchingSizesSplit(cs[1..], sizes[1..], tail);
      FirstPortion(Flat(cs) + tail, sizes);
      assert cs == [cs[0]] + cs[1..];
    }
  }

  lemma {:induction false} FlatCons(p: Bytes, parts: seq<Bytes>, rest: Bytes)
    ensures Flat([p] + parts) + rest == p + (Flat(parts) + rest)
  {
    assert ([p] + parts)[1..] == parts;
  }

  /** The pieces are in order and nothing is lost; each is of its size unless the stream ends in it. */
  lemma {:induction false} PortionsAreThePrefix(stream: Bytes, sizes: seq<nat>)
    ensures var (parts, rest) := Portions(stream, sizes);
            && |parts| == |sizes| && Flat(parts) + rest == stream
            && forall i :: 0 <= i < |parts| ==> |parts[i]| <= sizes[i] && (rest != [] ==> |parts[i]| == sizes[i])
  {
    if sizes != [] {
      var n := Min(sizes[0], |stream|);
      PortionsAreThePrefix(stream[n..], sizes[1..]);
      var (parts, rest) := Portions(stream[n..], sizes[1..]);
      hide Portions;
      FlatCons(stream[..n], parts, rest);
    }
  }

  /** The receiver gets the files and leaves the chat, whatever the chat is. */
  ghost predicate Aligned(cs: seq<Bytes>, sizes: seq<nat>) {
    forall chat: Bytes :: Portions(Flat(cs) + chat, sizes) == (cs, chat)
  }

  /** The two ends stay aligned exactly when every file still has the size that was offered. */
  lemma AlignedExactly(cs: seq<Bytes>, sizes: seq<nat>)
    requires |cs| == |sizes|
    ensures Aligned(cs, sizes) <==> SizesMatch(cs, sizes)
  {
    if SizesMatch(cs, sizes) {
      forall chat: Bytes
        ensures Portions(Flat(cs) + chat, sizes) == (cs, chat)
      {
        MatchingSizesSplit(cs, sizes, chat);
      }
    }
    if Aligned(cs, sizes) {
      var chat: Bytes := [0];
      PortionsAreThePrefix(Flat(cs) + chat, sizes);
      assert Portions(Flat(cs) + chat, sizes) == (cs, chat);
    }
  }

  /**
   * The whole transfer, for every offer and every answer of any length: if the chosen files
   * still have the sizes offered, the receiver saves each of them exactly and the next
   * unread byte is the first of the chat.
   */
  lemma TransferAligned(disk: map<Path, Bytes>, files: seq<LocalFileMeta>, chosen: seq<bool>, chat: Bytes)
    requires var fs := Selected(files, chosen);
             forall i :: 0 <= i < |fs| ==> fs[i].localPath in disk && |disk[fs[i].localPath]| == fs[i].size
    ensures var contents := Contents(disk, Selected(files, chosen));
            Portions(Flat(contents) + chat, Sizes(Selected(Metas(files), chosen))) == (contents, chat)
  {
    BothEndsSelectAlike(files, chosen);
    MatchingSizesSplit(Contents(disk, Selected(files, chosen)), Sizes(Selected(Metas(files), chosen)), chat);
  }

  // ---------- The receiver's choice ----------

  /** The sizes of the files already saved. */
  type Saved = map<Path, nat>

  predicate FileExists(saved: Saved, f: FileMeta) {
    f.path in saved && saved[f.path] == f.size
  }

  /** A file counts as saved only at its path and with its size. */
  lemma FileExistsExactly(saved: Saved, f: FileMeta)
    ensures FileExists(saved, f) <==> (f.path, f.size) in saved.Items
  {
  }

  function NewFiles(saved: Saved, files: seq<FileMeta>): seq<FileMeta> {
    if files == [] then []
    else (if FileExists(saved, files[0]) then [] else [files[0]]) + NewFiles(saved, files[1..])
  }

  function Repeat(b: bool, n: nat): (m: seq<bool>)
    ensures |m| == n && forall i :: 0 <= i < n ==> m[i] == b
  {
    seq(n, _ => b)
  }

  lemma {:induction false} NewFilesSnoc(saved: Saved, files: seq<FileMeta>, f: FileMeta)
    ensures NewFiles(saved, files + [f]) == NewFiles(saved, files) + (if FileExists(saved, f) then [] else [f])
  {
    if files == [] {
      assert files + [f] == [f] && [f][1..] == [];
    } else {
      assert (files + [f])[1..] == files[1..] + [f];
      NewFilesSnoc(saved, files[1..], f);
    }
  }

  /** The positions of the files offered that are not saved at their path with their size. */
  ghost function Missing(saved: Saved, files: seq<FileMeta>): set<int> {
    set i | 0 <= i < |files| && (files[i].path, files[i].size) !in saved.Items
  }

  lemma MissingSnoc(saved: Saved, files: seq<FileMeta>, f: FileMeta)
    ensures Missing(saved, files + [f]) == Missing(saved, files) + if (f.path, f.size) in saved.Items then {} else {|files|}
  {
    var all := files + [f];
    forall i: int
      ensures i in Missing(saved, all) <==> i in Missing(saved, files) || (i == |files| && (f.path, f.size) !in saved.Items)
    {
      assert 0 <= i < |files| ==> all[i] == files[i];
    }
  }

  lemma {:induction false} NewFilesAreMissing(saved: Saved, files: seq<FileMeta>)
    ensures |NewFiles(saved, files)| == |Missing(saved, files)|
  {
    if files == [] {
      assert Missing(saved, files) == {};
    } else {
      var front, f := files[..|files| - 1], files[|files| - 1];
      assert files == front + [f];
      NewFilesAreMissing(saved, front);
      NewFilesSnoc(saved, front, f);
      FileExistsExactly(saved, f);
      MissingSnoc(saved, front, f);
      assert |front| !in Missing(saved, front);
      hide NewFiles, FileExists, Missing;
    }
  }

  /** The answer to an offer, by the option the user types; an entry is pushed only for a new file. */
  method ConfirmReceive(saved: Saved, files: seq<FileMeta>, response: string) returns (chosen: seq<bool>)
    ensures response == "2" ==> chosen == Repeat(true, |NewFiles(saved, files)|)
    ensures response == "2" ==> |chosen| == |Missing(saved, files)|
    ensures response == "3" ==> chosen == Repeat(true, |files|)
    ensures response != "2" && response != "3" ==> chosen == Repeat(false, |files|)
  {
    var newFiles: seq<bool> := [];
    for k := 0 to |files|
      invariant newFiles == Repeat(true, |NewFiles(saved, files[..k])|)
    {
      NewFilesSnoc(saved, files[..k], files[k]);
      assert files[..k + 1] == files[..k] + [files[k]];
      if !FileExists(saved, files[k]) {
        newFiles := newFiles + [true];
      }
    }
    assert files[..|files|] == files;
    NewFilesAreMissing(saved, files);
    if response == "2" {
      return newFiles;
    } else if response == "3" {
      return Repeat(true, |files|);
    }
    return Repeat(false, |files|);
  }

  lemma {:induction false} SelectedByTrues<T>(files: seq<T>, k: nat)
    requires k <= |files|
    ensures Selected(files, Repeat(true, k)) == files[..k]
  {
    if k != 0 {
      assert Repeat(true, k)[1..] == Repeat(true, k - 1);
      SelectedByTrues(files[1..], k - 1);
      assert files[..k] == [files[0]] + files[1..][..k - 1];
    }
  }

  lemma {:induction false} SelectedByFalses<T>(files: seq<T>, k: nat)
    ensures Selected(files, Repeat(false, k)) == []
  {
    if k != 0 && files != [] {
      assert Repeat(false, k)[1..] == Repeat(false, k - 1);
      SelectedByFalses(files[1..], k - 1);
    }
  }

  lemma {:induction false} NewFilesAreNew(saved: Saved, files: seq<FileMeta>)
    ensures |NewFiles(saved, files)| <= |files|
    ensures forall i :: 0 <= i < |NewFiles(saved, files)| ==> !FileExists(saved, NewFiles(saved, files)[i])
  {
    if files != [] {
      NewFilesAreNew(saved, files[1..]);
    }
  }

  lemma PrefixCons<T>(files: seq<T>, k: nat, more: seq<T>)
    requires 0 < k <= |files|
    ensures [files[0]] + (files[1..][..k - 1] + more) == files[..k] + more
  {
    assert files[..k] == [files[0]] + files[1..][..k - 1];
  }

  lemma {:induction false} LeadingNewFiles(saved: Saved, files: seq<FileMeta>, k: nat)
    requires k <= |files| && forall i :: 0 <= i < k ==> !FileExists(saved, files[i])
    ensures NewFiles(saved, files) == files[..k] + NewFiles(saved, files[k..])
  {
    if k == 0 {
      assert files[k..] == files;
    } else {
      var tail := files[1..];
      assert NewFiles(saved, files) == [files[0]] + NewFiles(saved, tail);
      hide NewFiles;
      LeadingNewFiles(saved, tail, k - 1);
      assert tail[k - 1..] == files[k..];
      PrefixCons(files, k, NewFiles(saved, files[k..]));
    }
  }

  /** Files of which all from the i-th on are saved have at most i new ones. */
  lemma {:induction false} NewFilesBefore(saved: Saved, files: seq<FileMeta>, i: nat)
    requires i <= |files| && forall j :: i <= j < |files| ==> FileExists(saved, files[j])
    ensures |NewFiles(saved, files)| <= i
  {
    if files != [] {
      NewFilesBefore(saved, files[1..], if i == 0 then 0 else i - 1);
    }
  }

  lemma {:induction false} NoNewFiles(saved: Saved, files: seq<FileMeta>, j: nat)
    requires NewFiles(saved, files) == [] && j < |files|
    ensures FileExists(saved, files[j])
  {
    if j != 0 {
      NoNewFiles(saved, files[1..], j - 1);
    }
  }

  /** No file that is already saved comes before a new one. */
  ghost predicate NewFirst(saved: Saved, files: seq<FileMeta>) {
    forall i, j :: 0 <= i < j < |files| && FileExists(saved, files[i]) ==> FileExists(saved, files[j])
  }

  /** That is so exactly when the first k files are new, where k is how many are new in all. */
  lemma NewFirstExactly(saved: Saved, files: seq<FileMeta>)
    ensures NewFirst(saved, files) <==>
            forall i :: 0 <= i < |NewFiles(saved, files)| <= |files| ==> !FileExists(saved, files[i])
  {
    var k := |NewFiles(saved, files)|;
    hide NewFiles;
    NewFilesAreNew(saved, files);
    if NewFirst(saved, files) {
      forall i | 0 <= i < k
        ensures !FileExists(saved, files[i])
      {
        if FileExists(saved, files[i]) {
          NewFilesBefore(saved, files, i);
        }
      }
    } else if forall i :: 0 <= i < k ==> !FileExists(saved, files[i]) {
      LeadingNewFiles(saved, files, k);
      forall j | k <= j < |files|
        ensures FileExists(saved, files[j])
      {
        NoNewFiles(saved, files[k..], j - k);
      }
    }
  }

  /**
   * Option 2 selects the first k offered files, where k is how many are new. These are the
   * new ones exactly when no file that is already saved comes before a new one.
   */
  lemma OptionTwoExactly(saved: Saved, files: seq<FileMeta>)
    ensures var k := |NewFiles(saved, files)|;
            && k <= |files|
            && Selected(files, Repeat(true, k)) == files[..k]
            && (Selected(files, Repeat(true, k)) == NewFiles(saved, files) <==> NewFirst(saved, files))
  {
    var k := |NewFiles(saved, files)|;
    NewFilesAreNew(saved, files);
    SelectedByTrues(files, k);
    NewFirstExactly(saved, files);
    if forall i :: 0 <= i < k ==> !FileExists(saved, files[i]) {
      LeadingNewFiles(saved, files, k);
    }
    if files[..k] == NewFiles(saved, files) {
      assert forall i :: 0 <= i < k ==> files[i] == NewFiles(saved, files)[i];
    }
  }

  /** The smallest offer on which option 2 goes wrong: a saved file, then a new one. */
  lemma OptionTwoCanPickTheWrongFile(a: FileMeta, b: FileMeta)
    requires a.path != b.path
    ensures var saved := map[a.path := a.size];
            && NewFiles(saved, [a, b]) == [b]
            && Selected([a, b], Repeat(true, 1)) == [a]
  {
    var saved := map[a.path := a.size];
    assert [a, b][1..] == [b] && [b][1..] == [];
    assert NewFiles(saved, [b]) == [b];
    SelectedByTrues([a, b], 1);
  }
}
