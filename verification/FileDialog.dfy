/** Choosing what to send: the overlap check and the directory walk, on a tree without links. */
module FileDialog {
  import opened ByteStrings
  import opened FileTransfer

  type Name = string

  datatype Entry = Entry(name: Name, node: Node)

  /**
   * A file (which may not be readable), a directory (which may not be listable), something
   * else, or a path whose metadata cannot be had.
   */
  datatype Node = File(size: nat, readable: bool) | Dir(entries: seq<Entry>, listable: bool) | Special | Broken

  predicate Overlap(p: Path, q: Path) {
    p <= q || q <= p
  }

  /** Two paths overlap exactly when they name the same things as far as both go: one is at or below the other. */
  lemma OverlapExactly(p: Path, q: Path)
    ensures Overlap(p, q) <==> forall i :: 0 <= i < |p| && i < |q| ==> p[i] == q[i]
  {
    if forall i :: 0 <= i < |p| && i < |q| ==> p[i] == q[i] {
      assert |p| <= |q| ==> p == q[..|p|];
      assert |q| <= |p| ==> q == p[..|q|];
    }
  }

  /** The outcome of the check: nothing overlaps, two paths do, or a path cannot be made canonical. */
  datatype Checked = Clear | Overlapping(i: nat, j: nat) | NotCanonical

  /** The canonical forms of the paths up to `n` are known. */
  ghost predicate Known(paths: seq<Option<Path>>, n: int)
    requires 0 <= n <= |paths|
  {
    forall i :: 0 <= i < n ==> paths[i].Some?
  }

  ghost predicate Clashing(paths: seq<Option<Path>>, i: int, j: int)
    requires 0 <= i < |paths| && 0 <= j < |paths|
  {
    paths[i].Some? && paths[j].Some? && Overlap(paths[i].value, paths[j].value)
  }

  /**
   * What the check should find: the first overlapping pair in the order of the loops, or the
   * first path without a canonical form, whichever is met first.
   */
  ghost predicate Found(paths: seq<Option<Path>>, c: Checked) {
    match c
    case Clear =>
      Known(paths, |paths|) && forall i, j :: 0 <= i < j < |paths| ==> !Clashing(paths, i, j)
    case Overlapping(k, l) =>
      && k < l < |paths| && Clashing(paths, k, l)
      && (if k == 0 then Known(paths, l) else Known(paths, |paths|))
      && forall i, j :: 0 <= i < j < |paths| && (i < k || (i == k && j < l)) ==> !Clashing(paths, i, j)
    case NotCanonical =>
      exists k :: 0 <= k < |paths| && Known(paths, k) && paths[k].None? &&
        (forall j :: 0 < j < k ==> !Clashing(paths, 0, j))
  }

  /** There is never more than one thing to find. */
  lemma FoundIsUnique(paths: seq<Option<Path>>, c: Checked, d: Checked)
    requires Found(paths, c) && Found(paths, d)
    ensures c == d
  {
  }

  /** The check before sending, on the canonical forms of the paths. */
  method FindOverlap(paths: seq<Option<Path>>) returns (r: Checked)
    ensures Found(paths, r)
  {
    for k := 0 to |paths|
      invariant forall i, j :: 0 <= i < j < |paths| && i < k ==> !Clashing(paths, i, j)
      invariant 0 < k ==> Known(paths, |paths|)
    {
      if paths[k].None? {
        assert k == 0 && Known(paths, 0);
        return NotCanonical;
      }
      for l := k + 1 to |paths|
        invariant forall j :: k < j < l ==> !Clashing(paths, k, j)
        invariant Known(paths, l)
      {
        if paths[l].None? {
          assert k == 0 && Known(paths, l);
          return NotCanonical;
        }
        if Overlap(paths[k].value, paths[l].value) {
          assert Clashing(paths, k, l);
          return Overlapping(k, l);
        }
      }
    }
    return Clear;
  }

  // ---------- The walk ----------

  /** The readable files at and below `node`, which is at `path`; public paths lose the first `top` names. */
  function Walk(top: nat, path: Path, node: Node): seq<LocalFileMeta>
    requires top <= |path|
    decreases node, 0
  {
    match node
    case File(size, readable) => if readable then [LocalFileMeta(path, path[top..], size)] else []
    case Dir(entries, _) => WalkAll(top, path, entries)
    case Special => []
    case Broken => []
  }

  /** Something at or below the node makes the walk fail. */
  predicate Fails(node: Node) {
    match node
    case Dir(entries, listable) => !listable || exists i :: 0 <= i < |entries| && Fails(entries[i].node)
    case Broken => true
    case _ => false
  }

  function WalkAll(top: nat, path: Path, entries: seq<Entry>): seq<LocalFileMeta>
    requires top <= |path|
    decreases entries, 1
  {
    if entries == [] then []
    else Walk(top, path + [entries[0].name], entries[0].node) + WalkAll(top, path, entries[1..])
  }

  /** The recursive helper, which appends to the list it is given and stops at the first error. */
  method WalkInto(top: nat, path: Path, node: Node, files: seq<LocalFileMeta>) returns (ok: bool, r: seq<LocalFileMeta>)
    requires top <= |path|
    ensures ok <==> !Fails(node)
    ensures ok ==> r == files + Walk(top, path, node)
    decreases node
  {
    r := files;
    match node {
      case Dir(entries, listable) =>
        if !listable {
          return false, r;
        }
        for k := 0 to |entries|
          invariant r == files + WalkAll(top, path, entries[..k])
          invariant forall i :: 0 <= i < k ==> !Fails(entries[i].node)
        {
          WalkAllSnoc(top, path, entries[..k], entries[k]);
          assert entries[..k + 1] == entries[..k] + [entries[k]];
          assert entries[k].node < node;
          ok, r := WalkInto(top, path + [entries[k].name], entries[k].node, r);
          if !ok {
            return false, r;
          }
        }
        assert entries[..|entries|] == entries;
      case File(size, readable) =>
        if readable {
          r := r + [LocalFileMeta(path, path[top..], size)];
        }
      case Special =>
      case Broken => return false, r;
    }
    return true, r;
  }

  lemma {:induction false} WalkAllSnoc(top: nat, path: Path, entries: seq<Entry>, e: Entry)
    requires top <= |path|
    ensures WalkAll(top, path, entries + [e]) == WalkAll(top, path, entries) + Walk(top, path + [e.name], e.node)
    decreases |entries|
  {
    var all := entries + [e];
    if entries == [] {
      assert all == [e] && all[1..] == [];
    } else {
      assert all[1..] == entries[1..] + [e];
      WalkAllSnoc(top, path, entries[1..], e);
    }
  }

  /** What is at a relative path below a node. */
  function Find(node: Node, rel: Path): Option<Node>
    decreases |rel|
  {
    if rel == [] then Some(node)
    else if !node.Dir? then None
    else FindIn(node.entries, rel)
  }

  function FindIn(entries: seq<Entry>, rel: Path): Option<Node>
    requires rel != []
    decreases |rel|, |entries|
  {
    if entries == [] then None
    else if entries[0].name == rel[0] then Find(entries[0].node, rel[1..])
    else FindIn(entries[1..], rel)
  }

  ghost predicate DistinctNames(entries: seq<Entry>) {
    forall i, j :: 0 <= i < j < |entries| ==> entries[i].name != entries[j].name
  }

  /** No directory has two entries of one name. */
  ghost predicate WellNamed(node: Node) {
    node.Dir? ==>
      DistinctNames(node.entries) && forall i :: 0 <= i < |node.entries| ==> WellNamed(node.entries[i].node)
  }

  ghost predicate AllWellNamed(entries: seq<Entry>) {
    DistinctNames(entries) && forall i :: 0 <= i < |entries| ==> WellNamed(entries[i].node)
  }

  /** The record of the file at `rel` below `path`. */
  function Meta(top: nat, path: Path, rel: Path, size: nat): LocalFileMeta
    requires top <= |path|
  {
    LocalFileMeta(path + rel, path[top..] + rel, size)
  }

  /** A walk lists only files below where it starts, as their records. */
  lemma {:induction false} WalkBelow(top: nat, path: Path, node: Node, f: LocalFileMeta)
    requires top <= |path| && f in Walk(top, path, node)
    ensures path <= f.localPath && f == Meta(top, path, f.localPath[|path|..], f.size)
    decreases node, 0
  {
    match node {
      case Dir(entries, _) =>
        var i := WalkAllBelow(top, path, entries, f);
      case File(_, _) =>
        assert path + [] == path && path[top..] + [] == path[top..];
      case Special =>
      case Broken =>
    }
  }

  lemma {:induction false} WalkAllBelow(top: nat, path: Path, entries: seq<Entry>, f: LocalFileMeta) returns (i: nat)
    requires top <= |path| && f in WalkAll(top, path, entries)
    ensures i < |entries| && path + [entries[i].name] <= f.localPath && f.localPath[|path|] == entries[i].name
    ensures f == Meta(top, path, f.localPath[|path|..], f.size)
    decreases entries, 1
  {
    var e := entries[0];
    var first := path + [e.name];
    if f in Walk(top, first, e.node) {
      WalkBelow(top, first, e.node, f);
      var rel := f.localPath[|first|..];
      assert f.localPath[|path|] == first[|path|];
      assert f.localPath[|path|..] == [e.name] + rel;
      assert first[top..] + rel == path[top..] + ([e.name] + rel);
      return 0;
    } else {
      i := WalkAllBelow(top, path, entries[1..], f);
      i := i + 1;
    }
  }

  /** A walk lists the file at `rel` exactly when there is a readable file of that size. */
  lemma {:induction false} WalkFinds(top: nat, path: Path, node: Node, rel: Path, size: nat)
    requires top <= |path| && WellNamed(node)
    ensures Meta(top, path, rel, size) in Walk(top, path, node) <==> Find(node, rel) == Some(File(size, true))
    decreases node, 0
  {
    var f := Meta(top, path, rel, size);
    match node {
      case Dir(entries, _) =>
        if rel == [] {
          if f in WalkAll(top, path, entries) {
            var i := WalkAllBelow(top, path, entries, f);
            assert false;
          }
        } else {
          WalkAllFinds(top, path, entries, rel, size);
        }
      case File(s, r) =>
        assert path + [] == path && path[top..] + [] == path[top..];
        if rel != [] {
          assert f.localPath != path;
        }
      case Special =>
      case Broken =>
    }
  }

  lemma {:induction false} WalkAllFinds(top: nat, path: Path, entries: seq<Entry>, rel: Path, size: nat)
    requires top <= |path| && AllWellNamed(entries) && rel != []
    ensures Meta(top, path, rel, size) in WalkAll(top, path, entries) <==> FindIn(entries, rel) == Some(File(size, true))
    decreases entries, 1
  {
    if entries != [] {
      var e, f := entries[0], Meta(top, path, rel, size);
      var first := path + [e.name];
      WalkAllFinds(top, path, entries[1..], rel, size);
      assert f.localPath[|path|] == rel[0] && first[|path|] == e.name;
      if e.name == rel[0] {
        assert f == Meta(top, first, rel[1..], size) by {
          assert rel == [e.name] + rel[1..];
          assert path + rel == first + rel[1..] && path[top..] + rel == first[top..] + rel[1..];
        }
        WalkFinds(top, first, e.node, rel[1..], size);
        if f in WalkAll(top, path, entries[1..]) {
          var i := WalkAllBelow(top, path, entries[1..], f);
          assert false;
        }
      } else if f in Walk(top, first, e.node) {
        WalkBelow(top, first, e.node, f);
        assert false;
      }
    }
  }

  /** No file is listed twice. */
  ghost predicate Unique(files: seq<LocalFileMeta>) {
    forall i, j :: 0 <= i < j < |files| ==> files[i].localPath != files[j].localPath
  }

  lemma UniqueAppend(a: seq<LocalFileMeta>, b: seq<LocalFileMeta>)
    requires Unique(a) && Unique(b)
    requires forall f, g :: f in a && g in b ==> f.localPath != g.localPath
    ensures Unique(a + b)
  {
  }

  lemma {:induction false} WalkUnique(top: nat, path: Path, node: Node)
    requires top <= |path| && WellNamed(node)
    ensures Unique(Walk(top, path, node))
    decreases node, 0
  {
    if node.Dir? {
      WalkAllUnique(top, path, node.entries);
    }
  }

  lemma {:induction false} WalkAllUnique(top: nat, path: Path, entries: seq<Entry>)
    requires top <= |path| && AllWellNamed(entries)
    ensures Unique(WalkAll(top, path, entries))
    decreases entries, 1
  {
    if entries != [] {
      var e := entries[0];
      var first := path + [e.name];
      WalkUnique(top, first, e.node);
      WalkAllUnique(top, path, entries[1..]);
      forall f, g | f in Walk(top, first, e.node) && g in WalkAll(top, path, entries[1..])
        ensures f.localPath != g.localPath
      {
        WalkBelow(top, first, e.node, f);
        var i := WalkAllBelow(top, path, entries[1..], g);
        assert f.localPath[|path|] == e.name && g.localPath[|path|] == entries[i + 1].name;
      }
      UniqueAppend(Walk(top, first, e.node), WalkAll(top, path, entries[1..]));
    }
  }

  // ---------- All the paths given ----------

  /** A path given by the user, and what is there. */
  datatype Root = Root(path: Path, node: Node) {
    /** How many names public paths lose: all but the last of the path given. */
    function Top(): (n: nat)
      ensures n <= |path|
    {
      if path == [] then 0 else |path| - 1
    }

    function Files(): seq<LocalFileMeta> {
      Walk(Top(), path, node)
    }

    predicate Holds(rel: Path, size: nat) {
      Find(node, rel) == Some(File(size, true))
    }
  }

  function Gathered(roots: seq<Root>): seq<LocalFileMeta> {
    if roots == [] then [] else roots[0].Files() + Gathered(roots[1..])
  }

  /** The loop over the paths given, which stops at the first error. */
  method GetFileMetadatas(roots: seq<Root>) returns (ok: bool, files: seq<LocalFileMeta>)
    ensures ok <==> forall i :: 0 <= i < |roots| ==> !Fails(roots[i].node)
    ensures ok ==> files == Gathered(roots)
  {
    hide Walk, Fails;
    files := [];
    for k := 0 to |roots|
      invariant files + Gathered(roots[k..]) == Gathered(roots)
      invariant forall i :: 0 <= i < k ==> !Fails(roots[i].node)
    {
      ghost var before, here, rest := files, roots[k].Files(), Gathered(roots[k + 1..]);
      assert roots[k..][1..] == roots[k + 1..];
      ok, files := WalkInto(roots[k].Top(), roots[k].path, roots[k].node, files);
      if !ok {
        return false, files;
      }
      assert before + here + rest == before + (here + rest);
    }
    return true, files;
  }

  ghost predicate Sound(roots: seq<Root>) {
    && (forall i :: 0 <= i < |roots| ==> WellNamed(roots[i].node))
    && (forall i, j :: 0 <= i < j < |roots| ==> !Overlap(roots[i].path, roots[j].path))
  }

  lemma {:induction false} GatheredFrom(roots: seq<Root>, f: LocalFileMeta) returns (i: nat)
    requires f in Gathered(roots)
    ensures i < |roots| && f in roots[i].Files()
  {
    if f in roots[0].Files() {
      return 0;
    } else {
      i := GatheredFrom(roots[1..], f);
      i := i + 1;
    }
  }

  lemma {:induction false} GatheredHas(roots: seq<Root>, i: nat, f: LocalFileMeta)
    requires i < |roots| && f in roots[i].Files()
    ensures f in Gathered(roots)
  {
    if i != 0 {
      GatheredHas(roots[1..], i - 1, f);
    }
  }

  /** Once the overlap check has passed, no file is offered twice. */
  lemma {:induction false} NoFileTwice(roots: seq<Root>)
    requires Sound(roots)
    ensures Unique(Gathered(roots))
  {
    if roots != [] {
      var r, rest := roots[0], roots[1..];
      WalkUnique(r.Top(), r.path, r.node);
      NoFileTwice(rest);
      forall f, g | f in r.Files() && g in Gathered(rest)
        ensures f.localPath != g.localPath
      {
        var i := GatheredFrom(rest, g);
        WalkBelow(r.Top(), r.path, r.node, f);
        WalkBelow(rest[i].Top(), rest[i].path, rest[i].node, g);
        assert !Overlap(roots[0].path, roots[i + 1].path);
        if f.localPath == g.localPath {
          PrefixesOverlap(r.path, rest[i].path, f.localPath);
        }
      }
      UniqueAppend(r.Files(), Gathered(rest));
    }
  }

  /** Two prefixes of one path overlap. */
  lemma PrefixesOverlap(p: Path, q: Path, all: Path)
    requires p <= all && q <= all
    ensures Overlap(p, q)
  {
  }

  /** Two of the paths given end in the same name and hold a file at the same place. */
  ghost predicate Clash(roots: seq<Root>, i: int, j: int, rel: Path, m: nat, n: nat) {
    && 0 <= i < j < |roots|
    && roots[i].path[roots[i].Top()..] == roots[j].path[roots[j].Top()..]
    && roots[i].Holds(rel, m) && roots[j].Holds(rel, n)
  }

  ghost predicate PublicUnique(files: seq<LocalFileMeta>) {
    forall i, j :: 0 <= i < j < |files| ==> files[i].publicPath != files[j].publicPath
  }

  /** A file listed for a path given is one that is there. */
  lemma ListedIsHeld(r: Root, f: LocalFileMeta)
    requires WellNamed(r.node) && f in r.Files()
    ensures r.path <= f.localPath
    ensures var rel := f.localPath[|r.path|..]; f == Meta(r.Top(), r.path, rel, f.size) && r.Holds(rel, f.size)
  {
    WalkBelow(r.Top(), r.path, r.node, f);
    WalkFinds(r.Top(), r.path, r.node, f.localPath[|r.path|..], f.size);
  }

  /**
   * The peer is told the last name of the path given and what is below it: nothing of where
   * that path is.
   */
  lemma PublicPathStartsAtName(r: Root, f: LocalFileMeta)
    requires WellNamed(r.node) && r.path != [] && f in r.Files()
    ensures r.path <= f.localPath && f.publicPath == [r.path[|r.path| - 1]] + f.localPath[|r.path|..]
  {
    ListedIsHeld(r, f);
    assert r.path[r.Top()..] == [r.path[|r.path| - 1]];
  }

  lemma ClashCollides(roots: seq<Root>, i: int, j: int, rel: Path, m: nat, n: nat)
    requires Sound(roots) && Clash(roots, i, j, rel, m, n)
    ensures !PublicUnique(Gathered(roots))
  {
    var p, q := roots[i], roots[j];
    var f, g := Meta(p.Top(), p.path, rel, m), Meta(q.Top(), q.path, rel, n);
    WalkFinds(p.Top(), p.path, p.node, rel, m);
    WalkFinds(q.Top(), q.path, q.node, rel, n);
    GatheredHas(roots, i, f);
    GatheredHas(roots, j, g);
    if f.localPath == g.localPath {
      PrefixesOverlap(p.path, q.path, f.localPath);
    }
    var all := Gathered(roots);
    var a :| 0 <= a < |all| && all[a] == f;
    var b :| 0 <= b < |all| && all[b] == g;
    assert a != b && all[a].publicPath == all[b].publicPath;
  }

  /** Apart from their order, equal public paths of two files mean a clash. */
  lemma SamePublicClashes(roots: seq<Root>, i: nat, j: nat, f: LocalFileMeta, g: LocalFileMeta)
    requires Sound(roots) && i < |roots| && j < |roots|
    requires f in roots[i].Files() && g in roots[j].Files()
    requires f.publicPath == g.publicPath && f.localPath != g.localPath
    ensures exists k, l, rel, m, n :: Clash(roots, k, l, rel, m, n)
  {
    var p, q := roots[i], roots[j];
    ListedIsHeld(p, f);
    ListedIsHeld(q, g);
    var rel, rel' := f.localPath[|p.path|..], g.localPath[|q.path|..];
    var base, base' := p.path[p.Top()..], q.path[q.Top()..];
    assert base + rel == base' + rel';
    assert |base| == |base'| by {
      if i < j {
        assert !Overlap(roots[i].path, roots[j].path);
      } else if j < i {
        assert !Overlap(roots[j].path, roots[i].path);
      }
    }
    assert base == (base + rel)[..|base|] && rel == (base + rel)[|base|..];
    assert base' == (base' + rel')[..|base|] && rel' == (base' + rel')[|base|..];
    if i < j {
      assert Clash(roots, i, j, rel, f.size, g.size);
    } else if j < i {
      assert Clash(roots, j, i, rel, g.size, f.size);
    }
  }

  /**
   * Passing the overlap check does not make public paths distinct: they are distinct exactly
   * when no two of the paths given end in the same name and hold a file at the same place.
   */
  lemma PublicPathsExactly(roots: seq<Root>)
    requires Sound(roots)
    ensures PublicUnique(Gathered(roots)) <==> !exists i, j, rel, m, n :: Clash(roots, i, j, rel, m, n)
  {
    var all := Gathered(roots);
    NoFileTwice(roots);
    if i, j, rel, m, n :| Clash(roots, i, j, rel, m, n) {
      ClashCollides(roots, i, j, rel, m, n);
    }
    if a, b :| 0 <= a < b < |all| && all[a].publicPath == all[b].publicPath {
      var i := GatheredFrom(roots, all[a]);
      var j := GatheredFrom(roots, all[b]);
      SamePublicClashes(roots, i, j, all[a], all[b]);
    }
  }

  /** Two files of one name in two directories pass the overlap check and clash. */
  lemma ClashIsPossible(a: Name, b: Name, x: Name, m: nat, n: nat)
    requires a != b
    ensures var roots := [Root([a, x], File(m, true)), Root([b, x], File(n, true))];
            Sound(roots) && Clash(roots, 0, 1, [], m, n) && !PublicUnique(Gathered(roots))
  {
    var roots := [Root([a, x], File(m, true)), Root([b, x], File(n, true))];
    assert [a, x][0] != [b, x][0];
    assert roots[0].path[roots[0].Top()..] == [x] && roots[1].path[roots[1].Top()..] == [x];
    ClashCollides(roots, 0, 1, [], m, n);
  }

  // ---------- The whole dialog ----------

  /** A path as the user gives it: its canonical form, if it has one, and what is there. */
  datatype Given = Given(canonical: Option<Path>, node: Node)

  datatype Offer = Files(files: seq<LocalFileMeta>) | OverlappingPaths(i: nat, j: nat) | IoError | Cancelled

  function Canonical(given: seq<Given>): (ps: seq<Option<Path>>)
    ensures |ps| == |given| && forall i :: 0 <= i < |given| ==> ps[i] == given[i].canonical
  {
    seq(|given|, i requires 0 <= i < |given| => given[i].canonical)
  }

  function Roots(given: seq<Given>): (rs: seq<Root>)
    requires forall i :: 0 <= i < |given| ==> given[i].canonical.Some?
    ensures |rs| == |given|
    ensures forall i :: 0 <= i < |given| ==> rs[i] == Root(given[i].canonical.value, given[i].node)
  {
    seq(|given|, i requires 0 <= i < |given| => Root(given[i].canonical.value, given[i].node))
  }

  /** What the dialog asks of the paths before it offers their files. */
  ghost predicate Sendable(given: seq<Given>) {
    && (forall i :: 0 <= i < |given| ==> given[i].canonical.Some? && !Fails(given[i].node))
    && (forall i, j :: 0 <= i < j < |given| ==> !Clashing(Canonical(given), i, j))
  }

  /**
   * The send dialog; `response` is the answer typed, trimmed and in lower case. Files are
   * offered exactly when every path is canonical and can be walked, no two overlap, and the
   * answer is a beginning of "yes", as no answer at all is; then all of them are, each once.
   */
  method ConfirmSend(given: seq<Given>, response: string) returns (r: Offer)
    ensures r.Files? <==> Sendable(given) && response <= "yes"
    ensures r.Files? ==> r.files == Gathered(Roots(given))
    ensures r.Files? && (forall i :: 0 <= i < |given| ==> WellNamed(given[i].node)) ==> Unique(r.files)
    ensures r.Cancelled? <==> Sendable(given) && !(response <= "yes")
    ensures r.OverlappingPaths? ==> Found(Canonical(given), Overlapping(r.i, r.j))
    ensures r.IoError? ==>
              || Found(Canonical(given), NotCanonical)
              || (Found(Canonical(given), Clear) && exists i :: 0 <= i < |given| && Fails(given[i].node))
  {
    hide Fails, WellNamed, Gathered;
    var c := FindOverlap(Canonical(given));
    if c.Overlapping? {
      return OverlappingPaths(c.i, c.j);
    } else if c.NotCanonical? {
      return IoError;
    }
    assert forall i :: 0 <= i < |given| ==> Canonical(given)[i].Some?;
    var ok, files := GetFileMetadatas(Roots(given));
    if !ok {
      return IoError;
    }
    if !(response <= "yes") {
      return Cancelled;
    }
    if forall i :: 0 <= i < |given| ==> WellNamed(given[i].node) {
      forall i, j | 0 <= i < j < |given|
        ensures !Overlap(Roots(given)[i].path, Roots(given)[j].path)
      {
        assert !Clashing(Canonical(given), i, j);
      }
      NoFileTwice(Roots(given));
    }
    return Files(files);
  }
}
