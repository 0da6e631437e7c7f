/**
 The disks of a replica as a tree of sparse files, and what each disk shows.

 `Content` is the meaning of a disk: its own sector if it holds one, else its
 parent's content, else the backing file, else zero. The lemmas say which edits of
 the tree keep the content of which disks (pkg/replica/replica.go:419-506, 539-589).
 */
module SnapshotStores {
  import opened Sectors
  import opened Layers

  /** Head disks are numbered, snapshot disks carry the snapshot's name. */
  datatype Name = NoDisk | BackingDisk | HeadDisk(index: nat) | SnapDisk(snapshot: string)

  /** A disk's metadata. `rank` is larger than the parent's; it only serves as the measure of the tree. */
  datatype Disk = Disk(parent: Name, removed: bool, rank: nat)

  datatype Store = Store(ss: nat, backing: Option<Layer>, disks: map<Name, Disk>, files: map<Name, Layer>)

  ghost predicate Sound(st: Store) {
    0 < st.ss && st.files.Keys == st.disks.Keys && TreeOk(st.disks)
  }

  /** The disks form a forest, and the two reserved names are not disks. */
  ghost predicate TreeOk(disks: map<Name, Disk>) {
    && NoDisk !in disks && BackingDisk !in disks
    && forall n :: n in disks ==> ParentOk(disks, n)
  }

  /** The parent link of a disk leads to a disk of smaller rank, or nowhere. */
  ghost predicate ParentOk(disks: map<Name, Disk>, n: Name)
    requires n in disks
  {
    disks[n].parent == NoDisk || (disks[n].parent in disks && disks[disks[n].parent].rank < disks[n].rank)
  }

  /** Disk `n` answers for byte `o` itself; without a backing file the root answers for everything. */
  ghost predicate Own(st: Store, n: Name, o: nat)
    requires Sound(st) && n in st.disks
  {
    Sec(o, st.ss) in st.files[n].alloc || (st.disks[n].parent == NoDisk && st.backing.None?)
  }

  ghost function Content(st: Store, n: Name, o: nat): byte
    requires Sound(st) && n in st.disks
    decreases st.disks[n].rank
  {
    if Own(st, n, o) then FileByte(st.files[n], o)
    else if st.disks[n].parent == NoDisk then FileByte(st.backing.value, o)
    else
      assert ParentOk(st.disks, n);
      Content(st, st.disks[n].parent, o)
  }

  /** Two stores agree on disk `n` and both keep its parent among the disks `within`. */
  ghost predicate SameDisk(a: Store, b: Store, within: set<Name>, n: Name) {
    && n in a.disks && n in b.disks && n in a.files && n in b.files
    && a.disks[n].parent == b.disks[n].parent && a.files[n] == b.files[n]
    && (a.disks[n].parent == NoDisk || a.disks[n].parent in within)
  }

  /** Content depends only on a disk and its ancestors. */
  lemma {:induction false} ContentAgree(a: Store, b: Store, within: set<Name>, n: Name, o: nat)
    requires Sound(a) && Sound(b) && a.ss == b.ss && a.backing == b.backing
    requires forall m :: m in within ==> SameDisk(a, b, within, m)
    requires n in within && n in a.disks && n in b.disks
    ensures Content(a, n, o) == Content(b, n, o)
    decreases a.disks[n].rank
  {
    assert SameDisk(a, b, within, n);
    if !Own(a, n, o) && a.disks[n].parent != NoDisk {
      assert ParentOk(a.disks, n);
      ContentAgree(a, b, within, a.disks[n].parent, o);
    }
  }

  /** `c` is the only disk whose parent is `p`. */
  ghost predicate OnlyChild(disks: map<Name, Disk>, p: Name, c: Name) {
    && p in disks && c in disks && disks[c].parent == p
    && forall m :: m in disks && disks[m].parent == p ==> m == c
  }

  ghost predicate SameAt(x: Layer, y: Layer, ss: nat, o: nat)
    requires 0 < ss
  {
    (Sec(o, ss) in x.alloc <==> Sec(o, ss) in y.alloc) && FileByte(x, o) == FileByte(y, o)
  }

  /**
   Rewriting sectors of a disk that its only child holds itself changes the content of no
   other disk, wherever in the tree it is.
   */
  lemma {:induction false} ShadowedUpdate(a: Store, b: Store, p: Name, c: Name, n: Name, o: nat)
    requires Sound(a) && Sound(b) && OnlyChild(a.disks, p, c)
    requires p in b.files && b == a.(files := a.files[p := b.files[p]])
    requires Sec(o, a.ss) in a.files[c].alloc || SameAt(a.files[p], b.files[p], a.ss, o)
    requires n in a.disks && n != p
    ensures Content(a, n, o) == Content(b, n, o)
    decreases a.disks[n].rank
  {
    if !Own(a, n, o) && a.disks[n].parent != NoDisk {
      assert ParentOk(a.disks, n);
      if n == c {
        if !Own(a, p, o) && a.disks[p].parent != NoDisk {
          assert ParentOk(a.disks, p);
          ShadowedUpdate(a, b, p, c, a.disks[p].parent, o);
        }
      } else {
        ShadowedUpdate(a, b, p, c, a.disks[n].parent, o);
      }
    }
  }

  // ---------------------------------------------------------------- folding a child into its parent

  /** The parent's file after the child's sector `s` was folded into it. */
  function FoldLayer(parent: Layer, child: Layer, s: nat, ss: nat): (r: Layer)
    requires 0 < ss
    ensures forall o: nat :: FileByte(r, o) == if Sec(o, ss) == s then FileByte(child, o) else FileByte(parent, o)
  {
    Layer(seq(Max(|parent.bytes|, |child.bytes|), o requires 0 <= o =>
              if Sec(o, ss) == s then FileByte(child, o) else FileByte(parent, o)),
          parent.alloc + {s})
  }

  /** The file after its sector `s` was punched out. */
  function PruneLayer(l: Layer, s: nat, ss: nat): (r: Layer)
    requires 0 < ss
    ensures forall o: nat :: FileByte(r, o) == if Sec(o, ss) == s then 0 else FileByte(l, o)
  {
    Layer(seq(|l.bytes|, o requires 0 <= o => if Sec(o, ss) == s then 0 else FileByte(l, o)), l.alloc - {s})
  }

  /** Every sector of the child is in the parent's file, with the child's bytes. */
  ghost predicate Folded(parent: Layer, child: Layer, ss: nat)
    requires 0 < ss
  {
    && child.alloc <= parent.alloc
    && forall o: nat :: Sec(o, ss) in child.alloc ==> FileByte(parent, o) == FileByte(child, o)
  }

  /** The parent's file after the child's sectors `done` were folded into it, one after the other. */
  function FoldAll(parent: Layer, child: Layer, done: seq<nat>, ss: nat): Layer
    requires 0 < ss
    decreases |done|
  {
    if done == [] then parent
    else FoldLayer(FoldAll(parent, child, done[..|done| - 1], ss), child, done[|done| - 1], ss)
  }

  /** The sectors of a file are the ones done and the ones to do. */
  ghost predicate Split(alloc: set<nat>, done: seq<nat>, todo: set<nat>) {
    && todo <= alloc
    && (forall s :: s in alloc && s !in todo ==> s in done)
    && (forall s :: s in done ==> s in alloc)
  }

  lemma {:induction false} SplitNext(alloc: set<nat>, done: seq<nat>, todo: set<nat>, s: nat)
    requires Split(alloc, done, todo) && s in todo
    ensures s in alloc && Split(alloc, done + [s], todo - {s})
  {
  }

  lemma {:induction false} FoldAllSnoc(now: Layer, child: Layer, parent: Layer, done: seq<nat>, s: nat, ss: nat)
    requires 0 < ss && now == FoldAll(parent, child, done, ss)
    ensures FoldLayer(now, child, s, ss) == FoldAll(parent, child, done + [s], ss)
  {
    assert (done + [s])[..|done|] == done;
  }

  /** Folding all sectors of the child, in any order, folds the child. */
  lemma {:induction false} FoldedAll(parent: Layer, child: Layer, done: seq<nat>, ss: nat)
    requires 0 < ss && Split(child.alloc, done, {})
    ensures Folded(FoldAll(parent, child, done, ss), child, ss)
    ensures FoldAll(parent, child, done, ss).alloc == parent.alloc + child.alloc
  {
    forall s
      ensures s in FoldAll(parent, child, done, ss).alloc <==> s in parent.alloc || s in child.alloc
    {
      FoldedAlloc(parent, child, done, s, ss);
    }
    forall o: nat | Sec(o, ss) in child.alloc
      ensures FileByte(FoldAll(parent, child, done, ss), o) == FileByte(child, o)
    {
      FoldedSector(parent, child, done, Sec(o, ss), o, ss);
    }
  }

  lemma {:induction false} FoldedAlloc(parent: Layer, child: Layer, done: seq<nat>, s: nat, ss: nat)
    requires 0 < ss
    ensures s in FoldAll(parent, child, done, ss).alloc <==> s in parent.alloc || s in done
    decreases |done|
  {
    if done != [] {
      var last := |done| - 1;
      FoldedAlloc(parent, child, done[..last], s, ss);
      assert done == done[..last] + [done[last]];
    }
  }

  lemma {:induction false} FoldedSector(parent: Layer, child: Layer, done: seq<nat>, s: nat, o: nat, ss: nat)
    requires 0 < ss && s in done
    ensures Sec(o, ss) == s ==> FileByte(FoldAll(parent, child, done, ss), o) == FileByte(child, o)
    decreases |done|
  {
    var last := |done| - 1;
    if done[last] != s {
      assert s in done[..last];
      FoldedSector(parent, child, done[..last], s, o, ss);
    }
  }

  lemma {:induction false} FoldedElsewhere(parent: Layer, child: Layer, done: seq<nat>, o: nat, ss: nat)
    requires 0 < ss && Sec(o, ss) !in done
    ensures FileByte(FoldAll(parent, child, done, ss), o) == FileByte(parent, o)
    decreases |done|
  {
    if done != [] {
      assert forall s :: s in done[..|done| - 1] ==> s in done;
      FoldedElsewhere(parent, child, done[..|done| - 1], o, ss);
    }
  }

  /** The parent's file with the child's sectors on top. */
  ghost predicate Overlaid(parent: Layer, child: Layer, ss: nat, r: Layer)
    requires 0 < ss
  {
    && r.alloc == parent.alloc + child.alloc
    && forall o: nat :: FileByte(r, o) == if Sec(o, ss) in child.alloc then FileByte(child, o) else FileByte(parent, o)
  }

  lemma {:induction false} FoldOverlays(parent: Layer, child: Layer, done: seq<nat>, ss: nat)
    requires 0 < ss && Split(child.alloc, done, {})
    ensures Overlaid(parent, child, ss, FoldAll(parent, child, done, ss))
  {
    FoldedAll(parent, child, done, ss);
    forall o: nat
      ensures FileByte(FoldAll(parent, child, done, ss), o) == if Sec(o, ss) in child.alloc then FileByte(child, o)
                else FileByte(parent, o)
    {
      if Sec(o, ss) in child.alloc {
        FoldedSector(parent, child, done, Sec(o, ss), o, ss);
      } else {
        FoldedElsewhere(parent, child, done, o, ss);
      }
    }
  }

  /** Folds the child's file into its parent's, sector by sector. */
  method FoldFile(parent: Layer, child: Layer, ss: nat) returns (r: Layer, ghost done: seq<nat>)
    requires 0 < ss
    ensures r == FoldAll(parent, child, done, ss) && Split(child.alloc, done, {})
    ensures Overlaid(parent, child, ss, r)
  {
    r, done := parent, [];
    var todo := child.alloc;
    while todo != {}
      invariant r == FoldAll(parent, child, done, ss) && Split(child.alloc, done, todo)
      decreases |todo|
    {
      var s :| s in todo;
      FoldAllSnoc(r, child, parent, done, s, ss);
      SplitNext(child.alloc, done, todo, s);
      r := FoldLayer(r, child, s, ss);
      todo, done := todo - {s}, done + [s];
    }
    FoldOverlays(parent, child, done, ss);
  }

  /** The file after the sectors `done` were punched out of it, one after the other. */
  function PruneAll(l: Layer, done: seq<nat>, ss: nat): Layer
    requires 0 < ss
    decreases |done|
  {
    if done == [] then l else PruneLayer(PruneAll(l, done[..|done| - 1], ss), done[|done| - 1], ss)
  }

  lemma {:induction false} PruneAllSnoc(now: Layer, l: Layer, done: seq<nat>, s: nat, ss: nat)
    requires 0 < ss && now == PruneAll(l, done, ss)
    ensures PruneLayer(now, s, ss) == PruneAll(l, done + [s], ss)
  {
    assert (done + [s])[..|done|] == done;
  }

  /** Punching all sectors that the file above holds, in any order, leaves the other sectors. */
  lemma {:induction false} PrunedAll(l: Layer, above: Layer, done: seq<nat>, ss: nat)
    requires 0 < ss && Split(above.alloc, done, {})
    ensures PruneAll(l, done, ss).alloc == l.alloc - above.alloc
  {
    forall s
      ensures s in PruneAll(l, done, ss).alloc <==> s in l.alloc && s !in above.alloc
    {
      PrunedSector(l, done, s, ss);
    }
  }

  lemma {:induction false} PrunedSector(l: Layer, done: seq<nat>, s: nat, ss: nat)
    requires 0 < ss
    ensures s in PruneAll(l, done, ss).alloc <==> s in l.alloc && s !in done
    decreases |done|
  {
    if done != [] {
      var last := |done| - 1;
      PrunedSector(l, done[..last], s, ss);
      assert done == done[..last] + [done[last]];
    }
  }

  lemma {:induction false} PrunedByte(l: Layer, done: seq<nat>, o: nat, ss: nat)
    requires 0 < ss
    ensures FileByte(PruneAll(l, done, ss), o) == if Sec(o, ss) in done then 0 else FileByte(l, o)
    decreases |done|
  {
    if done != [] {
      var last := |done| - 1;
      PrunedByte(l, done[..last], o, ss);
      assert done == done[..last] + [done[last]];
    }
  }

  /** The file with the sectors of the file above it punched out. */
  ghost predicate Punched(l: Layer, above: Layer, ss: nat, r: Layer)
    requires 0 < ss
  {
    && r.alloc == l.alloc - above.alloc
    && forall o: nat :: FileByte(r, o) == if Sec(o, ss) in above.alloc then 0 else FileByte(l, o)
  }

  lemma {:induction false} PrunePunches(l: Layer, above: Layer, done: seq<nat>, ss: nat)
    requires 0 < ss && Split(above.alloc, done, {})
    ensures Punched(l, above, ss, PruneAll(l, done, ss))
  {
    PrunedAll(l, above, done, ss);
    forall o: nat
      ensures FileByte(PruneAll(l, done, ss), o) == if Sec(o, ss) in above.alloc then 0 else FileByte(l, o)
    {
      PrunedByte(l, done, o, ss);
    }
  }

  /** Punches the sectors that the file above holds out of a file, sector by sector. */
  method PruneFile(l: Layer, above: Layer, ss: nat) returns (r: Layer, ghost done: seq<nat>)
    requires 0 < ss
    ensures r == PruneAll(l, done, ss) && Split(above.alloc, done, {})
    ensures Punched(l, above, ss, r)
  {
    r, done := l, [];
    var todo := above.alloc;
    while todo != {}
      invariant r == PruneAll(l, done, ss) && Split(above.alloc, done, todo)
      decreases |todo|
    {
      var s :| s in todo;
      PruneAllSnoc(r, l, done, s, ss);
      SplitNext(above.alloc, done, todo, s);
      r := PruneLayer(r, s, ss);
      todo, done := todo - {s}, done + [s];
    }
    PrunePunches(l, above, done, ss);
  }

  /** The store after disk `p` was taken out and its only child `c` took over its file and its parent. */
  function Inherit(st: Store, p: Name, c: Name): (r: Store)
    requires p in st.disks && c in st.disks && p in st.files && p != c
  {
    st.(disks := Unlink(st.disks, p, c), files := (st.files - {p})[c := st.files[p]])
  }

  /** The disks after `p` was taken out and `c` got its parent. */
  function Unlink(disks: map<Name, Disk>, p: Name, c: Name): (r: map<Name, Disk>)
    requires p in disks && c in disks && p != c
  {
    (disks - {p})[c := disks[c].(parent := disks[p].parent)]
  }

  lemma {:induction false} UnlinkOk(disks: map<Name, Disk>, p: Name, c: Name)
    requires TreeOk(disks) && OnlyChild(disks, p, c)
    ensures p != c && TreeOk(Unlink(disks, p, c))
  {
    assert ParentOk(disks, c) && ParentOk(disks, p);
    var b := Unlink(disks, p, c);
    forall n | n in b
      ensures ParentOk(b, n)
    {
      assert ParentOk(disks, n);
    }
  }

  lemma {:induction false} InheritSound(st: Store, p: Name, c: Name)
    requires Sound(st) && OnlyChild(st.disks, p, c)
    ensures p != c && Sound(Inherit(st, p, c))
  {
    UnlinkOk(st.disks, p, c);
    var b := Inherit(st, p, c);
    assert b.files.Keys == b.disks.Keys;
  }

  /** Replacing a fully folded disk by its only child keeps the content of every disk that remains. */
  lemma {:induction false} InheritContent(st: Store, p: Name, c: Name, n: Name, o: nat)
    requires Sound(st) && OnlyChild(st.disks, p, c)
    requires Folded(st.files[p], st.files[c], st.ss)
    requires n in st.disks && n != p
    ensures p != c && Sound(Inherit(st, p, c))
    ensures Content(Inherit(st, p, c), n, o) == Content(st, n, o)
    decreases st.disks[n].rank
  {
    InheritSound(st, p, c);
    assert ParentOk(st.disks, n) && ParentOk(st.disks, p);
    if n == c {
      if st.disks[p].parent != NoDisk {
        InheritContent(st, p, c, st.disks[p].parent, o);
      }
    } else if st.disks[n].parent != NoDisk {
      InheritContent(st, p, c, st.disks[n].parent, o);
    }
  }

  // ---------------------------------------------------------------- the live chain

  /** A path of disks from a root to `path`'s end, each the parent of the next. */
  ghost predicate Path(disks: map<Name, Disk>, path: seq<Name>) {
    && path != []
    && (forall i :: 0 <= i < |path| ==> path[i] in disks)
    && disks[path[0]].parent == NoDisk
    && (forall i :: 0 <= i < |path| - 1 ==> Linked(disks, path, i))
  }

  /** Disk `i` of the path is the parent of the next one. */
  ghost predicate Linked(disks: map<Name, Disk>, path: seq<Name>, i: int) {
    0 <= i < |path| - 1 && path[i + 1] in disks && disks[path[i + 1]].parent == path[i]
  }

  /** What lies below the disks: a placeholder, and the backing file if there is one. */
  function Lead(backing: Option<Layer>): (lead: seq<Layer>) {
    if backing.Some? then [Layer([], {}), backing.value] else [Layer([], {})]
  }

  /** The files of the disks along a path. */
  function FilesOf(files: map<Name, Layer>, path: seq<Name>): (r: seq<Layer>)
    requires forall i :: 0 <= i < |path| ==> path[i] in files
    ensures |r| == |path| && forall i :: 0 <= i < |path| ==> r[i] == files[path[i]]
  {
    seq(|path|, i requires 0 <= i < |path| => files[path[i]])
  }

  /** The stack of files of a path. */
  ghost function StackOf(st: Store, path: seq<Name>): (layers: seq<Layer>)
    requires Sound(st) && Path(st.disks, path)
    ensures |layers| == |path| + Bottom(st)
  {
    Lead(st.backing) + FilesOf(st.files, path)
  }

  /** The index of a path's root in its stack. */
  function Bottom(st: Store): nat {
    if st.backing.Some? then 2 else 1
  }

  /** The view of a stack opened at a disk of the path is that disk's content. */
  lemma {:induction false} StackShowsContent(st: Store, path: seq<Name>, layers: seq<Layer>, i: nat, top: nat, o: nat)
    requires Sound(st) && Path(st.disks, path) && i < |path|
    requires layers == StackOf(st, path) && top == i + Bottom(st)
    ensures ViewByte(layers, top, st.ss, o) == Content(st, path[i], o)
    decreases i
  {
    assert layers[top] == st.files[path[i]];
    if i > 0 {
      var j := i - 1;
      assert Linked(st.disks, path, j);
      StackShowsContent(st, path, layers, j, top - 1, o);
    }
  }

  lemma {:induction false} PathSnoc(disks: map<Name, Disk>, path: seq<Name>, n: Name)
    requires Path(disks, path) && n in disks && disks[n].parent == path[|path| - 1]
    ensures Path(disks, path + [n])
  {
    forall i | 0 <= i < |path|
      ensures Linked(disks, path + [n], i)
    {
      if i < |path| - 1 {
        assert Linked(disks, path, i);
      }
    }
  }

  /** The path to a disk, found by following parent links. */
  ghost function PathTo(disks: map<Name, Disk>, n: Name): (path: seq<Name>)
    requires TreeOk(disks) && n in disks
    ensures Path(disks, path) && path[|path| - 1] == n
    decreases disks[n].rank
  {
    assert ParentOk(disks, n);
    if disks[n].parent == NoDisk then [n]
    else
      PathSnoc(disks, PathTo(disks, disks[n].parent), n);
      PathTo(disks, disks[n].parent) + [n]
  }

  lemma {:induction false} PathPrefix(disks: map<Name, Disk>, path: seq<Name>, j: nat)
    requires Path(disks, path) && 0 < j <= |path|
    ensures Path(disks, path[..j])
  {
    forall i | 0 <= i < j - 1
      ensures Linked(disks, path[..j], i)
    {
      assert Linked(disks, path, i);
    }
  }

  /** There is only one path to a disk. */
  lemma {:induction false} PathUnique(disks: map<Name, Disk>, path: seq<Name>, n: Name)
    requires TreeOk(disks) && Path(disks, path) && path[|path| - 1] == n
    ensures path == PathTo(disks, n)
    decreases |path|
  {
    assert ParentOk(disks, n);
    if |path| > 1 {
      var i, j := |path| - 2, |path| - 1;
      assert Linked(disks, path, i);
      PathPrefix(disks, path, j);
      PathUnique(disks, path[..j], path[i]);
      assert path == path[..j] + [n];
    }
  }

  /** Ranks grow along a path, so its disks are distinct. */
  lemma {:induction false} PathRanks(disks: map<Name, Disk>, path: seq<Name>, i: nat, j: nat)
    requires TreeOk(disks) && Path(disks, path) && i < j < |path|
    ensures disks[path[i]].rank < disks[path[j]].rank
    ensures path[i] != path[j]
    decreases j
  {
    var k := j - 1;
    assert ParentOk(disks, path[j]) && Linked(disks, path, k);
    if i < k {
      PathRanks(disks, path, i, k);
    }
  }
}
