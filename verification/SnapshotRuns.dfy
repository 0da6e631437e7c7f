/**
 The disks of a replica as an ideal snapshot store: one live volume and a map of
 frozen snapshots. Every operation on the disk tree, and every single step of a
 background purge, is an operation of the ideal store or does nothing to it.
 */
module SnapshotRuns {
  import opened Sectors
  import opened Layers
  import opened SnapshotStores
  import opened SnapshotTrees

  /** The live bytes and the snapshots that are not marked as removed. */
  datatype Ideal = Ideal(live: seq<byte>, snaps: map<Name, seq<byte>>)

  datatype Step =
    | Write(off: nat, buf: seq<byte>, layer: Layer)   // `layer` is the head file afterwards
    | Snapshot(name: Name)
    | Expand(name: Name, size: nat)
    | Revert(name: Name)
    | MarkRemoved(name: Name)
    | DropLeaf(name: Name)
    | FoldSector(name: Name, child: Name, sector: nat)
    | Replace(name: Name, child: Name)
    | PruneSector(name: Name, sector: nat)

  function SetFile(t: Tree, n: Name, layer: Layer): Tree {
    t.(store := t.store.(files := t.store.files[n := layer]))
  }

  lemma {:induction false} SetFileWf(t: Tree, n: Name, layer: Layer)
    requires Wf(t) && n in t.store.disks
    ensures Wf(SetFile(t, n, layer))
  {
    assert SetFile(t, n, layer).store.files.Keys == t.store.files.Keys;
  }

  /** `layer` is the head file after `buf` was written at `off`: the head shows the spliced bytes. */
  ghost predicate HeadWrite(t: Tree, off: nat, buf: seq<byte>, layer: Layer)
    requires Wf(t)
  {
    SetFileWf(t, t.head, layer);
    && off + |buf| <= t.size
    && |layer.bytes| == t.size
    && t.store.files[t.head].alloc <= layer.alloc
    && forall o :: 0 <= o < t.size ==>
         Content(SetFile(t, t.head, layer).store, t.head, o) ==
         if off <= o < off + |buf| then buf[o - off] else Content(t.store, t.head, o)
  }

  /** Disk `n` is marked as removed, is not the head, and has the single child `c`. */
  ghost predicate Purging(t: Tree, n: Name, c: Name) {
    n != t.head && OnlyChild(t.store.disks, n, c) && t.store.disks[n].removed
  }

  ghost predicate Enabled(t: Tree, step: Step)
    requires Wf(t)
  {
    var disks, files := t.store.disks, t.store.files;
    match step
    case Write(off, buf, layer) => HeadWrite(t, off, buf, layer)
    case Snapshot(n) => n.SnapDisk? && n !in disks
    case Expand(n, size) => n.SnapDisk? && n !in disks && t.size < size
    case Revert(n) => n.SnapDisk? && n in disks && !disks[n].removed
    case MarkRemoved(n) => n in disks && n != t.head
    case DropLeaf(n) => n in disks && n != t.head && disks[n].removed && Kids(disks, n) == {}
    case FoldSector(n, c, s) => Purging(t, n, c) && c != t.head && s in files[c].alloc
    case Replace(n, c) => Purging(t, n, c) && c != t.head && Folded(files[n], files[c], t.store.ss)
    case PruneSector(n, s) => Purging(t, n, t.head) && s in files[t.head].alloc
  }

  ghost function Next(t: Tree, step: Step): Tree
    requires Wf(t) && Enabled(t, step)
  {
    match step
    case Write(off, buf, layer) => SetFile(t, t.head, layer)
    case Snapshot(n) => CreateDisk(t, n, t.size)
    case Expand(n, size) => CreateDisk(t, n, size)
    case Revert(n) => RevertDisk(t, n)
    case MarkRemoved(n) => MarkDisk(t, n)
    case DropLeaf(n) => RemoveLeaf(t, n)
    case FoldSector(n, c, s) => SetFile(t, n, FoldLayer(t.store.files[n], t.store.files[c], s, t.store.ss))
    case Replace(n, c) =>
      UnlinkOk(t.store.disks, n, c);
      ReplaceDisk(t, c, n)
    case PruneSector(n, s) => SetFile(t, n, PruneLayer(t.store.files[n], s, t.store.ss))
  }

  /** What a step means for the ideal store; the steps of a purge mean nothing. */
  function Meaning(a: Ideal, step: Step): Ideal {
    match step
    case Write(off, buf, _) => if off + |buf| <= |a.live| then a.(live := Splice(a.live, off, buf)) else a
    case Snapshot(n) => a.(snaps := a.snaps[n := a.live])
    case Expand(n, size) => if |a.live| <= size then Ideal(a.live + Zeros(size - |a.live|), a.snaps[n := a.live]) else a
    case Revert(n) =>
      if n in a.snaps && |a.snaps[n]| <= |a.live| then a.(live := a.snaps[n] + Zeros(|a.live| - |a.snaps[n]|)) else a
    case MarkRemoved(n) => a.(snaps := a.snaps - {n})
    case _ => a
  }

  /** Disk `n` shows exactly these bytes, and zeros after them. */
  ghost predicate Shows(st: Store, n: Name, bytes: seq<byte>)
    requires Sound(st) && n in st.disks
  {
    forall o: nat :: Content(st, n, o) == if o < |bytes| then bytes[o] else 0
  }

  ghost predicate Refines(t: Tree, a: Ideal) {
    && Wf(t)
    && |a.live| == t.size == |t.store.files[t.head].bytes|
    && !t.store.disks[t.head].removed
    && Shows(t.store, t.head, a.live)
    && SnapsRefine(t, a)
  }

  ghost predicate SnapsRefine(t: Tree, a: Ideal)
    requires Wf(t)
  {
    MarksRefine(t.store.disks, a.snaps) && SnapsShow(t.store, a.snaps, t.size)
  }

  /** The ideal store holds exactly the snapshots that are not marked as removed. */
  ghost predicate MarksRefine(disks: map<Name, Disk>, snaps: map<Name, seq<byte>>) {
    forall n :: n in snaps <==> n in disks && n.SnapDisk? && !disks[n].removed
  }

  ghost predicate SnapsShow(st: Store, snaps: map<Name, seq<byte>>, size: nat)
    requires Sound(st)
  {
    forall n :: n in snaps ==> |snaps[n]| <= size && n in st.disks && Shows(st, n, snaps[n])
  }

  // ---------------------------------------------------------------- a new replica

  /** A new replica: one empty head, above the backing file if there is one. */
  function NewTree(ss: nat, backing: Option<Layer>, size: nat): Tree {
    var head := HeadDisk(0);
    Tree(Store(ss, backing, map[head := Disk(NoDisk, false, 0)], map[head := Layer(Zeros(size), {})]),
         map[], [head], head, NoDisk, size)
  }

  /** A new replica shows its backing file, or nothing but zeros, and has no snapshots. */
  lemma {:induction false} NewRefines(ss: nat, backing: Option<Layer>, size: nat)
    requires 0 < ss && (backing.Some? ==> |backing.value.bytes| <= size)
    ensures Refines(NewTree(ss, backing, size),
                    Ideal(if backing.Some? then backing.value.bytes + Zeros(size - |backing.value.bytes|)
                        else Zeros(size), map[]))
  {
    var t := NewTree(ss, backing, size);
    assert Kids(t.store.disks, t.head) == {};
    forall p | p != NoDisk
      ensures ChildSet(t.children, p) == Kids(t.store.disks, p)
    {
      assert Kids(t.store.disks, p) == {};
    }
    assert Wf(t);
  }

  // ---------------------------------------------------------------- what each edit does to contents

  /** Disks other than the head do not see the head's file. */
  lemma {:induction false} HeadChangeContent(t: Tree, layer: Layer, n: Name, o: nat)
    requires Wf(t) && n in t.store.disks && n != t.head
    ensures Wf(SetFile(t, t.head, layer))
    ensures Content(SetFile(t, t.head, layer).store, n, o) == Content(t.store, n, o)
  {
    SetFileWf(t, t.head, layer);
    var within := t.store.disks.Keys - {t.head};
    var b := SetFile(t, t.head, layer).store;
    forall m | m in within
      ensures SameDisk(t.store, b, within, m)
    {
      assert ParentOk(t.store.disks, m);
    }
    ContentAgree(t.store, b, within, n, o);
  }

  lemma {:induction false} CreateContent(t: Tree, snap: Name, size: nat, n: Name, o: nat)
    requires Wf(t) && snap.SnapDisk? && snap !in t.store.disks
    requires n in t.store.disks && n != t.head
    ensures Wf(CreateDisk(t, snap, size))
    ensures Content(CreateDisk(t, snap, size).store, n, o) == Content(t.store, n, o)
  {
    hide ChildrenOk, Linked, AddChild, RmChild;
    CreateWf(t, snap, size);
    var b := CreateDisk(t, snap, size).store;
    var within := t.store.disks.Keys - {t.head};
    forall m | m in within
      ensures SameDisk(t.store, b, within, m)
    {
      assert ParentOk(t.store.disks, m);
    }
    ContentAgree(t.store, b, within, n, o);
  }

  /** The snapshot and the new head both show what the head showed. */
  lemma {:induction false} CreateHeadContent(t: Tree, snap: Name, size: nat, o: nat)
    requires Wf(t) && snap.SnapDisk? && snap !in t.store.disks
    ensures Wf(CreateDisk(t, snap, size))
    ensures Content(CreateDisk(t, snap, size).store, snap, o) == Content(t.store, t.head, o)
    ensures Content(CreateDisk(t, snap, size).store, CreateDisk(t, snap, size).head, o) == Content(t.store, t.head, o)
  {
    CreateWf(t, snap, size);
    var b := CreateDisk(t, snap, size).store;
    assert ParentOk(t.store.disks, t.head);
    if t.store.disks[t.head].parent != NoDisk {
      CreateContent(t, snap, size, t.store.disks[t.head].parent, o);
    }
    assert Content(b, snap, o) == Content(t.store, t.head, o);
  }

  lemma {:induction false} LeafContent(t: Tree, leaf: Name, n: Name, o: nat)
    requires Wf(t) && leaf in t.store.disks && leaf != t.head && Kids(t.store.disks, leaf) == {}
    requires n in t.store.disks && n != leaf
    ensures Wf(RemoveLeaf(t, leaf))
    ensures Content(RemoveLeaf(t, leaf).store, n, o) == Content(t.store, n, o)
  {
    RemoveLeafWf(t, leaf);
    var b := RemoveLeaf(t, leaf).store;
    var within := t.store.disks.Keys - {leaf};
    forall m | m in within
      ensures SameDisk(t.store, b, within, m)
    {
      assert ParentOk(t.store.disks, m) && m !in Kids(t.store.disks, leaf);
    }
    ContentAgree(t.store, b, within, n, o);
  }

  lemma {:induction false} RevertContent(t: Tree, target: Name, n: Name, o: nat)
    requires Wf(t) && target in t.store.disks && target != t.head
    requires n in t.store.disks && n != t.head
    ensures Wf(RevertDisk(t, target))
    ensures Content(RevertDisk(t, target).store, n, o) == Content(t.store, n, o)
  {
    RevertWf(t, target);
    var b := RevertDisk(t, target).store;
    var within := t.store.disks.Keys - {t.head};
    forall m | m in within
      ensures SameDisk(t.store, b, within, m)
    {
      assert ParentOk(t.store.disks, m);
    }
    ContentAgree(t.store, b, within, n, o);
  }

  lemma {:induction false} RevertHeadContent(t: Tree, target: Name, o: nat)
    requires Wf(t) && target in t.store.disks && target != t.head
    ensures Wf(RevertDisk(t, target))
    ensures Content(RevertDisk(t, target).store, RevertDisk(t, target).head, o) == Content(t.store, target, o)
  {
    RevertContent(t, target, target, o);
  }

  lemma {:induction false} MarkContent(t: Tree, marked: Name, n: Name, o: nat)
    requires Wf(t) && marked in t.store.disks && marked != t.head && n in t.store.disks
    ensures Wf(MarkDisk(t, marked))
    ensures Content(MarkDisk(t, marked).store, n, o) == Content(t.store, n, o)
  {
    MarkWf(t, marked);
    var b := MarkDisk(t, marked).store;
    var within := t.store.disks.Keys;
    forall m | m in within
      ensures SameDisk(t.store, b, within, m)
    {
      assert ParentOk(t.store.disks, m);
    }
    ContentAgree(t.store, b, within, n, o);
  }

  /** Folding a sector of the only child into its parent changes no other disk's content. */
  lemma {:induction false} FoldContent(t: Tree, p: Name, c: Name, s: nat, n: Name, o: nat)
    requires Wf(t) && OnlyChild(t.store.disks, p, c) && s in t.store.files[c].alloc
    requires n in t.store.disks && n != p
    ensures Wf(SetFile(t, p, FoldLayer(t.store.files[p], t.store.files[c], s, t.store.ss)))
    ensures Content(SetFile(t, p, FoldLayer(t.store.files[p], t.store.files[c], s, t.store.ss)).store, n, o) ==
              Content(t.store, n, o)
  {
    var layer := FoldLayer(t.store.files[p], t.store.files[c], s, t.store.ss);
    SetFileWf(t, p, layer);
    ShadowedUpdate(t.store, SetFile(t, p, layer).store, p, c, n, o);
  }

  /** Punching a sector that the only child holds changes no other disk's content. */
  lemma {:induction false} PruneContent(t: Tree, p: Name, c: Name, s: nat, n: Name, o: nat)
    requires Wf(t) && OnlyChild(t.store.disks, p, c) && s in t.store.files[c].alloc
    requires n in t.store.disks && n != p
    ensures Wf(SetFile(t, p, PruneLayer(t.store.files[p], s, t.store.ss)))
    ensures Content(SetFile(t, p, PruneLayer(t.store.files[p], s, t.store.ss)).store, n, o) == Content(t.store, n, o)
  {
    var layer := PruneLayer(t.store.files[p], s, t.store.ss);
    SetFileWf(t, p, layer);
    ShadowedUpdate(t.store, SetFile(t, p, layer).store, p, c, n, o);
  }

  // ---------------------------------------------------------------- every step refines its meaning

  /** Disk `n` shows the same in both stores. */
  ghost predicate Kept(st: Store, u: Store, n: Name)
    requires Sound(st) && Sound(u)
  {
    n in st.disks && n in u.disks && forall o: nat :: Content(u, n, o) == Content(st, n, o)
  }

  /** The snapshots of `a` survive an edit that keeps their contents and their marks. */
  lemma {:induction false} SnapsKept(t: Tree, u: Tree, a: Ideal)
    requires Refines(t, a) && Wf(u) && t.size <= u.size
    requires forall n :: n in a.snaps ==> Kept(t.store, u.store, n) && !u.store.disks[n].removed
    requires forall n :: n in u.store.disks && n.SnapDisk? && !u.store.disks[n].removed ==> n in a.snaps
    ensures SnapsRefine(u, a)
  {
    forall n | n in a.snaps
      ensures Shows(u.store, n, a.snaps[n])
    {
      assert Kept(t.store, u.store, n) && Shows(t.store, n, a.snaps[n]);
    }
  }

  lemma {:induction false} WriteRefines(t: Tree, a: Ideal, off: nat, buf: seq<byte>, layer: Layer)
    requires Refines(t, a) && HeadWrite(t, off, buf, layer)
    ensures Refines(SetFile(t, t.head, layer), Meaning(a, Write(off, buf, layer)))
  {
    SetFileWf(t, t.head, layer);
    var u := SetFile(t, t.head, layer);
    var b := a.(live := Splice(a.live, off, buf));
    forall n | n in a.snaps
      ensures Kept(t.store, u.store, n)
    {
      forall o: nat
        ensures Content(u.store, n, o) == Content(t.store, n, o)
      {
        HeadChangeContent(t, layer, n, o);
      }
    }
    SnapsKept(t, u, a);
    forall o: nat
      ensures Content(u.store, u.head, o) == if o < |b.live| then b.live[o] else 0
    {
      assert Content(t.store, t.head, o) == if o < |a.live| then a.live[o] else 0;
      if o >= t.size {
        PastEnd(t, layer, o);
      }
    }
  }

  /** Past the end of the volume a written head shows what it showed before. */
  lemma {:induction false} PastEnd(t: Tree, layer: Layer, o: nat)
    requires Wf(t) && |layer.bytes| <= o && |t.store.files[t.head].bytes| <= o
    requires t.store.files[t.head].alloc <= layer.alloc
    requires Content(t.store, t.head, o) == 0
    ensures Wf(SetFile(t, t.head, layer))
    ensures Content(SetFile(t, t.head, layer).store, t.head, o) == 0
  {
    SetFileWf(t, t.head, layer);
    var u := SetFile(t, t.head, layer);
    assert ParentOk(t.store.disks, t.head);
    if !Own(u.store, t.head, o) && t.store.disks[t.head].parent != NoDisk {
      HeadChangeContent(t, layer, t.store.disks[t.head].parent, o);
    }
  }

  lemma {:induction false} CreateNames(t: Tree, n: Name, size: nat)
    requires Wf(t) && n.SnapDisk? && n !in t.store.disks
    ensures n in CreateDisk(t, n, size).store.disks && CreateDisk(t, n, size).head in CreateDisk(t, n, size).store.disks
  {
    hide ChildrenOk, CreateChildren, CreateFiles;
  }

  lemma {:induction false} CreateLive(t: Tree, a: Ideal, n: Name, size: nat)
    requires Refines(t, a) && n.SnapDisk? && n !in t.store.disks && t.size <= size
    ensures Wf(CreateDisk(t, n, size))
    ensures Shows(CreateDisk(t, n, size).store, CreateDisk(t, n, size).head, a.live + Zeros(size - |a.live|))
    ensures Shows(CreateDisk(t, n, size).store, n, a.live)
  {
    hide ChildrenOk, SnapsRefine, CreateChildren, CreateDisks, CreateFiles;
    CreateWf(t, n, size);
    CreateNames(t, n, size);
    var u := CreateDisk(t, n, size);
    var live := a.live + Zeros(size - |a.live|);
    forall o: nat
      ensures Content(u.store, u.head, o) == if o < |live| then live[o] else 0
      ensures Content(u.store, n, o) == if o < |a.live| then a.live[o] else 0
    {
      CreateHeadContent(t, n, size, o);
    }
  }

  lemma {:induction false} CreateSnap(t: Tree, a: Ideal, n: Name, size: nat, m: Name)
    requires Refines(t, a) && n.SnapDisk? && n !in t.store.disks && t.size <= size && m in a.snaps
    ensures Wf(CreateDisk(t, n, size)) && m in CreateDisk(t, n, size).store.disks
    ensures Shows(CreateDisk(t, n, size).store, m, a.snaps[m])
  {
    CreateWf(t, n, size);
    var u := CreateDisk(t, n, size);
    forall o: nat
      ensures Content(u.store, m, o) == if o < |a.snaps[m]| then a.snaps[m][o] else 0
    {
      CreateContent(t, n, size, m, o);
    }
  }

  lemma {:induction false} CreateSnapsShow(t: Tree, a: Ideal, n: Name, size: nat, u: Tree, snaps: map<Name, seq<byte>>)
    requires Refines(t, a) && n.SnapDisk? && n !in t.store.disks && t.size <= size
    requires u == CreateDisk(t, n, size) && Wf(u) && snaps == a.snaps[n := a.live]
    requires n in u.store.disks && Shows(u.store, n, a.live)
    ensures SnapsShow(u.store, snaps, size)
  {
    forall m | m in snaps
      ensures |snaps[m]| <= size && m in u.store.disks && Shows(u.store, m, snaps[m])
    {
      if m != n {
        assert |a.snaps[m]| <= t.size;
        CreateSnap(t, a, n, size, m);
      }
    }
  }

  lemma {:induction false} CreateRefines(t: Tree, a: Ideal, n: Name, size: nat)
    requires Refines(t, a) && n.SnapDisk? && n !in t.store.disks && t.size <= size
    ensures Refines(CreateDisk(t, n, size), Ideal(a.live + Zeros(size - |a.live|), a.snaps[n := a.live]))
  {
    CreateLive(t, a, n, size);
    CreateSnapsShow(t, a, n, size, CreateDisk(t, n, size), a.snaps[n := a.live]);
    CreateMarks(t.store.disks, a.snaps, t.head, n, NextHead(t.head), a.live);
  }

  lemma {:induction false} SnapshotRefines(t: Tree, a: Ideal, n: Name)
    requires Refines(t, a) && Enabled(t, Snapshot(n))
    ensures Refines(CreateDisk(t, n, t.size), Meaning(a, Snapshot(n)))
  {
    CreateRefines(t, a, n, t.size);
    assert a.live + Zeros(t.size - |a.live|) == a.live;
  }

  lemma {:induction false} ExpandRefines(t: Tree, a: Ideal, n: Name, size: nat)
    requires Refines(t, a) && Enabled(t, Expand(n, size))
    ensures Refines(CreateDisk(t, n, size), Meaning(a, Expand(n, size)))
  {
    hide Wf, Shows, SnapsRefine, CreateDisk;
    CreateRefines(t, a, n, size);
  }

  /** A snapshot adds one disk that is not marked as removed. */
  lemma {:induction false} CreateMarks(disks: map<Name, Disk>, snaps: map<Name, seq<byte>>, head: Name, n: Name,
                                       next: Name, live: seq<byte>)
    requires MarksRefine(disks, snaps)
    requires head in disks && head.HeadDisk? && next.HeadDisk? && n.SnapDisk? && !disks[head].removed
    ensures MarksRefine(CreateDisks(disks, head, n, next), snaps[n := live])
  {
  }

  lemma {:induction false} RevertRefines(t: Tree, a: Ideal, n: Name)
    requires Refines(t, a) && Enabled(t, Revert(n))
    ensures Refines(RevertDisk(t, n), Meaning(a, Revert(n)))
  {
    RevertWf(t, n);
    var u := RevertDisk(t, n);
    assert n in a.snaps && Shows(t.store, n, a.snaps[n]);
    var live := a.snaps[n] + Zeros(|a.live| - |a.snaps[n]|);
    forall o: nat
      ensures Content(u.store, u.head, o) == if o < |live| then live[o] else 0
    {
      RevertHeadContent(t, n, o);
    }
    forall m | m in a.snaps
      ensures Kept(t.store, u.store, m)
    {
      forall o: nat
        ensures Content(u.store, m, o) == Content(t.store, m, o)
      {
        RevertContent(t, n, m, o);
      }
    }
    SnapsKept(t, u, a);
  }

  lemma {:induction false} MarkRefines(t: Tree, a: Ideal, n: Name)
    requires Refines(t, a) && n in t.store.disks && n != t.head
    ensures Refines(MarkDisk(t, n), a.(snaps := a.snaps - {n}))
  {
    MarkWf(t, n);
    var u := MarkDisk(t, n);
    forall m, o: nat | m in t.store.disks
      ensures Content(u.store, m, o) == Content(t.store, m, o)
    {
      MarkContent(t, n, m, o);
    }
    assert Shows(u.store, u.head, a.live);
    forall m | m in a.snaps && m != n
      ensures Shows(u.store, m, a.snaps[m])
    {
      assert Shows(t.store, m, a.snaps[m]);
    }
  }

  /** An edit that keeps every disk but one that is marked as removed is invisible. */
  lemma {:induction false} Invisible(t: Tree, u: Tree, a: Ideal, gone: Name)
    requires Refines(t, a) && Wf(u) && u.size == t.size && u.head == t.head && gone != t.head
    requires gone in t.store.disks && t.store.disks[gone].removed &&
             (gone in u.store.disks ==> u.store.disks[gone].removed)
    requires |u.store.files[t.head].bytes| == |t.store.files[t.head].bytes|
    requires forall n :: n in t.store.disks && n != gone ==>
                           Kept(t.store, u.store, n) && u.store.disks[n].removed == t.store.disks[n].removed
    requires forall n :: n in u.store.disks ==> n in t.store.disks
    ensures Refines(u, a)
  {
    assert Kept(t.store, u.store, t.head);
    SnapsKept(t, u, a);
  }

  lemma {:induction false} DropLeafRefines(t: Tree, a: Ideal, n: Name)
    requires Refines(t, a) && Enabled(t, DropLeaf(n))
    ensures Refines(RemoveLeaf(t, n), a)
  {
    RemoveLeafWf(t, n);
    var u := RemoveLeaf(t, n);
    forall m | m in t.store.disks && m != n
      ensures Kept(t.store, u.store, m)
    {
      forall o: nat
        ensures Content(u.store, m, o) == Content(t.store, m, o)
      {
        LeafContent(t, n, m, o);
      }
    }
    Invisible(t, u, a, n);
  }

  lemma {:induction false} FoldRefines(t: Tree, a: Ideal, n: Name, c: Name, s: nat)
    requires Refines(t, a) && Enabled(t, FoldSector(n, c, s))
    ensures Refines(Next(t, FoldSector(n, c, s)), a)
  {
    var layer := FoldLayer(t.store.files[n], t.store.files[c], s, t.store.ss);
    SetFileWf(t, n, layer);
    var u := SetFile(t, n, layer);
    forall m | m in t.store.disks && m != n
      ensures Kept(t.store, u.store, m)
    {
      forall o: nat
        ensures Content(u.store, m, o) == Content(t.store, m, o)
      {
        FoldContent(t, n, c, s, m, o);
      }
    }
    Invisible(t, u, a, n);
  }

  lemma {:induction false} PruneRefines(t: Tree, a: Ideal, n: Name, s: nat)
    requires Refines(t, a) && Enabled(t, PruneSector(n, s))
    ensures Refines(Next(t, PruneSector(n, s)), a)
  {
    var layer := PruneLayer(t.store.files[n], s, t.store.ss);
    SetFileWf(t, n, layer);
    var u := SetFile(t, n, layer);
    forall m | m in t.store.disks && m != n
      ensures Kept(t.store, u.store, m)
    {
      forall o: nat
        ensures Content(u.store, m, o) == Content(t.store, m, o)
      {
        PruneContent(t, n, t.head, s, m, o);
      }
    }
    Invisible(t, u, a, n);
  }

  lemma {:induction false} ReplaceRefines(t: Tree, a: Ideal, n: Name, c: Name)
    requires Refines(t, a) && Enabled(t, Replace(n, c))
    ensures n != c && Refines(ReplaceDisk(t, c, n), a)
  {
    hide TreeOk, ChildrenOk, ChainOk, Folded, SnapsRefine, Shows, UnlinkChildren, DropFrom, IndexIn;
    ReplaceWf(t, c, n);
    var u := ReplaceDisk(t, c, n);
    forall m | m in t.store.disks && m != n
      ensures Kept(t.store, u.store, m)
    {
      forall o: nat
        ensures Content(u.store, m, o) == Content(t.store, m, o)
      {
        InheritContent(t.store, n, c, m, o);
      }
    }
    Invisible(t, u, a, n);
  }

  /** Every step of the disk tree is a step of the ideal store. */
  lemma {:induction false} StepRefines(t: Tree, a: Ideal, step: Step)
    requires Refines(t, a) && Enabled(t, step)
    ensures Refines(Next(t, step), Meaning(a, step))
  {
    hide Refines, HeadWrite, SetFile;
    match step
    case Write(off, buf, layer) => WriteRefines(t, a, off, buf, layer);
    case Snapshot(n) => SnapshotRefines(t, a, n);
    case Expand(n, size) => ExpandRefines(t, a, n, size);
    case Revert(n) => RevertRefines(t, a, n);
    case MarkRemoved(n) => MarkRefines(t, a, n);
    case DropLeaf(n) => DropLeafRefines(t, a, n);
    case FoldSector(n, c, s) => FoldRefines(t, a, n, c, s);
    case Replace(n, c) => ReplaceRefines(t, a, n, c);
    case PruneSector(n, s) => PruneRefines(t, a, n, s);
  }

  // ---------------------------------------------------------------- whole runs

  /** Running the steps from `t`, each of them enabled when it is taken, ends in `u`. */
  ghost predicate Runs(t: Tree, steps: seq<Step>, u: Tree)
    decreases |steps|
  {
    if steps == [] then t == u
    else Wf(t) && Enabled(t, steps[0]) && Runs(Next(t, steps[0]), steps[1..], u)
  }

  lemma {:induction false} RunsSnoc(t: Tree, steps: seq<Step>, u: Tree, step: Step)
    requires Runs(t, steps, u) && Wf(u) && Enabled(u, step)
    ensures Runs(t, steps + [step], Next(u, step))
    decreases |steps|
  {
    hide Wf, Enabled, Next;
    if steps == [] {
      assert steps + [step] == [step];
      assert [step][1..] == [];
    } else {
      RunsSnoc(Next(t, steps[0]), steps[1..], u, step);
      assert (steps + [step])[1..] == steps[1..] + [step];
    }
  }

  /** The tree took a step that was enabled. */
  ghost predicate Taken(t: Tree, step: Step, u: Tree) {
    Wf(t) && Enabled(t, step) && u == Next(t, step)
  }

  /** The steps of a background purge. */
  predicate PurgeStep(step: Step) {
    step.DropLeaf? || step.FoldSector? || step.Replace? || step.PruneSector?
  }

  /** The tree went from `t` to `u` by purge steps alone. */
  ghost predicate PurgeRun(t: Tree, steps: seq<Step>, u: Tree) {
    Runs(t, steps, u) && forall i :: 0 <= i < |steps| ==> PurgeStep(steps[i])
  }

  lemma {:induction false} PurgeRunSnoc(t: Tree, steps: seq<Step>, u: Tree, step: Step, v: Tree)
    requires PurgeRun(t, steps, u) && PurgeStep(step) && Taken(u, step, v)
    ensures PurgeRun(t, steps + [step], v)
  {
    RunsSnoc(t, steps, u, step);
  }

  /** Folding sectors of the only child, one after the other, is a purge. */
  lemma {:induction false} FoldAllRun(t: Tree, n: Name, c: Name, done: seq<nat>) returns (steps: seq<Step>)
    requires Wf(t) && Purging(t, n, c) && c != t.head && n != c
    requires forall s :: s in done ==> s in t.store.files[c].alloc
    ensures PurgeRun(t, steps, SetFile(t, n, FoldAll(t.store.files[n], t.store.files[c], done, t.store.ss)))
    decreases |done|
  {
    if done == [] {
      assert t.store.files[n := t.store.files[n]] == t.store.files;
      return [];
    }
    var last := |done| - 1;
    var rest := FoldAllRun(t, n, c, done[..last]);
    var layer := FoldAll(t.store.files[n], t.store.files[c], done[..last], t.store.ss);
    SetFileWf(t, n, layer);
    steps := rest + [FoldSector(n, c, done[last])];
    SetFileTwice(t, n, layer, FoldLayer(layer, t.store.files[c], done[last], t.store.ss));
    PurgeRunSnoc(t, rest, SetFile(t, n, layer), FoldSector(n, c, done[last]),
                 SetFile(t, n, FoldLayer(layer, t.store.files[c], done[last], t.store.ss)));
  }

  lemma {:induction false} SetFileTwice(t: Tree, n: Name, x: Layer, y: Layer)
    ensures SetFile(SetFile(t, n, x), n, y) == SetFile(t, n, y)
  {
    assert t.store.files[n := x][n := y] == t.store.files[n := y];
  }

  /** Punching sectors that the head holds, one after the other, is a purge. */
  lemma {:induction false} PruneAllRun(t: Tree, n: Name, done: seq<nat>) returns (steps: seq<Step>)
    requires Wf(t) && Purging(t, n, t.head)
    requires forall s :: s in done ==> s in t.store.files[t.head].alloc
    ensures PurgeRun(t, steps, SetFile(t, n, PruneAll(t.store.files[n], done, t.store.ss)))
    decreases |done|
  {
    if done == [] {
      assert t.store.files[n := t.store.files[n]] == t.store.files;
      return [];
    }
    var last := |done| - 1;
    var rest := PruneAllRun(t, n, done[..last]);
    var layer := PruneAll(t.store.files[n], done[..last], t.store.ss);
    SetFileWf(t, n, layer);
    steps := rest + [PruneSector(n, done[last])];
    SetFileTwice(t, n, layer, PruneLayer(layer, done[last], t.store.ss));
    PurgeRunSnoc(t, rest, SetFile(t, n, layer), PruneSector(n, done[last]),
        SetFile(t, n, PruneLayer(layer, done[last], t.store.ss)));
  }

  /** A purge shows nothing: live bytes and snapshots stay what they were. */
  lemma {:induction false} PurgeInvisible(t: Tree, a: Ideal, steps: seq<Step>, u: Tree)
    requires Refines(t, a) && PurgeRun(t, steps, u)
    ensures Refines(u, a)
    decreases |steps|
  {
    hide Refines, Enabled, Next;
    if steps != [] {
      StepRefines(t, a, steps[0]);
      PurgeInvisible(Next(t, steps[0]), a, steps[1..], u);
    }
  }

  function Meanings(a: Ideal, steps: seq<Step>): Ideal
    decreases |steps|
  {
    if steps == [] then a else Meanings(Meaning(a, steps[0]), steps[1..])
  }

  /** A whole run of the disk tree, purges interleaved with writes and snapshots, is the ideal run. */
  lemma {:induction false} RunRefines(t: Tree, a: Ideal, steps: seq<Step>, u: Tree)
    requires Refines(t, a) && Runs(t, steps, u)
    ensures Refines(u, Meanings(a, steps))
    decreases |steps|
  {
    if steps != [] {
      StepRefines(t, a, steps[0]);
      RunRefines(Next(t, steps[0]), Meaning(a, steps[0]), steps[1..], u);
    }
  }

  /** One step keeps a snapshot that it does not mark as removed. */
  lemma {:induction false} StepKeepsSnapshot(t: Tree, a: Ideal, step: Step, n: Name, o: nat)
    requires Refines(t, a) && Enabled(t, step) && step != MarkRemoved(n)
    requires n in t.store.disks && n.SnapDisk? && !t.store.disks[n].removed
    ensures Refines(Next(t, step), Meaning(a, step))
    ensures n in Next(t, step).store.disks && !Next(t, step).store.disks[n].removed
    ensures Content(Next(t, step).store, n, o) == Content(t.store, n, o)
  {
    StepRefines(t, a, step);
    assert n in a.snaps && Shows(t.store, n, a.snaps[n]);
    MeaningKeeps(t, a, step, n);
    assert Shows(Next(t, step).store, n, Meaning(a, step).snaps[n]);
  }

  lemma {:induction false} MeaningKeeps(t: Tree, a: Ideal, step: Step, n: Name)
    requires Wf(t) && Enabled(t, step) && step != MarkRemoved(n) && n in t.store.disks && n in a.snaps
    ensures n in Meaning(a, step).snaps && Meaning(a, step).snaps[n] == a.snaps[n]
  {
  }

  /** A snapshot shows the same bytes after any run that does not mark it as removed. */
  lemma {:induction false} SnapshotsNeverChange(t: Tree, a: Ideal, steps: seq<Step>, u: Tree, n: Name, o: nat)
    requires Refines(t, a) && Runs(t, steps, u)
    requires n in t.store.disks && n.SnapDisk? && !t.store.disks[n].removed
    requires forall i :: 0 <= i < |steps| ==> steps[i] != MarkRemoved(n)
    ensures Wf(u) && n in u.store.disks && !u.store.disks[n].removed
    ensures Content(u.store, n, o) == Content(t.store, n, o)
    decreases |steps|
  {
    if steps != [] {
      StepKeepsSnapshot(t, a, steps[0], n, o);
      SnapshotsNeverChange(Next(t, steps[0]), Meaning(a, steps[0]), steps[1..], u, n, o);
    }
  }

  /** Whatever happened since a snapshot, reverting to it brings its bytes back. */
  lemma {:induction false} RevertBringsBack(t: Tree, a: Ideal, n: Name, steps: seq<Step>, u: Tree, o: nat)
    requires Refines(t, a) && n.SnapDisk? && n !in t.store.disks
    requires Runs(CreateDisk(t, n, t.size), steps, u)
    requires forall i :: 0 <= i < |steps| ==> steps[i] != MarkRemoved(n)
    ensures Wf(u) && n in u.store.disks && n != u.head && !u.store.disks[n].removed
    ensures Wf(RevertDisk(u, n))
    ensures Content(RevertDisk(u, n).store, RevertDisk(u, n).head, o) == Content(t.store, t.head, o)
  {
    var t', a' := CreateDisk(t, n, t.size), Meaning(a, Snapshot(n));
    StepRefines(t, a, Snapshot(n));
    assert n in a'.snaps;
    CreateHeadContent(t, n, t.size, o);
    SnapshotsNeverChange(t', a', steps, u, n, o);
    RevertHeadContent(u, n, o);
  }
}
