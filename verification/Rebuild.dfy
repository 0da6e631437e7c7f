/**
 Rebuilding a replica under live writes (pkg/controller/rebuild.go, pkg/sync/sync.go, pkg/sync/rpc/server.go).
 */
module Rebuilds {
  import opened Sectors
  import opened Sets
  import opened Layers
  import opened SnapshotStores
  import opened SnapshotTrees
  import opened SnapshotRuns
  import EngineSpec
  import WriteSpec

  type Addr = EngineSpec.Addr

  /** The directory of the replica that is being rebuilt. */
  datatype Dir = Dir(disks: map<Name, Disk>, files: map<Name, Layer>, head: Name)

  /** `srcs` are the read-write replicas; `pending` are the disks still to copy, once the copy list was made. */
  datatype Rebuild = Rebuild(
    ss: nat,
    backing: Option<Layer>,
    size: nat,
    srcs: map<Addr, Tree>,
    dst: Dir,
    prepared: bool,
    pending: set<Name>)

  /** The copy list is made from one replica, and a disk's file and metadata are copied from any two. */
  datatype RebuildStep =
    | MirrorWrite(off: nat, p: seq<byte>)
    | TakeSnapshot(name: Name)
    | MarkDeleted(name: Name)
    | Lose(lost: set<Addr>)
    | Prepare(from: Addr)
    | CopyDisk(name: Name, file: Addr, meta: Addr)

  /** The disks of a replica but its head. */
  function Listed(disks: map<Name, Disk>, head: Name): set<Name> {
    disks.Keys - {head}
  }

  // ---------------------------------------------------------------- the copy list and the final check

  /** Makes the list of disks to copy, and finds the disks that the source does not have. */
  method PrepareRebuildReplica(fromDisks: set<Name>, toDisks: set<Name>)
    returns (syncList: seq<Name>, extraDisks: set<Name>)
    ensures forall n :: n in syncList <==> n in fromDisks
    ensures forall i, j :: 0 <= i < j < |syncList| ==> syncList[i] != syncList[j]
    ensures extraDisks == toDisks - fromDisks
  {
    syncList, extraDisks := [], toDisks;
    var todo := fromDisks;
    while todo != {}
      invariant todo <= fromDisks
      invariant forall n :: n in syncList <==> n in fromDisks - todo
      invariant forall i, j :: 0 <= i < j < |syncList| ==> syncList[i] != syncList[j]
      invariant extraDisks == toDisks - (fromDisks - todo)
      decreases |todo|
    {
      var diskName :| diskName in todo;
      syncList := syncList + [diskName];
      extraDisks := extraDisks - {diskName};
      todo := todo - {diskName};
    }
  }

  /** Equal numbers of disks and every disk of the source found: the names are the same. */
  method VerifyRebuildReplica(fromDisks: set<Name>, toDisks: set<Name>) returns (ok: bool)
    ensures ok <==> fromDisks == toDisks
  {
    if |fromDisks| != |toDisks| {
      return false;
    }
    var todo := fromDisks;
    while todo != {}
      invariant todo <= fromDisks && fromDisks - todo <= toDisks
      decreases |todo|
    {
      var diskName :| diskName in todo;
      if diskName !in toDisks {
        return false;
      }
      todo := todo - {diskName};
    }
    SubsetSize(fromDisks, toDisks);
    return true;
  }

  // ---------------------------------------------------------------- the protocol

  // A new replica joins write-only with a snapshot that all replicas take, mirrors every whole-sector write, has its
  // extra disks removed and the other disks copied, each from any read-write replica, and is promoted when the disk
  // names agree. The read-write replicas show the same bytes, but their files may differ.

  /** A tree of this volume. */
  ghost predicate WfTree(t: Tree, ss: nat, backing: Option<Layer>, size: nat) {
    && Wf(t) && t.store.ss == ss && t.store.backing == backing && t.size == size
    && |t.store.files[t.head].bytes| == size
  }

  ghost predicate WfDir(d: Dir, size: nat) {
    && d.head.HeadDisk? && d.head in d.disks && d.files.Keys == d.disks.Keys
    && |d.files[d.head].bytes| == size
  }

  ghost predicate WfRebuild(r: Rebuild) {
    && 0 < r.ss && WfDir(r.dst, r.size)
    && forall a :: a in r.srcs ==> WfTree(r.srcs[a], r.ss, r.backing, r.size)
  }

  ghost predicate Enabled(r: Rebuild, step: RebuildStep)
    requires WfRebuild(r)
  {
    match step
    case MirrorWrite(off, p) => Rem(off, r.ss) == 0 && Rem(|p|, r.ss) == 0 && off + |p| <= r.size
    case TakeSnapshot(n) => n.SnapDisk? && n !in r.dst.disks && forall a :: a in r.srcs ==> n !in r.srcs[a].store.disks
    case MarkDeleted(n) => forall a :: a in r.srcs ==> n in Listed(r.srcs[a].store.disks, r.srcs[a].head)
    case Lose(lost) => true
    case Prepare(from) => !r.prepared && from in r.srcs
    case CopyDisk(n, file, meta) =>
      && r.prepared && n in r.pending && n != r.dst.head && file in r.srcs && meta in r.srcs
      && n in r.srcs[file].store.disks && n in r.srcs[meta].store.disks
  }

  /** A replica after its head took a write of whole sectors. */
  function WriteTree(t: Tree, off: nat, p: seq<byte>): Tree
    requires 0 < t.store.ss && t.head in t.store.files && off + |p| <= |t.store.files[t.head].bytes|
  {
    SetFile(t, t.head, WriteLayer(t.store.files[t.head], off, p, t.store.ss))
  }

  /** The directory after its head took a write of whole sectors. */
  function DirWrite(d: Dir, off: nat, p: seq<byte>, ss: nat): Dir
    requires 0 < ss && d.head in d.files && off + |p| <= |d.files[d.head].bytes|
  {
    d.(files := d.files[d.head := WriteLayer(d.files[d.head], off, p, ss)])
  }

  /** The directory after a snapshot. */
  function DirSnapshot(d: Dir, n: Name, size: nat): Dir
    requires d.head.HeadDisk? && d.head in d.disks && d.head in d.files
  {
    Dir(CreateDisks(d.disks, d.head, n, NextHead(d.head)), CreateFiles(d.files, d.head, n, NextHead(d.head), size),
        NextHead(d.head))
  }

  /** The directory after a disk was marked as removed, if it has it. */
  function DirMark(d: Dir, n: Name): Dir {
    if n in d.disks && n != d.head then d.(disks := d.disks[n := d.disks[n].(removed := true)]) else d
  }

  /** The directory after its extra disks were removed and its head's metadata were copied from the source's head. */
  function DirPrepared(d: Dir, src: Tree): Dir
    requires src.head in src.store.disks
  {
    var keep := Listed(src.store.disks, src.head);
    Dir((map n | n in d.disks && n in keep :: d.disks[n])[d.head := src.store.disks[src.head]],
        map n | n in d.files && (n in keep || n == d.head) :: d.files[n], d.head)
  }

  ghost function Next(r: Rebuild, step: RebuildStep): Rebuild
    requires WfRebuild(r) && Enabled(r, step)
  {
    match step
    case MirrorWrite(off, p) =>
      r.(srcs := map a | a in r.srcs :: WriteTree(r.srcs[a], off, p), dst := DirWrite(r.dst, off, p, r.ss))
    case TakeSnapshot(n) =>
      r.(srcs := map a | a in r.srcs :: CreateDisk(r.srcs[a], n, r.size), dst := DirSnapshot(r.dst, n, r.size))
    case MarkDeleted(n) =>
      r.(srcs := map a | a in r.srcs :: MarkDisk(r.srcs[a], n), dst := DirMark(r.dst, n))
    case Lose(lost) => r.(srcs := r.srcs - lost)
    case Prepare(from) =>
      r.(dst := DirPrepared(r.dst, r.srcs[from]), prepared := true,
         pending := Listed(r.srcs[from].store.disks, r.srcs[from].head))
    case CopyDisk(n, file, meta) =>
      r.(dst := r.dst.(disks := r.dst.disks[n := r.srcs[meta].store.disks[n]],
                       files := r.dst.files[n := r.srcs[file].store.files[n]]),
         pending := r.pending - {n})
  }

  ghost predicate Runs(r: Rebuild, steps: seq<RebuildStep>, u: Rebuild)
    decreases |steps|
  {
    if steps == [] then r == u
    else WfRebuild(r) && Enabled(r, steps[0]) && Runs(Next(r, steps[0]), steps[1..], u)
  }

  // ---------------------------------------------------------------- replicas that show the same

  /** Disk `n` of one replica and disk `m` of another have the same parent and mark and show the same bytes. */
  ghost predicate Twin(t: Tree, n: Name, u: Tree, m: Name) {
    && Wf(t) && Wf(u) && n in t.store.disks && m in u.store.disks
    && t.store.disks[n] == u.store.disks[m]
    && forall o: nat :: Content(t.store, n, o) == Content(u.store, m, o)
  }

  /** Two replicas have the same disks, and each shows the same in both; the heads may have different names. */
  ghost predicate Twins(t: Tree, u: Tree) {
    && Listed(t.store.disks, t.head) == Listed(u.store.disks, u.head)
    && Twin(t, t.head, u, u.head)
    && forall n :: n in Listed(t.store.disks, t.head) ==> Twin(t, n, u, n)
  }

  /** What disk `n` would show at `o` if its file were `f`. */
  ghost function Resolve(st: Store, n: Name, f: Layer, o: nat): byte
    requires Sound(st) && n in st.disks
  {
    assert ParentOk(st.disks, n);
    var p := st.disks[n].parent;
    if Sec(o, st.ss) in f.alloc || (p == NoDisk && st.backing.None?) then FileByte(f, o)
    else if p == NoDisk then FileByte(st.backing.value, o)
    else Content(st, p, o)
  }

  /** With the file `f` disk `n` would show what it shows. */
  ghost predicate Explains(t: Tree, n: Name, f: Layer) {
    && Wf(t) && n in t.store.disks
    && forall o: nat :: Resolve(t.store, n, f, o) == Content(t.store, n, o)
  }

  lemma {:induction false} OwnExplains(t: Tree, n: Name)
    requires Wf(t) && n in t.store.disks
    ensures Explains(t, n, t.store.files[n])
  {
  }

  /** A file explains a disk on every replica if it does on one. */
  lemma {:induction false} TwinExplains(t: Tree, u: Tree, n: Name, m: Name, f: Layer)
    requires Twins(t, u) && t.store.ss == u.store.ss && t.store.backing == u.store.backing
    requires Twin(t, n, u, m) && Explains(t, n, f)
    ensures Explains(u, m, f)
  {
    var p := t.store.disks[n].parent;
    assert ParentOk(t.store.disks, n) && p != t.head;
    if p != NoDisk {
      assert p in Listed(t.store.disks, t.head) && Twin(t, p, u, p);
    }
    forall o: nat
      ensures Resolve(u.store, m, f, o) == Content(u.store, m, o)
    {
      assert Resolve(t.store, n, f, o) == Content(t.store, n, o);
      assert p != NoDisk ==> Content(t.store, p, o) == Content(u.store, p, o);
    }
  }

  // ---------------------------------------------------------------- the invariant

  /** The new replica has disk `n` with its metadata and a file that explains what the read-write replica shows. */
  ghost predicate Same(t: Tree, dst: Dir, n: Name) {
    && n in t.store.disks && n in dst.disks && n in dst.files
    && dst.disks[n] == t.store.disks[n]
    && Explains(t, n, dst.files[n])
  }

  /** Once the copy list is made: only known disks, the head in place, and all disks right but the pending ones. */
  ghost predicate Mirrored(t: Tree, dst: Dir, pending: set<Name>) {
    && t.head in t.store.disks && dst.head in dst.disks
    && dst.disks[dst.head] == t.store.disks[t.head]
    && pending <= Listed(t.store.disks, t.head)
    && (forall n :: n in dst.disks && n != dst.head ==> n in Listed(t.store.disks, t.head))
    && (forall n :: n in Listed(t.store.disks, t.head) && n !in pending ==> Same(t, dst, n))
  }

  /** The new replica against one read-write replica. */
  ghost predicate Follows(t: Tree, dst: Dir, prepared: bool, pending: set<Name>) {
    && dst.head in dst.files && Explains(t, t.head, dst.files[dst.head])
    && (prepared ==> Mirrored(t, dst, pending))
  }

  ghost predicate Inv(r: Rebuild) {
    && WfRebuild(r)
    && (forall a, b :: a in r.srcs && b in r.srcs ==> Twins(r.srcs[a], r.srcs[b]))
    && (forall a :: a in r.srcs ==> Follows(r.srcs[a], r.dst, r.prepared, r.pending))
  }

  /** What holds when the new replica has joined: all heads are new and empty, above the common snapshot. */
  ghost predicate Joined(r: Rebuild) {
    && WfRebuild(r) && !r.prepared && r.pending == {}
    && r.dst.files[r.dst.head] == Layer(Zeros(r.size), {})
    && (forall a, b :: a in r.srcs && b in r.srcs ==> Twins(r.srcs[a], r.srcs[b]))
    && (forall a :: a in r.srcs ==> EmptyHead(r.srcs[a], r.size))
  }

  ghost predicate EmptyHead(t: Tree, size: nat) {
    && t.head in t.store.disks && t.head in t.store.files
    && t.store.disks[t.head].parent != NoDisk && t.store.files[t.head] == Layer(Zeros(size), {})
  }

  lemma {:induction false} JoinedInv(r: Rebuild)
    requires Joined(r)
    ensures Inv(r)
  {
    forall a | a in r.srcs
      ensures Follows(r.srcs[a], r.dst, r.prepared, r.pending)
    {
      assert EmptyHead(r.srcs[a], r.size);
      OwnExplains(r.srcs[a], r.srcs[a].head);
    }
  }

  // ---------------------------------------------------------------- what the steps do to one replica

  lemma {:induction false} WriteTreeWf(t: Tree, ss: nat, backing: Option<Layer>, size: nat, off: nat, p: seq<byte>)
    requires 0 < ss && WfTree(t, ss, backing, size) && off + |p| <= size
    ensures WfTree(WriteTree(t, off, p), ss, backing, size)
  {
    SetFileWf(t, t.head, WriteLayer(t.store.files[t.head], off, p, ss));
  }

  /** A write of whole sectors shows on the head, at its own bytes, and on no other disk. */
  lemma {:induction false} WriteShows(t: Tree, off: nat, p: seq<byte>, n: Name, o: nat)
    requires Wf(t) && n in t.store.disks && off + |p| <= |t.store.files[t.head].bytes|
    requires Rem(off, t.store.ss) == 0 && Rem(|p|, t.store.ss) == 0
    ensures Wf(WriteTree(t, off, p))
    ensures Content(WriteTree(t, off, p).store, n, o) ==
            if n == t.head && off <= o < off + |p| then p[o - off] else Content(t.store, n, o)
  {
    hide ChildrenOk, ChainOk, Touched;
    var layer := WriteLayer(t.store.files[t.head], off, p, t.store.ss);
    SetFileWf(t, t.head, layer);
    AlignedTouch(off, |p|, t.store.ss, o);
    if n != t.head {
      HeadChangeContent(t, layer, n, o);
    } else {
      var q := t.store.disks[n].parent;
      assert ParentOk(t.store.disks, n) && q != t.head;
      if q != NoDisk {
        HeadChangeContent(t, layer, q, o);
      }
    }
  }

  lemma {:induction false} WriteTwin(t: Tree, n: Name, u: Tree, m: Name, off: nat, p: seq<byte>)
    requires Twin(t, n, u, m) && (n == t.head <==> m == u.head) && t.store.ss == u.store.ss
    requires off + |p| <= |t.store.files[t.head].bytes| == |u.store.files[u.head].bytes|
    requires Rem(off, t.store.ss) == 0 && Rem(|p|, t.store.ss) == 0
    ensures Twin(WriteTree(t, off, p), n, WriteTree(u, off, p), m)
  {
    SetFileWf(t, t.head, WriteLayer(t.store.files[t.head], off, p, t.store.ss));
    SetFileWf(u, u.head, WriteLayer(u.store.files[u.head], off, p, u.store.ss));
    forall o: nat
      ensures Content(WriteTree(t, off, p).store, n, o) == Content(WriteTree(u, off, p).store, m, o)
    {
      WriteShows(t, off, p, n, o);
      WriteShows(u, off, p, m, o);
    }
  }

  lemma {:induction false} WriteTwins(t: Tree, u: Tree, off: nat, p: seq<byte>)
    requires Twins(t, u) && t.store.ss == u.store.ss
    requires off + |p| <= |t.store.files[t.head].bytes| == |u.store.files[u.head].bytes|
    requires Rem(off, t.store.ss) == 0 && Rem(|p|, t.store.ss) == 0
    ensures Twins(WriteTree(t, off, p), WriteTree(u, off, p))
  {
    var t', u' := WriteTree(t, off, p), WriteTree(u, off, p);
    WriteTwin(t, t.head, u, u.head, off, p);
    forall n | n in Listed(t'.store.disks, t'.head)
      ensures Twin(t', n, u', n)
    {
      assert n in Listed(t.store.disks, t.head) && n in Listed(u.store.disks, u.head);
      WriteTwin(t, n, u, n, off, p);
    }
  }

  /** Whatever explained a disk before a write does so after it; the head's file must take the write, too. */
  lemma {:induction false} WriteExplains(t: Tree, off: nat, p: seq<byte>, n: Name, f: Layer, g: Layer)
    requires Explains(t, n, f) && off + |p| <= |t.store.files[t.head].bytes|
    requires Rem(off, t.store.ss) == 0 && Rem(|p|, t.store.ss) == 0
    requires if n == t.head then off + |p| <= |f.bytes| && g == WriteLayer(f, off, p, t.store.ss) else g == f
    ensures Explains(WriteTree(t, off, p), n, g)
  {
    var t' := WriteTree(t, off, p);
    SetFileWf(t, t.head, t'.store.files[t.head]);
    var q := t.store.disks[n].parent;
    assert ParentOk(t.store.disks, n) && q != t.head;
    forall o: nat
      ensures Resolve(t'.store, n, g, o) == Content(t'.store, n, o)
    {
      assert Resolve(t.store, n, f, o) == Content(t.store, n, o);
      WriteShows(t, off, p, n, o);
      AlignedTouch(off, |p|, t.store.ss, o);
      if q != NoDisk {
        WriteShows(t, off, p, q, o);
      }
    }
  }

  /** A snapshot of two twins under one name makes twins. */
  lemma {:induction false} CreateTwins(t: Tree, u: Tree, m: Name, size: nat)
    requires Twins(t, u) && m.SnapDisk? && m !in t.store.disks && m !in u.store.disks
    ensures Twins(CreateDisk(t, m, size), CreateDisk(u, m, size))
  {
    var t', u' := CreateDisk(t, m, size), CreateDisk(u, m, size);
    CreateWf(t, m, size);
    CreateWf(u, m, size);
    CreateTwinHead(t, u, m, size);
    CreateListed(t, m, size);
    CreateListed(u, m, size);
    forall n | n in Listed(t'.store.disks, t'.head)
      ensures Twin(t', n, u', n)
    {
      if n != m {
        assert Twin(t, n, u, n);
        CreateTwin(t, n, u, m, size);
      }
    }
  }

  lemma {:induction false} CreateListed(t: Tree, m: Name, size: nat)
    requires Wf(t) && m.SnapDisk? && m !in t.store.disks
    ensures var t' := CreateDisk(t, m, size);
            Listed(t'.store.disks, t'.head) == Listed(t.store.disks, t.head) + {m}
  {
    hide ChildrenOk;
  }

  lemma {:induction false} CreateTwinHead(t: Tree, u: Tree, m: Name, size: nat)
    requires Twin(t, t.head, u, u.head) && m.SnapDisk? && m !in t.store.disks && m !in u.store.disks
    ensures var t', u' := CreateDisk(t, m, size), CreateDisk(u, m, size);
            Twin(t', t'.head, u', u'.head) && Twin(t', m, u', m)
  {
    hide ChildrenOk, CreateChildren;
    var t', u' := CreateDisk(t, m, size), CreateDisk(u, m, size);
    CreateWf(t, m, size);
    CreateWf(u, m, size);
    forall o: nat
      ensures Content(t'.store, t'.head, o) == Content(u'.store, u'.head, o)
      ensures Content(t'.store, m, o) == Content(u'.store, m, o)
    {
      CreateHeadContent(t, m, size, o);
      CreateHeadContent(u, m, size, o);
    }
  }

  lemma {:induction false} CreateTwin(t: Tree, n: Name, u: Tree, m: Name, size: nat)
    requires Twin(t, n, u, n) && n != t.head && n != u.head
    requires m.SnapDisk? && m !in t.store.disks && m !in u.store.disks
    ensures Twin(CreateDisk(t, m, size), n, CreateDisk(u, m, size), n)
  {
    hide ChildrenOk, CreateChildren;
    var t', u' := CreateDisk(t, m, size), CreateDisk(u, m, size);
    CreateWf(t, m, size);
    CreateWf(u, m, size);
    CreateKeeps(t, m, size, n);
    CreateKeeps(u, m, size, n);
    forall o: nat
      ensures Content(t'.store, n, o) == Content(u'.store, n, o)
    {
      CreateContent(t, m, size, n, o);
      CreateContent(u, m, size, n, o);
    }
  }

  lemma {:induction false} CreateKeeps(t: Tree, m: Name, size: nat, n: Name)
    requires Wf(t) && m.SnapDisk? && m !in t.store.disks && n in t.store.disks && n != t.head
    ensures var t' := CreateDisk(t, m, size);
            n in t'.store.disks && n != t'.head && t'.store.disks[n] == t.store.disks[n]
  {
    hide ChildrenOk;
  }

  /** What explained a disk before a snapshot explains it after. */
  lemma {:induction false} CreateExplains(t: Tree, m: Name, size: nat, n: Name, f: Layer)
    requires Explains(t, n, f) && n != t.head && m.SnapDisk? && m !in t.store.disks
    ensures Explains(CreateDisk(t, m, size), n, f)
  {
    hide ChildrenOk, CreateChildren, CreateDisks, CreateFiles;
    CreateWf(t, m, size);
    CreateKeeps(t, m, size, n);
    forall o: nat
      ensures Resolve(CreateDisk(t, m, size).store, n, f, o) == Content(CreateDisk(t, m, size).store, n, o)
    {
      assert Resolve(t.store, n, f, o) == Content(t.store, n, o);
      CreateContent(t, m, size, n, o);
      CreateParent(t, m, size, n, o);
    }
  }

  /** What explained the head explains the snapshot. */
  lemma {:induction false} CreateExplainsSnapshot(t: Tree, m: Name, size: nat, f: Layer)
    requires Explains(t, t.head, f) && m.SnapDisk? && m !in t.store.disks
    ensures Explains(CreateDisk(t, m, size), m, f)
  {
    hide ChildrenOk, CreateChildren, CreateFiles;
    CreateWf(t, m, size);
    forall o: nat
      ensures Resolve(CreateDisk(t, m, size).store, m, f, o) == Content(CreateDisk(t, m, size).store, m, o)
    {
      assert Resolve(t.store, t.head, f, o) == Content(t.store, t.head, o);
      CreateHeadContent(t, m, size, o);
      CreateParent(t, m, size, t.head, o);
    }
  }

  /** A disk's parent shows the same after a snapshot. */
  lemma {:induction false} CreateParent(t: Tree, m: Name, size: nat, n: Name, o: nat)
    requires Wf(t) && n in t.store.disks && m.SnapDisk? && m !in t.store.disks
    ensures var q := t.store.disks[n].parent;
            Wf(CreateDisk(t, m, size)) &&
            (q != NoDisk ==> && q in t.store.disks && q in CreateDisk(t, m, size).store.disks
                             && Content(CreateDisk(t, m, size).store, q, o) == Content(t.store, q, o))
  {
    hide ChildrenOk, CreateChildren, CreateDisks, CreateFiles;
    CreateWf(t, m, size);
    var q := t.store.disks[n].parent;
    assert ParentOk(t.store.disks, n) && q != t.head;
    if q != NoDisk {
      CreateKeeps(t, m, size, q);
      CreateContent(t, m, size, q, o);
    }
  }

  /** The new head is explained by an empty file. */
  lemma {:induction false} CreateExplainsHead(t: Tree, m: Name, size: nat)
    requires Wf(t) && m.SnapDisk? && m !in t.store.disks
    ensures Explains(CreateDisk(t, m, size), CreateDisk(t, m, size).head, Layer(Zeros(size), {}))
    ensures EmptyHead(CreateDisk(t, m, size), size)
  {
    var t' := CreateDisk(t, m, size);
    CreateWf(t, m, size);
    OwnExplains(t', t'.head);
  }

  lemma {:induction false} MarkTwins(t: Tree, u: Tree, m: Name)
    requires Twins(t, u) && m in Listed(t.store.disks, t.head) && m in Listed(u.store.disks, u.head)
    ensures Twins(MarkDisk(t, m), MarkDisk(u, m))
  {
    var t', u' := MarkDisk(t, m), MarkDisk(u, m);
    MarkWf(t, m);
    MarkWf(u, m);
    MarkTwin(t, t.head, u, u.head, m);
    forall n | n in Listed(t'.store.disks, t'.head)
      ensures Twin(t', n, u', n)
    {
      assert n in Listed(t.store.disks, t.head);
      MarkTwin(t, n, u, n, m);
    }
  }

  lemma {:induction false} MarkTwin(t: Tree, n: Name, u: Tree, k: Name, m: Name)
    requires Twin(t, n, u, k) && m in Listed(t.store.disks, t.head) && m in Listed(u.store.disks, u.head)
    requires n == m <==> k == m
    ensures Twin(MarkDisk(t, m), n, MarkDisk(u, m), k)
  {
    MarkWf(t, m);
    MarkWf(u, m);
    forall o: nat
      ensures Content(MarkDisk(t, m).store, n, o) == Content(MarkDisk(u, m).store, k, o)
    {
      MarkContent(t, m, n, o);
      MarkContent(u, m, k, o);
    }
  }

  lemma {:induction false} MarkExplains(t: Tree, m: Name, n: Name, f: Layer)
    requires Explains(t, n, f) && m in Listed(t.store.disks, t.head)
    ensures Explains(MarkDisk(t, m), n, f)
  {
    MarkWf(t, m);
    var q := t.store.disks[n].parent;
    assert ParentOk(t.store.disks, n);
    forall o: nat
      ensures Resolve(MarkDisk(t, m).store, n, f, o) == Content(MarkDisk(t, m).store, n, o)
    {
      assert Resolve(t.store, n, f, o) == Content(t.store, n, o);
      MarkContent(t, m, n, o);
      if q != NoDisk {
        MarkContent(t, m, q, o);
      }
    }
  }

  // ---------------------------------------------------------------- every step keeps the invariant

  lemma {:induction false} WriteFollows(t: Tree, dst: Dir, prepared: bool, pending: set<Name>, off: nat, p: seq<byte>,
                                        size: nat)
    requires Wf(t) && Follows(t, dst, prepared, pending) && WfDir(dst, size)
    requires off + |p| <= size == |t.store.files[t.head].bytes| && Rem(off, t.store.ss) == 0 &&
             Rem(|p|, t.store.ss) == 0
    ensures Follows(WriteTree(t, off, p), DirWrite(dst, off, p, t.store.ss), prepared, pending)
  {
    var t', d' := WriteTree(t, off, p), DirWrite(dst, off, p, t.store.ss);
    WriteExplains(t, off, p, t.head, dst.files[dst.head], d'.files[dst.head]);
    if prepared {
      forall n | n in Listed(t'.store.disks, t'.head) && n !in pending
        ensures Same(t', d', n)
      {
        assert n in Listed(t.store.disks, t.head) && Same(t, dst, n) && n != dst.head;
        WriteExplains(t, off, p, n, dst.files[n], dst.files[n]);
      }
    }
  }

  lemma {:induction false} SnapshotFollows(t: Tree, dst: Dir, prepared: bool, pending: set<Name>, m: Name, size: nat)
    requires Wf(t) && Follows(t, dst, prepared, pending) && WfDir(dst, size)
    requires m.SnapDisk? && m !in t.store.disks && m !in dst.disks
    ensures Follows(CreateDisk(t, m, size), DirSnapshot(dst, m, size), prepared, pending)
  {
    hide Explains;
    CreateExplainsHead(t, m, size);
    if prepared {
      SnapshotMirrored(t, dst, pending, m, size);
    }
  }

  lemma {:induction false} SnapshotMirrored(t: Tree, dst: Dir, pending: set<Name>, m: Name, size: nat)
    requires Wf(t) && Mirrored(t, dst, pending) && WfDir(dst, size) && Explains(t, t.head, dst.files[dst.head])
    requires m.SnapDisk? && m !in t.store.disks && m !in dst.disks
    ensures Mirrored(CreateDisk(t, m, size), DirSnapshot(dst, m, size), pending)
  {
    hide Explains, ChildrenOk, TreeOk, Linked, Same, CreateChildren, CreateFiles;
    var t', d' := CreateDisk(t, m, size), DirSnapshot(dst, m, size);
    CreateListed(t, m, size);
    SnapshotSame(t, dst, m, size);
    forall n | n in Listed(t.store.disks, t.head) && n !in pending
      ensures Same(t', d', n)
    {
      KeptSame(t, dst, m, size, n);
    }
  }

  lemma {:induction false} SnapshotSame(t: Tree, dst: Dir, m: Name, size: nat)
    requires Wf(t) && WfDir(dst, size) && Explains(t, t.head, dst.files[dst.head])
    requires dst.disks[dst.head] == t.store.disks[t.head]
    requires m.SnapDisk? && m !in t.store.disks && m !in dst.disks
    ensures Same(CreateDisk(t, m, size), DirSnapshot(dst, m, size), m)
  {
    hide Explains, ChildrenOk, TreeOk, Linked;
    CreateExplainsSnapshot(t, m, size, dst.files[dst.head]);
  }

  lemma {:induction false} KeptSame(t: Tree, dst: Dir, m: Name, size: nat, n: Name)
    requires Wf(t) && WfDir(dst, size) && n != t.head && Same(t, dst, n)
    requires m.SnapDisk? && m !in t.store.disks && m !in dst.disks
    ensures Same(CreateDisk(t, m, size), DirSnapshot(dst, m, size), n)
  {
    hide Explains, ChildrenOk, TreeOk, Linked;
    CreateKeeps(t, m, size, n);
    CreateExplains(t, m, size, n, dst.files[n]);
  }

  lemma {:induction false} MarkFollows(t: Tree, dst: Dir, prepared: bool, pending: set<Name>, m: Name)
    requires Wf(t) && Follows(t, dst, prepared, pending) && m in Listed(t.store.disks, t.head) && dst.head.HeadDisk?
    ensures Follows(MarkDisk(t, m), DirMark(dst, m), prepared, pending)
  {
    hide Explains;
    var t', d' := MarkDisk(t, m), DirMark(dst, m);
    MarkExplains(t, m, t.head, dst.files[dst.head]);
    if prepared {
      forall n | n in Listed(t'.store.disks, t'.head) && n !in pending
        ensures Same(t', d', n)
      {
        assert n in Listed(t.store.disks, t.head) && Same(t, dst, n);
        MarkExplains(t, m, n, dst.files[n]);
      }
    }
  }

  lemma {:induction false} PrepareFollows(t: Tree, from: Tree, dst: Dir, size: nat)
    requires Wf(t) && Twins(from, t) && WfDir(dst, size) && Follows(t, dst, false, {})
    ensures Follows(t, DirPrepared(dst, from), true, Listed(from.store.disks, from.head))
  {
    hide Explains;
  }

  lemma {:induction false} CopyFollows(t: Tree, file: Tree, meta: Tree, dst: Dir, pending: set<Name>, m: Name)
    requires Twins(file, t) && Twins(meta, t) && file.store.ss == t.store.ss && file.store.backing == t.store.backing
    requires Wf(t) && Follows(t, dst, true, pending) && m in pending && m != dst.head
    requires m in file.store.disks && m in meta.store.disks && m in file.store.files
    ensures var d' := Dir(dst.disks[m := meta.store.disks[m]], dst.files[m := file.store.files[m]], dst.head);
            Follows(t, d', true, pending - {m})
  {
    hide Explains, Wf;
    var d' := Dir(dst.disks[m := meta.store.disks[m]], dst.files[m := file.store.files[m]], dst.head);
    assert m in Listed(t.store.disks, t.head) && Twin(file, m, t, m) && Twin(meta, m, t, m);
    OwnExplains(file, m);
    TwinExplains(file, t, m, m, file.store.files[m]);
    forall n | n in Listed(t.store.disks, t.head) && n !in pending - {m}
      ensures Same(t, d', n)
    {
      if n != m {
        assert Same(t, dst, n);
      }
    }
  }

  lemma {:induction false} WriteKeeps(r: Rebuild, off: nat, p: seq<byte>)
    requires Inv(r) && Enabled(r, MirrorWrite(off, p))
    ensures Inv(Next(r, MirrorWrite(off, p)))
  {
    hide Twins, Follows, WfTree;
    var r' := Next(r, MirrorWrite(off, p));
    forall a | a in r.srcs
      ensures WfTree(r'.srcs[a], r.ss, r.backing, r.size) && Follows(r'.srcs[a], r'.dst, r.prepared, r.pending)
    {
      TreeFacts(r.srcs[a], r.ss, r.backing, r.size);
      WriteTreeWf(r.srcs[a], r.ss, r.backing, r.size, off, p);
      WriteFollows(r.srcs[a], r.dst, r.prepared, r.pending, off, p, r.size);
    }
    forall a, b | a in r.srcs && b in r.srcs
      ensures Twins(r'.srcs[a], r'.srcs[b])
    {
      TreeFacts(r.srcs[a], r.ss, r.backing, r.size);
      TreeFacts(r.srcs[b], r.ss, r.backing, r.size);
      WriteTwins(r.srcs[a], r.srcs[b], off, p);
    }
  }

  lemma {:induction false} TreeFacts(t: Tree, ss: nat, backing: Option<Layer>, size: nat)
    requires WfTree(t, ss, backing, size)
    ensures Wf(t) && t.store.ss == ss && t.store.backing == backing && t.size == size
    ensures t.head in t.store.disks && t.store.files.Keys == t.store.disks.Keys && |t.store.files[t.head].bytes| == size
  {
  }

  lemma {:induction false} SnapshotWf(t: Tree, ss: nat, backing: Option<Layer>, size: nat, m: Name)
    requires WfTree(t, ss, backing, size) && m.SnapDisk? && m !in t.store.disks
    ensures WfTree(CreateDisk(t, m, size), ss, backing, size)
  {
    CreateWf(t, m, size);
  }

  lemma {:induction false} DirSnapshotWf(d: Dir, m: Name, size: nat)
    requires d.head.HeadDisk? && d.head in d.disks && d.files.Keys == d.disks.Keys && m.SnapDisk?
    ensures WfDir(DirSnapshot(d, m, size), size)
  {
  }

  lemma {:induction false} SnapshotKeeps(r: Rebuild, m: Name)
    requires Inv(r) && Enabled(r, TakeSnapshot(m))
    ensures Inv(Next(r, TakeSnapshot(m)))
  {
    hide Twins, Follows, WfTree, WfDir, CreateDisk, DirSnapshot;
    var r' := Next(r, TakeSnapshot(m));
    DirFacts(r.dst, r.size);
    DirSnapshotWf(r.dst, m, r.size);
    forall a | a in r.srcs
      ensures WfTree(r'.srcs[a], r.ss, r.backing, r.size) && Follows(r'.srcs[a], r'.dst, r.prepared, r.pending)
    {
      TreeFacts(r.srcs[a], r.ss, r.backing, r.size);
      SnapshotWf(r.srcs[a], r.ss, r.backing, r.size, m);
      SnapshotFollows(r.srcs[a], r.dst, r.prepared, r.pending, m, r.size);
    }
    forall a, b | a in r.srcs && b in r.srcs
      ensures Twins(r'.srcs[a], r'.srcs[b])
    {
      CreateTwins(r.srcs[a], r.srcs[b], m, r.size);
    }
  }

  lemma {:induction false} DirFacts(d: Dir, size: nat)
    requires WfDir(d, size)
    ensures d.head.HeadDisk? && d.head in d.disks && d.files.Keys == d.disks.Keys
  {
  }

  lemma {:induction false} MarkKeeps(r: Rebuild, m: Name)
    requires Inv(r) && Enabled(r, MarkDeleted(m))
    ensures Inv(Next(r, MarkDeleted(m)))
  {
    hide Twins, Follows, Wf;
    var r' := Next(r, MarkDeleted(m));
    forall a | a in r.srcs
      ensures WfTree(r'.srcs[a], r.ss, r.backing, r.size) && Follows(r'.srcs[a], r'.dst, r.prepared, r.pending)
    {
      TreeFacts(r.srcs[a], r.ss, r.backing, r.size);
      MarkWf(r.srcs[a], m);
      MarkFollows(r.srcs[a], r.dst, r.prepared, r.pending, m);
    }
    forall a, b | a in r.srcs && b in r.srcs
      ensures Twins(r'.srcs[a], r'.srcs[b])
    {
      MarkTwins(r.srcs[a], r.srcs[b], m);
    }
  }

  lemma {:induction false} PrepareKeeps(r: Rebuild, from: Addr)
    requires Inv(r) && Enabled(r, Prepare(from))
    ensures Inv(Next(r, Prepare(from)))
  {
    hide Twins, Follows, Wf;
    var r' := Next(r, Prepare(from));
    forall a | a in r.srcs
      ensures Follows(r.srcs[a], r'.dst, true, r'.pending)
    {
      NotPrepared(r.srcs[a], r.dst, r.pending);
      PrepareFollows(r.srcs[a], r.srcs[from], r.dst, r.size);
    }
  }

  lemma {:induction false} NotPrepared(t: Tree, dst: Dir, pending: set<Name>)
    requires Follows(t, dst, false, pending)
    ensures Follows(t, dst, false, {})
  {
  }

  lemma {:induction false} CopyKeeps(r: Rebuild, m: Name, file: Addr, meta: Addr)
    requires Inv(r) && Enabled(r, CopyDisk(m, file, meta))
    ensures Inv(Next(r, CopyDisk(m, file, meta)))
  {
    hide Twins, Follows, WfTree;
    var r' := Next(r, CopyDisk(m, file, meta));
    TreeFacts(r.srcs[file], r.ss, r.backing, r.size);
    forall a | a in r.srcs
      ensures Follows(r.srcs[a], r'.dst, true, r'.pending)
    {
      TreeFacts(r.srcs[a], r.ss, r.backing, r.size);
      CopyFollows(r.srcs[a], r.srcs[file], r.srcs[meta], r.dst, r.pending, m);
    }
  }

  lemma {:induction false} StepKeeps(r: Rebuild, step: RebuildStep)
    requires Inv(r) && Enabled(r, step)
    ensures Inv(Next(r, step))
  {
    hide WfRebuild, Twins, Follows;
    match step
    case MirrorWrite(off, p) => WriteKeeps(r, off, p);
    case TakeSnapshot(n) => SnapshotKeeps(r, n);
    case MarkDeleted(n) => MarkKeeps(r, n);
    case Lose(lost) => LoseKeeps(r, lost);
    case Prepare(from) => PrepareKeeps(r, from);
    case CopyDisk(n, file, meta) => CopyKeeps(r, n, file, meta);
  }

  lemma {:induction false} LoseKeeps(r: Rebuild, lost: set<Addr>)
    requires Inv(r)
    ensures Inv(Next(r, Lose(lost)))
  {
    hide WfTree, Twins, Follows;
  }

  lemma {:induction false} RunKeeps(r: Rebuild, steps: seq<RebuildStep>, u: Rebuild)
    requires Inv(r) && Runs(r, steps, u)
    ensures Inv(u)
    decreases |steps|
  {
    hide Inv, Next, Enabled, WfRebuild;
    if steps != [] {
      StepKeeps(r, steps[0]);
      RunKeeps(Next(r, steps[0]), steps[1..], u);
    }
  }

  // ---------------------------------------------------------------- joining

  /** The volume of replicas that show the same, and a directory, after all took a snapshot under one name. */
  ghost function JoinedState(srcs: map<Addr, Tree>, dst: Dir, n: Name, ss: nat, backing: Option<Layer>,
                             size: nat): Rebuild
    requires forall a :: a in srcs ==> WfTree(srcs[a], ss, backing, size)
    requires dst.head.HeadDisk? && dst.head in dst.disks && dst.head in dst.files
  {
    Rebuild(ss, backing, size,
            map a | a in srcs :: assert WfTree(srcs[a], ss, backing, size); CreateDisk(srcs[a], n, size),
            DirSnapshot(dst, n, size), false, {})
  }

  lemma {:induction false} DirSnapshotHead(d: Dir, m: Name, size: nat)
    requires d.head.HeadDisk? && d.head in d.disks && d.head in d.files && m.SnapDisk?
    ensures var d' := DirSnapshot(d, m, size);
            d'.head in d'.files && d'.files[d'.head] == Layer(Zeros(size), {})
  {
  }

  /** A snapshot of all replicas under one name lets the new one join, whatever its directory held before. */
  lemma {:induction false} JoinSnapshot(srcs: map<Addr, Tree>, dst: Dir, n: Name, ss: nat, backing: Option<Layer>,
                                        size: nat)
    requires 0 < ss && n.SnapDisk? && forall a :: a in srcs ==>
               WfTree(srcs[a], ss, backing, size) && n !in srcs[a].store.disks
    requires forall a, b :: a in srcs && b in srcs ==> Twins(srcs[a], srcs[b])
    requires dst.head.HeadDisk? && dst.head in dst.disks && dst.files.Keys == dst.disks.Keys && n !in dst.disks
    ensures Joined(JoinedState(srcs, dst, n, ss, backing, size))
  {
    hide Twins, WfTree, CreateDisk, DirSnapshot, EmptyHead;
    DirSnapshotWf(dst, n, size);
    DirSnapshotHead(dst, n, size);
    var r := JoinedState(srcs, dst, n, ss, backing, size);
    forall a | a in srcs
      ensures WfTree(r.srcs[a], ss, backing, size) && EmptyHead(r.srcs[a], size)
    {
      TreeFacts(srcs[a], ss, backing, size);
      SnapshotWf(srcs[a], ss, backing, size, n);
      CreateExplainsHead(srcs[a], n, size);
    }
    forall a, b | a in srcs && b in srcs
      ensures Twins(r.srcs[a], r.srcs[b])
    {
      CreateTwins(srcs[a], srcs[b], n, size);
    }
  }

  // ---------------------------------------------------------------- the rebuilt replica

  ghost predicate Complete(r: Rebuild) {
    Inv(r) && r.prepared && r.pending == {}
  }

  /** The disk tree of the rebuilt replica. */
  function StoreOf(r: Rebuild): Store {
    Store(r.ss, r.backing, r.dst.disks, r.dst.files)
  }

  /** When everything is copied, the final check of the disk names passes against any read-write replica. */
  lemma {:induction false} NamesAgree(r: Rebuild, a: Addr)
    requires Complete(r) && a in r.srcs
    ensures Listed(r.dst.disks, r.dst.head) == Listed(r.srcs[a].store.disks, r.srcs[a].head)
  {
    hide Wf, Twins, Explains;
    var t := r.srcs[a];
    forall n | n in Listed(t.store.disks, t.head)
      ensures n in Listed(r.dst.disks, r.dst.head)
    {
      assert Same(t, r.dst, n);
      ListedSnapshot(t, n);
    }
  }

  lemma {:induction false} ListedSnapshot(t: Tree, n: Name)
    requires Wf(t) && n in Listed(t.store.disks, t.head)
    ensures !n.HeadDisk?
  {
  }

  lemma {:induction false} RebuiltSound(r: Rebuild, a: Addr)
    requires Complete(r) && a in r.srcs
    ensures Sound(StoreOf(r)) && HeadOk(r.dst.disks, r.dst.head)
  {
    hide Complete, Wf, ParentOk;
    CompleteFacts(r);
    DirFacts(r.dst, r.size);
    NamesAgree(r, a);
    RebuiltMarks(r, a);
    TreeFacts(r.srcs[a], r.ss, r.backing, r.size);
    var t := r.srcs[a];
    forall n | n in r.dst.disks
      ensures ParentOk(r.dst.disks, n) && r.dst.disks[n].parent != r.dst.head && (n.HeadDisk? ==> n == r.dst.head)
      ensures n != NoDisk && n != BackingDisk
    {
      var m := if n == r.dst.head then t.head else n;
      assert n != r.dst.head ==> n in Listed(t.store.disks, t.head);
      ParentListed(t, m);
      ListedKinds(t, m);
      RebuiltParent(t, r.dst, n, m);
    }
  }

  lemma {:induction false} ListedKinds(t: Tree, m: Name)
    requires Wf(t) && m in t.store.disks
    ensures m != NoDisk && m != BackingDisk && (m.HeadDisk? ==> m == t.head)
    ensures var p := t.store.disks[m].parent;
            p != NoDisk ==> p in Listed(t.store.disks, t.head) && !p.HeadDisk?
  {
    assert ParentOk(t.store.disks, m);
  }

  /** A disk with the metadata that it has on a read-write replica has a proper parent. */
  lemma {:induction false} RebuiltParent(t: Tree, dst: Dir, n: Name, m: Name)
    requires n in dst.disks && m in t.store.disks && dst.disks[n] == t.store.disks[m] && dst.head.HeadDisk?
    requires forall k :: k in Listed(t.store.disks, t.head) ==> k in dst.disks && dst.disks[k] == t.store.disks[k]
    requires var p := t.store.disks[m].parent;
             p != NoDisk ==> && p in Listed(t.store.disks, t.head) && !p.HeadDisk?
                             && t.store.disks[p].rank < t.store.disks[m].rank
    ensures ParentOk(dst.disks, n) && dst.disks[n].parent != dst.head
  {
  }

  /** Every snapshot of the rebuilt replica shows what it shows on a read-write replica. */
  lemma {:induction false} RebuiltContent(r: Rebuild, a: Addr, n: Name, o: nat)
    requires Complete(r) && a in r.srcs && Sound(StoreOf(r))
    requires n in Listed(r.srcs[a].store.disks, r.srcs[a].head)
    ensures n in r.dst.disks && Content(StoreOf(r), n, o) == Content(r.srcs[a].store, n, o)
    decreases r.srcs[a].store.disks[n].rank
  {
    hide Twins, ChildrenOk, ChainOk, TreeOk;
    var t := r.srcs[a];
    assert Same(t, r.dst, n);
    ParentListed(t, n);
    var p := t.store.disks[n].parent;
    if p != NoDisk {
      RebuiltContent(r, a, p, o);
    }
    assert Resolve(t.store, n, r.dst.files[n], o) == Content(t.store, n, o);
  }

  lemma {:induction false} ParentListed(t: Tree, n: Name)
    requires Wf(t) && n in t.store.disks
    ensures var p := t.store.disks[n].parent;
            p != NoDisk ==> p in Listed(t.store.disks, t.head) && t.store.disks[p].rank < t.store.disks[n].rank
  {
    assert ParentOk(t.store.disks, n);
  }

  lemma {:induction false} RebuiltHead(r: Rebuild, a: Addr, o: nat)
    requires Complete(r) && a in r.srcs && Sound(StoreOf(r))
    ensures Content(StoreOf(r), r.dst.head, o) == Content(r.srcs[a].store, r.srcs[a].head, o)
  {
    hide Twins, ChildrenOk, ChainOk, TreeOk;
    var t := r.srcs[a];
    ParentListed(t, t.head);
    var p := t.store.disks[t.head].parent;
    if p != NoDisk {
      RebuiltContent(r, a, p, o);
    }
    assert Resolve(t.store, t.head, r.dst.files[r.dst.head], o) == Content(t.store, t.head, o);
  }

  /** The rebuilt replica as it is opened. */
  ghost function RebuiltTree(r: Rebuild): Tree
    requires TreeOk(r.dst.disks) && r.dst.head in r.dst.disks
  {
    Tree(StoreOf(r), ChildMap(r.dst.disks), PathTo(r.dst.disks, r.dst.head), r.dst.head,
         r.dst.disks[r.dst.head].parent, r.size)
  }

  lemma {:induction false} RebuiltWf(r: Rebuild, a: Addr)
    requires Complete(r) && a in r.srcs && Sound(StoreOf(r)) && HeadOk(r.dst.disks, r.dst.head)
    ensures WfTree(RebuiltTree(r), r.ss, r.backing, r.size)
  {
    hide Complete, WfRebuild, ChildMap, PathTo, TreeOk, HeadOk, ChildrenOk, Path;
    CompleteFacts(r);
    RebuiltSize(r);
    ChildMapOk(r.dst.disks);
  }

  lemma {:induction false} RebuiltSize(r: Rebuild)
    requires WfRebuild(r)
    ensures r.dst.head in r.dst.files && |r.dst.files[r.dst.head].bytes| == r.size
  {
  }

  /** Every disk of the rebuilt replica has the metadata that it has on a read-write replica, its mark included. */
  lemma {:induction false} RebuiltMarks(r: Rebuild, a: Addr)
    requires Complete(r) && a in r.srcs
    ensures r.dst.head in r.dst.disks && r.srcs[a].head in r.srcs[a].store.disks
    ensures r.dst.disks[r.dst.head] == r.srcs[a].store.disks[r.srcs[a].head]
    ensures forall n :: n in Listed(r.srcs[a].store.disks, r.srcs[a].head) ==>
              n in r.dst.disks && r.dst.disks[n] == r.srcs[a].store.disks[n]
  {
    hide Wf, Twins, Explains;
    forall n | n in Listed(r.srcs[a].store.disks, r.srcs[a].head)
      ensures n in r.dst.disks && r.dst.disks[n] == r.srcs[a].store.disks[n]
    {
      assert Same(r.srcs[a], r.dst, n);
    }
  }

  /** The rebuilt replica stands for the same live bytes and snapshots as every read-write replica. */
  lemma {:induction false} RebuiltRefines(r: Rebuild, a: Addr, i: Ideal)
    requires Complete(r) && a in r.srcs && Sound(StoreOf(r)) && HeadOk(r.dst.disks, r.dst.head)
    requires Refines(r.srcs[a], i)
    ensures Refines(RebuiltTree(r), i)
  {
    hide Complete, PathTo, ChildMap, Wf, Content, TreeOk, HeadOk, MarksRefine;
    CompleteFacts(r);
    RefinedSound(r.srcs[a], i);
    RebuiltWf(r, a);
    RebuiltMarks(r, a);
    NamesAgree(r, a);
    RefinedMarks(r.srcs[a], r.dst, i);
    forall o: nat
      ensures Content(StoreOf(r), r.dst.head, o) == Content(r.srcs[a].store, r.srcs[a].head, o)
    {
      RebuiltHead(r, a, o);
    }
    forall n | n in i.snaps
      ensures n in r.dst.disks && Shows(StoreOf(r), n, i.snaps[n])
    {
      RebuiltShows(r, a, n, i.snaps[n]);
    }
  }

  lemma {:induction false} RefinedSound(t: Tree, i: Ideal)
    requires Refines(t, i)
    ensures Sound(t.store) && t.head in t.store.disks
  {
  }

  lemma {:induction false} RebuiltShows(r: Rebuild, a: Addr, n: Name, bytes: seq<byte>)
    requires Complete(r) && a in r.srcs && Sound(StoreOf(r)) && Sound(r.srcs[a].store)
    requires n in Listed(r.srcs[a].store.disks, r.srcs[a].head) && Shows(r.srcs[a].store, n, bytes)
    ensures n in r.dst.disks && Shows(StoreOf(r), n, bytes)
  {
    hide Complete, Content;
    RebuiltContent(r, a, n, 0);
    forall o: nat
      ensures Content(StoreOf(r), n, o) == Content(r.srcs[a].store, n, o)
    {
      RebuiltContent(r, a, n, o);
    }
  }

  lemma {:induction false} RefinedMarks(t: Tree, dst: Dir, i: Ideal)
    requires Refines(t, i) && HeadOk(dst.disks, dst.head)
    requires Listed(dst.disks, dst.head) == Listed(t.store.disks, t.head)
    requires forall n :: n in Listed(t.store.disks, t.head) ==> n in dst.disks && dst.disks[n] == t.store.disks[n]
    ensures MarksRefine(dst.disks, i.snaps)
    ensures forall n :: n in i.snaps ==> n in Listed(t.store.disks, t.head) && |i.snaps[n]| <= t.size
  {
    forall n
      ensures n in i.snaps <==> n in dst.disks && n.SnapDisk? && !dst.disks[n].removed
    {
      assert n in i.snaps <==> n in t.store.disks && n.SnapDisk? && !t.store.disks[n].removed;
      if n.SnapDisk? {
        assert n in dst.disks <==> n in Listed(dst.disks, dst.head);
      }
    }
  }

  /**
   A rebuild is correct: however mirrored writes, snapshots, marks, lost replicas and copies were interleaved, and
   from whichever read-write replica each file came, once all listed disks are copied the new replica passes the final
   check, its disks form a proper tree, its head shows the bytes of every read-write replica's head, each of its
   snapshots those of every read-write replica's snapshot, and it stands for the same ideal store: the same snapshots
   are marked as removed.
   */
  lemma {:induction false} RebuildCorrect(r: Rebuild, steps: seq<RebuildStep>, u: Rebuild, a: Addr, o: nat)
    requires Joined(r) && Runs(r, steps, u) && u.prepared && u.pending == {} && a in u.srcs
    ensures Complete(u)
    ensures Listed(u.dst.disks, u.dst.head) == Listed(u.srcs[a].store.disks, u.srcs[a].head)
    ensures Sound(StoreOf(u)) && HeadOk(u.dst.disks, u.dst.head)
    ensures Content(StoreOf(u), u.dst.head, o) == Content(u.srcs[a].store, u.srcs[a].head, o)
    ensures forall n :: n in Listed(u.srcs[a].store.disks, u.srcs[a].head) ==>
              && n in u.dst.disks && Content(StoreOf(u), n, o) == Content(u.srcs[a].store, n, o)
              && u.dst.disks[n].removed == u.srcs[a].store.disks[n].removed
    ensures forall i :: Refines(u.srcs[a], i) ==> Refines(RebuiltTree(u), i)
  {
    hide Runs, Joined, Refines;
    JoinedInv(r);
    RunKeeps(r, steps, u);
    NamesAgree(u, a);
    RebuiltSound(u, a);
    RebuiltHead(u, a, o);
    RebuiltMarks(u, a);
    forall i | Refines(u.srcs[a], i)
      ensures Refines(RebuiltTree(u), i)
    {
      RebuiltRefines(u, a, i);
    }
    forall n | n in Listed(u.srcs[a].store.disks, u.srcs[a].head)
      ensures n in u.dst.disks && Content(StoreOf(u), n, o) == Content(u.srcs[a].store, n, o)
    {
      RebuiltContent(u, a, n, o);
    }
  }

  // ---------------------------------------------------------------- what a run of a rebuild means

  /** What a step means for the volume: writes, snapshots and marks are those of one ideal store. */
  function IdealStep(i: Ideal, step: RebuildStep): Ideal {
    match step
    case MirrorWrite(off, p) => if off + |p| <= |i.live| then i.(live := Splice(i.live, off, p)) else i
    case TakeSnapshot(n) => i.(snaps := i.snaps[n := i.live])
    case MarkDeleted(n) => i.(snaps := i.snaps - {n})
    case _ => i
  }

  function IdealRun(i: Ideal, steps: seq<RebuildStep>): Ideal
    decreases |steps|
  {
    if steps == [] then i else IdealRun(IdealStep(i, steps[0]), steps[1..])
  }

  /** A write of whole sectors to the head is a write step of the replica's tree. */
  lemma {:induction false} WriteIsHeadWrite(t: Tree, off: nat, p: seq<byte>)
    requires Wf(t) && off + |p| <= t.size == |t.store.files[t.head].bytes|
    requires Rem(off, t.store.ss) == 0 && Rem(|p|, t.store.ss) == 0
    ensures HeadWrite(t, off, p, WriteLayer(t.store.files[t.head], off, p, t.store.ss))
  {
    hide Content, ChildrenOk, ChainOk, TreeOk;
    var layer := WriteLayer(t.store.files[t.head], off, p, t.store.ss);
    SetFileWf(t, t.head, layer);
    forall o | 0 <= o < t.size
      ensures Content(SetFile(t, t.head, layer).store, t.head, o) ==
              if off <= o < off + |p| then p[o - off] else Content(t.store, t.head, o)
    {
      WriteShows(t, off, p, t.head, o);
    }
    assert |layer.bytes| == t.size;
    assert t.store.files[t.head].alloc <= layer.alloc;
  }

  /** On every read-write replica that is not lost, a step does to the volume what it means. */
  lemma {:induction false} StepMeans(r: Rebuild, step: RebuildStep, a: Addr, i: Ideal)
    requires WfRebuild(r) && Enabled(r, step) && a in Next(r, step).srcs
    ensures a in r.srcs
    ensures Refines(r.srcs[a], i) ==> Refines(Next(r, step).srcs[a], IdealStep(i, step))
  {
    hide Refines, HeadWrite, CreateDisk, Wf, WfDir;
    var t := r.srcs[a];
    if Refines(t, i) {
      TreeFacts(t, r.ss, r.backing, r.size);
      RefinedLive(t, i);
      match step
      case MirrorWrite(off, p) =>
        WriteIsHeadWrite(t, off, p);
        WriteRefines(t, i, off, p, WriteLayer(t.store.files[t.head], off, p, t.store.ss));
      case TakeSnapshot(n) => SnapshotRefines(t, i, n);
      case MarkDeleted(n) => MarkRefines(t, i, n);
      case _ =>
    }
  }

  lemma {:induction false} RefinedLive(t: Tree, i: Ideal)
    requires Refines(t, i)
    ensures |i.live| == t.size
  {
  }

  lemma {:induction false} RunMeans(r: Rebuild, steps: seq<RebuildStep>, u: Rebuild, a: Addr, i: Ideal)
    requires Runs(r, steps, u) && a in u.srcs
    ensures a in r.srcs
    ensures Refines(r.srcs[a], i) ==> Refines(u.srcs[a], IdealRun(i, steps))
    decreases |steps|
  {
    hide Next, Enabled, WfRebuild, Refines, IdealStep;
    if steps != [] {
      RunMeans(Next(r, steps[0]), steps[1..], u, a, IdealStep(i, steps[0]));
      StepMeans(r, steps[0], a, i);
    }
  }

  /**
   The meaning of a rebuild: the rebuilt replica stands for the live bytes and snapshots that the volume had when the
   rebuild began, after the writes, snapshots and marks that happened meanwhile. Copies and lost replicas mean nothing.
   */
  lemma {:induction false} RebuildRefines(r: Rebuild, steps: seq<RebuildStep>, u: Rebuild, a: Addr, i: Ideal)
    requires Joined(r) && Runs(r, steps, u) && u.prepared && u.pending == {} && a in u.srcs && a in r.srcs
    requires Refines(r.srcs[a], i)
    ensures TreeOk(u.dst.disks) && u.dst.head in u.dst.disks && Refines(RebuiltTree(u), IdealRun(i, steps))
  {
    hide Runs, Joined, Complete, Refines, IdealRun, Content;
    RunMeans(r, steps, u, a, i);
    RebuildCorrect(r, steps, u, a, 0);
  }

  // ---------------------------------------------------------------- the rebuild inside the engine

  /** The bytes that a disk shows as a volume of `size` bytes. */
  ghost function Live(st: Store, head: Name, size: nat): (v: seq<byte>)
    requires Sound(st) && head in st.disks
    ensures |v| == size && forall o :: 0 <= o < size ==> v[o] == Content(st, head, o)
  {
    seq(size, o requires 0 <= o < size => Content(st, head, o))
  }

  /** The engine's read-write replicas are the ones of the rebuild and hold what those show; `w` is being rebuilt. */
  ghost predicate Pictures(r: Rebuild, s: EngineSpec.EngineState, w: Addr) {
    && WfRebuild(r) && EngineSpec.Held(s.modes, s.data, r.size)
    && w in EngineSpec.InMode(s.modes, EngineSpec.WO) && EngineSpec.InMode(s.modes, EngineSpec.RW) == r.srcs.Keys
    && forall a :: a in r.srcs ==> Pictured(r.srcs[a], r.ss, r.backing, r.size, s.data, a)
  }

  ghost predicate Pictured(t: Tree, ss: nat, backing: Option<Layer>, size: nat, data: map<Addr, seq<byte>>, a: Addr) {
    WfTree(t, ss, backing, size) && a in data && data[a] == Live(t.store, t.head, size)
  }

  /** A write of whole sectors splices what the replica shows. */
  lemma {:induction false} WriteLive(t: Tree, off: nat, p: seq<byte>, size: nat)
    requires Wf(t) && off + |p| <= size == |t.store.files[t.head].bytes|
    requires Rem(off, t.store.ss) == 0 && Rem(|p|, t.store.ss) == 0
    ensures Wf(WriteTree(t, off, p))
    ensures Live(WriteTree(t, off, p).store, t.head, size) == Splice(Live(t.store, t.head, size), off, p)
  {
    SetFileWf(t, t.head, WriteLayer(t.store.files[t.head], off, p, t.store.ss));
    forall o | 0 <= o < size
      ensures Content(WriteTree(t, off, p).store, t.head, o) == Splice(Live(t.store, t.head, size), off, p)[o]
    {
      WriteShows(t, off, p, t.head, o);
    }
  }

  /** The rebuild after it lost the replicas that are not read-write in `s'`. */
  ghost function Survivors(r: Rebuild, s': EngineSpec.EngineState): Rebuild {
    r.(srcs := r.srcs - (r.srcs.Keys - EngineSpec.InMode(s'.modes, EngineSpec.RW)))
  }

  lemma {:induction false} SurvivorsLost(r: Rebuild, s': EngineSpec.EngineState)
    requires WfRebuild(r)
    ensures Survivors(r, s') == Next(r, Lose(r.srcs.Keys - EngineSpec.InMode(s'.modes, EngineSpec.RW)))
  {
  }

  /** After the mirrored write the engine is `s'`. */
  ghost predicate MirroredIn(r: Rebuild, off: nat, p: seq<byte>, s': EngineSpec.EngineState, w: Addr) {
    WfRebuild(r) && Enabled(r, MirrorWrite(off, p)) && Pictures(Next(r, MirrorWrite(off, p)), s', w)
  }

  /** Replica `a` holds what its tree shows after the write. */
  ghost predicate Written(t: Tree, ss: nat, backing: Option<Layer>, size: nat, off: nat, p: seq<byte>,
                          data: map<Addr, seq<byte>>, a: Addr) {
    && 0 < ss && WfTree(t, ss, backing, size) && off + |p| <= size
    && WfTree(WriteTree(t, off, p), ss, backing, size) && Pictured(WriteTree(t, off, p), ss, backing, size, data, a)
  }

  lemma {:induction false} WritePictured(t: Tree, ss: nat, backing: Option<Layer>, size: nat, off: nat, p: seq<byte>,
                                         data: map<Addr, seq<byte>>, data': map<Addr, seq<byte>>, a: Addr)
    requires 0 < ss && Pictured(t, ss, backing, size, data, a) && off + |p| <= size
    requires Rem(off, ss) == 0 && Rem(|p|, ss) == 0
    requires a in data' && off + |p| <= |data[a]| && data'[a] == Splice(data[a], off, p)
    ensures Written(t, ss, backing, size, off, p, data', a)
  {
    hide WriteTree, Wf;
    TreeFacts(t, ss, backing, size);
    WriteTreeWf(t, ss, backing, size, off, p);
    WriteLive(t, off, p, size);
    WriteTreeHead(t, off, p);
  }

  /**
   A write that the engine fans out in whole sectors is a step of the rebuild: the replicas that failed are lost, and
   the others and the new one took it. Only a write that filled every read-write disk is not (see `FullDisksSplit`).
   */
  lemma {:induction false} MirrorsFanOut(r: Rebuild, s: EngineSpec.EngineState, w: Addr, off: nat, p: seq<byte>,
                                         results: map<Addr, EngineSpec.Result>, err: Option<EngineSpec.Failure>,
                                         s': EngineSpec.EngineState)
    requires EngineSpec.Held(s.modes, s.data, r.size) && EngineSpec.FannedOut(s, off, p, results, err, s', r.size)
    requires 0 < r.ss && Rem(off, r.ss) == 0 && Rem(|p|, r.ss) == 0
    requires w in results && results[w].Done? && err != Some(EngineSpec.NoSpaceLeft)
    requires Pictures(r, s, w) && r.srcs != map[]
    ensures MirroredIn(Survivors(r, s'), off, p, s', w)
  {
    hide WfTree, Pictured, WriteTree, DirWrite, EngineSpec.FannedOut, WfDir, Splice;
    MirrorSurvivors(s, w, off, p, results, err, s', r.size);
    FanOutRange(s, off, p, results, err, s', r.size);
    var left := Survivors(r, s');
    assert left.srcs.Keys == EngineSpec.InMode(s'.modes, EngineSpec.RW);
    DirWriteWf(left.dst, off, p, left.ss, left.size);
    forall a | a in left.srcs
      ensures Written(left.srcs[a], r.ss, r.backing, r.size, off, p, s'.data, a)
    {
      WritePictured(r.srcs[a], r.ss, r.backing, r.size, off, p, s.data, s'.data, a);
    }
  }

  lemma {:induction false} FanOutRange(s: EngineSpec.EngineState, off: nat, p: seq<byte>,
                                       results: map<Addr, EngineSpec.Result>, err: Option<EngineSpec.Failure>,
                                       s': EngineSpec.EngineState, size: nat)
    requires EngineSpec.Held(s.modes, s.data, size) && EngineSpec.FannedOut(s, off, p, results, err, s', size)
    ensures off + |p| <= size
  {
  }

  lemma {:induction false} WriteTreeHead(t: Tree, off: nat, p: seq<byte>)
    requires 0 < t.store.ss && t.head in t.store.files && off + |p| <= |t.store.files[t.head].bytes|
    ensures WriteTree(t, off, p).head == t.head
  {
  }

  lemma {:induction false} DirWriteWf(d: Dir, off: nat, p: seq<byte>, ss: nat, size: nat)
    requires 0 < ss && WfDir(d, size) && off + |p| <= size
    ensures WfDir(DirWrite(d, off, p, ss), size)
  {
  }

  /** After a write that did not fill every disk, the read-write replicas took all of it, and `w` is still there. */
  lemma {:induction false} MirrorSurvivors(s: EngineSpec.EngineState, w: Addr, off: nat, p: seq<byte>,
                                           results: map<Addr, EngineSpec.Result>, err: Option<EngineSpec.Failure>,
                                           s': EngineSpec.EngineState, size: nat)
    requires EngineSpec.Held(s.modes, s.data, size) && EngineSpec.FannedOut(s, off, p, results, err, s', size)
    requires EngineSpec.InMode(s.modes, EngineSpec.RW) != {} && w in EngineSpec.InMode(s.modes, EngineSpec.WO)
    requires w in results && results[w].Done? && err != Some(EngineSpec.NoSpaceLeft)
    ensures EngineSpec.InMode(s'.modes, EngineSpec.RW) <= EngineSpec.InMode(s.modes, EngineSpec.RW)
    ensures w in EngineSpec.InMode(s'.modes, EngineSpec.WO) && EngineSpec.Held(s'.modes, s'.data, size)
    ensures forall a :: a in EngineSpec.InMode(s'.modes, EngineSpec.RW) ==>
              && a in s.data && a in s'.data && off + |p| <= |s.data[a]|
              && s'.data[a] == Splice(s.data[a], off, p)
  {
    var faulty, wb := EngineSpec.Faulty(s.modes, results), EngineSpec.FullAt(s.modes, results);
    EngineSpec.FanOutHeld(s, off, p, results, err, s', size);
    forall a | a in EngineSpec.InMode(s'.modes, EngineSpec.RW)
      ensures a in EngineSpec.InMode(s.modes, EngineSpec.RW) && s'.data[a] == Splice(s.data[a], off, p)
    {
      EngineSpec.Survivor(s.modes, faulty, wb, s'.modes, a);
    }
  }

  /** Replicas that fail reads or are removed are lost to the rebuild, which goes on with the others. */
  lemma {:induction false} LosesDemoted(r: Rebuild, s: EngineSpec.EngineState, w: Addr, bad: set<Addr>)
    requires Pictures(r, s, w) && w !in bad
    ensures Pictures(Next(r, Lose(bad)), s.(modes := EngineSpec.Demote(s.modes, bad)), w)
  {
    hide WfTree, Pictured, WfDir;
    var s' := s.(modes := EngineSpec.Demote(s.modes, bad));
    assert EngineSpec.InMode(s'.modes, EngineSpec.RW) == r.srcs.Keys - bad;
  }

  /**
   A rebuilt replica that was reloaded holds the bytes of the engine's read-write replicas, so that its promotion is a
   step of the engine.
   */
  lemma {:induction false} RebuildPromotes(r: Rebuild, steps: seq<RebuildStep>, u: Rebuild, s: EngineSpec.EngineState,
                                           w: Addr)
    requires Joined(r) && Runs(r, steps, u) && u.prepared && u.pending == {} && u.srcs != map[] && Pictures(u, s, w)
    ensures Sound(StoreOf(u)) && u.dst.head in StoreOf(u).disks
    ensures var t := EngineSpec.EngineState(s.modes, s.data[w := Live(StoreOf(u), u.dst.head, u.size)]);
            && EngineSpec.Stepped(s, EngineSpec.Reloaded(w, t.data[w]), t, u.ss, u.size)
            && EngineSpec.Held(t.modes, t.data, u.size)
            && EngineSpec.Stepped(t, EngineSpec.Promoted(w), t.(modes := t.modes[w := EngineSpec.RW]), u.ss, u.size)
  {
    hide Runs, Joined, Complete, WfTree, Sound, Content;
    var a :| a in u.srcs;
    RebuiltLive(r, steps, u, a);
    assert Pictured(u.srcs[a], u.ss, u.backing, u.size, s.data, a);
    assert a in EngineSpec.InMode(s.modes, EngineSpec.RW) && a != w;
    var live := Live(StoreOf(u), u.dst.head, u.size);
    assert s.data[w := live][a] == s.data[w := live][w];
  }

  lemma {:induction false} RebuiltLive(r: Rebuild, steps: seq<RebuildStep>, u: Rebuild, a: Addr)
    requires Joined(r) && Runs(r, steps, u) && u.prepared && u.pending == {} && a in u.srcs
    ensures Complete(u) && Sound(StoreOf(u)) && u.dst.head in u.dst.disks
    ensures WfTree(u.srcs[a], u.ss, u.backing, u.size)
    ensures Live(StoreOf(u), u.dst.head, u.size) == Live(u.srcs[a].store, u.srcs[a].head, u.size)
  {
    hide Runs, Joined, Inv, Twins, WfTree, Content;
    RebuildCorrect(r, steps, u, a, 0);
    CompleteFacts(u);
    TreeFacts(u.srcs[a], u.ss, u.backing, u.size);
    forall o | 0 <= o < u.size
      ensures Content(StoreOf(u), u.dst.head, o) == Content(u.srcs[a].store, u.srcs[a].head, o)
    {
      RebuildCorrect(r, steps, u, a, o);
    }
  }

  lemma {:induction false} CompleteFacts(r: Rebuild)
    requires Complete(r)
    ensures WfRebuild(r) && r.dst.head in r.dst.disks && WfDir(r.dst, r.size)
    ensures forall a :: a in r.srcs ==> WfTree(r.srcs[a], r.ss, r.backing, r.size)
  {
  }

  /**
   Why a write that fills every read-write disk must not happen during a rebuild: if the source kept only `n` bytes of a
   write that the new replica took in full, the two heads agree exactly if the missing bytes and sectors were there
   before.
   */
  lemma {:induction false} FullDisksSplit(head: Layer, off: nat, p: seq<byte>, n: nat, ss: nat)
    requires 0 < ss && off + |p| <= |head.bytes| && n <= |p|
    ensures WriteLayer(head, off, p[..n], ss) == WriteLayer(head, off, p, ss) <==>
            (forall k :: n <= k < |p| ==> p[k] == head.bytes[off + k]) &&
                Touched(off, |p|, ss) <= head.alloc + Touched(off, n, ss)
  {
    var a, b := WriteLayer(head, off, p[..n], ss), WriteLayer(head, off, p, ss);
    WriteSpec.TouchedPrefix(off, n, |p|, ss);
    assert a.alloc == b.alloc <==> Touched(off, |p|, ss) <= head.alloc + Touched(off, n, ss);
    if forall k :: n <= k < |p| ==> p[k] == head.bytes[off + k] {
      forall o | 0 <= o < |head.bytes|
        ensures a.bytes[o] == b.bytes[o]
      {
        if off + n <= o < off + |p| {
          assert p[o - off] == head.bytes[off + (o - off)];
        }
      }
      assert a.bytes == b.bytes;
    } else {
      var k :| n <= k < |p| && p[k] != head.bytes[off + k];
      assert a.bytes[off + k] != b.bytes[off + k];
    }
  }
}
