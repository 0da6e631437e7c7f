/**
 A replica (pkg/replica/replica.go): its disk metadata, child map and active list, the
 files of its directory, and the open volume. Every operation keeps the volume open on
 exactly the files of the live chain, and is a run of steps of the snapshot tree.
 */
module Replicas {
  import opened Sectors
  import opened Sequences
  import opened Layers
  import opened ReadSpec
  import opened WriteSpec
  import opened DiffDisks
  import opened SnapshotStores
  import opened SnapshotTrees
  import opened SnapshotRuns
  import opened StackSpec

  datatype Outcome =
    | Done | TooManyDisks | SnapshotExists | ActiveDisk | ManyChildren | NoSuchDisk | NotMarkedRemoved | BadSize

  /**
   How a request for a snapshot of `t` is answered: with `maxCount` snapshots, where a backing file counts as one, there
   are too many, and a name is taken as long as its disk is there, marked as removed or not.
   */
  ghost predicate Answers(t: Tree, maxCount: int, name: Name, outcome: Outcome) {
    && (forall snaps :: MarksRefine(t.store.disks, snaps) ==>
          (outcome.TooManyDisks? <==> maxCount <= |snaps| + (if t.store.backing.Some? then 1 else 0)))
    && (outcome.SnapshotExists? <==> !outcome.TooManyDisks? && name in t.store.disks)
    && (outcome.Done? || outcome.TooManyDisks? || outcome.SnapshotExists?)
  }

  /** The limit speaks of the snapshots of the ideal store that the replica stands for. */
  lemma {:induction false} LimitCountsSnapshots(t: Tree, i: Ideal, maxCount: int, name: Name, outcome: Outcome)
    requires Refines(t, i) && Answers(t, maxCount, name, outcome)
    ensures outcome.TooManyDisks? <==> maxCount <= |i.snaps| + (if t.store.backing.Some? then 1 else 0)
  {
    assert MarksRefine(t.store.disks, i.snaps);
  }

  /** The disks that count are the snapshots that are not marked as removed. */
  lemma {:induction false} UnmarkedSnaps(t: Tree, snaps: map<Name, seq<byte>>)
    requires Wf(t) && MarksRefine(t.store.disks, snaps)
    ensures (set d | d in t.store.disks && !t.store.disks[d].removed && d != t.head) == snaps.Keys
  {
    forall d | d in t.store.disks && d != t.head
      ensures d.SnapDisk?
    {
    }
  }

  /** The names from the head down to the root, found by following parent links. */
  method Chain(disks: map<Name, Disk>, head: Name) returns (result: Option<seq<Name>>)
    requires TreeOk(disks)
    ensures result.None? <==> head !in disks && head != NoDisk
    ensures head in disks ==> Reversed(result.value) == PathTo(disks, head)
    ensures head == NoDisk ==> result == Some([])
  {
    var names: seq<Name> := [];
    var cur := head;
    while cur != NoDisk
      invariant Walked(disks, head, cur, names)
      decreases if cur in disks then disks[cur].rank + 1 else 0
    {
      if cur !in disks {
        return None;
      }
      WalkStep(disks, head, cur, names);
      names := names + [cur];
      cur := disks[cur].parent;
    }
    return Some(names);
  }

  /** Following the links from `head` passed `names` and reached `cur`. */
  ghost predicate Walked(disks: map<Name, Disk>, head: Name, cur: Name, names: seq<Name>)
    requires TreeOk(disks)
  {
    if head in disks then
      if cur == NoDisk then PathTo(disks, head) == Reversed(names)
      else cur in disks && PathTo(disks, head) == PathTo(disks, cur) + Reversed(names)
    else cur == head && names == []
  }

  lemma {:induction false} WalkStep(disks: map<Name, Disk>, head: Name, cur: Name, names: seq<Name>)
    requires TreeOk(disks) && cur in disks && Walked(disks, head, cur, names)
    ensures Walked(disks, head, disks[cur].parent, names + [cur])
    ensures disks[cur].parent in disks ==> disks[disks[cur].parent].rank < disks[cur].rank
  {
    assert ParentOk(disks, cur);
    assert Reversed(names + [cur]) == [cur] + Reversed(names);
  }

  class Replica {
    const ss: nat
    const backing: Option<Layer>
    const snapshotMaxCount: int
    const volume: DiffDisk
    var diskData: map<Name, Disk>
    var diskChildrenMap: map<Name, set<Name>>
    var activeDiskData: seq<Name>
    var head: Name
    var parent: Name
    var size: nat
    var dir: map<Name, Layer>

    /** Opens the replica whose metadata and files these are, with an unknown location table. */
    constructor (ss: nat, backing: Option<Layer>, snapshotMaxCount: int, diskData: map<Name, Disk>,
                 dir: map<Name, Layer>, head: Name, chain: seq<Name>, size: nat)
      requires Sound(Store(ss, backing, diskData, dir)) && HeadOk(diskData, head)
      requires ChainOk(diskData, chain, head) && |chain| <= MAX_SNAPSHOT_COUNT
      requires |dir[head].bytes| == size && Rem(size, ss) == 0
      ensures Valid() && fresh(volume) && this.snapshotMaxCount == snapshotMaxCount
      ensures TreeOf() == Tree(Store(ss, backing, diskData, dir), ChildMap(diskData), chain, head,
                diskData[head].parent, size)
    {
      this.ss := ss;
      this.backing := backing;
      this.snapshotMaxCount := snapshotMaxCount;
      this.diskData := diskData;
      this.diskChildrenMap := ChildMap(diskData);
      this.activeDiskData := LeadNames(backing) + chain;
      this.head := head;
      this.parent := diskData[head].parent;
      this.size := size;
      this.dir := dir;
      ChildMapOk(diskData);
      this.volume := new DiffDisk(ss, Lead(backing) + FilesOf(dir, chain), size);
    }

    function Bottom(): nat {
      if backing.Some? then 2 else 1
    }

    ghost function TreeOf(): Tree
      reads this
    {
      Tree(Store(ss, backing, diskData, dir), diskChildrenMap,
           if Bottom() <= |activeDiskData| then activeDiskData[Bottom()..] else [],
           head, parent, size)
    }

    /** Where a disk's file is in the volume; past the end if it is not on the live chain. */
    ghost function StackIndex(name: Name): (j: nat)
      reads this
      ensures 0 < j
    {
      Bottom() + IndexIn(TreeOf().chain, name)
    }

    /** The volume is open on the files of the live chain. */
    ghost predicate Valid()
      reads this, volume
    {
      && Open(TreeOf(), volume.files)
      && activeDiskData == LeadNames(backing) + TreeOf().chain
      && volume.ss == ss && volume.size == size && volume.Writable()
    }

    /** The index of a disk in the active list, or 0. */
    method FindDisk(name: Name) returns (index: nat)
      requires activeDiskData == LeadNames(backing) + TreeOf().chain
      ensures !name.BackingDisk? ==> index == if StackIndex(name) < |activeDiskData| then StackIndex(name) else 0
    {
      index := FindIn(activeDiskData, name);
      if !name.BackingDisk? {
        var i := if index > 0 then index else |activeDiskData|;
        FoundIndex(LeadNames(backing), activeDiskData[Bottom()..], activeDiskData, name, i);
      }
    }

    /** Counts the disks that are neither the head nor marked as removed; a backing file is one of them. */
    method GetSnapshotCountUsage() returns (n: nat)
      requires Wf(TreeOf())
      ensures forall snaps :: MarksRefine(diskData, snaps) ==> n == |snaps| + (if backing.Some? then 1 else 0)
    {
      hide Sound, ChildrenOk, ChainOk;
      n := if backing.Some? then 1 else 0;
      var todo := diskData.Keys;
      ghost var counted: set<Name> := {};
      while todo != {}
        invariant todo <= diskData.Keys && n == |counted| + (if backing.Some? then 1 else 0)
        invariant counted == set d | d in diskData && d !in todo && !diskData[d].removed && d != head
        decreases |todo|
      {
        var d :| d in todo;
        if !diskData[d].removed && d != head {
          n := n + 1;
          counted := counted + {d};
        }
        todo := todo - {d};
      }
      forall snaps | MarksRefine(diskData, snaps)
        ensures counted == snaps.Keys
      {
        UnmarkedSnaps(TreeOf(), snaps);
      }
    }

    /** How many more snapshots may be taken. */
    method GetRemainSnapshotCounts() returns (n: int)
      requires Wf(TreeOf())
      ensures forall snaps :: MarksRefine(diskData, snaps) ==>
                n == snapshotMaxCount - |snaps| - (if backing.Some? then 1 else 0)
    {
      var used := GetSnapshotCountUsage();
      n := snapshotMaxCount - used;
    }

    /** Turns the head into snapshot `name` and opens an empty head of `newSize` bytes on top. */
    method CreateDisk(name: string, newSize: nat) returns (outcome: Outcome)
      requires Valid() && |volume.files| < 256
      modifies this, volume`files
      ensures Answers(old(TreeOf()), snapshotMaxCount, SnapDisk(name), outcome)
      ensures !outcome.Done? ==> Valid() && TreeOf() == old(TreeOf()) && volume.files == old(volume.files)
      ensures outcome.Done? ==>
                && Created(old(TreeOf()), old(volume.files), SnapDisk(name), newSize, TreeOf(), volume.files)
                && activeDiskData == LeadNames(backing) + TreeOf().chain
    {
      hide Wf, StackOf, CacheAgrees, Start, CreateDisks, CreateFiles, MarksRefine;
      CreateFacts(TreeOf(), volume.files);
      var remain := GetRemainSnapshotCounts();
      if remain <= 0 {
        return TooManyDisks;
      }
      var snap := SnapDisk(name);
      if snap in diskData {
        return SnapshotExists;
      }
      var next := NextHead(head);
      var p := diskData[head].parent;
      var children := AddChild(diskChildrenMap, snap, next);
      children := AddChild(RmChild(children, p, head), p, snap);
      ghost var t := TreeOf();
      ActiveCreate(LeadNames(backing), t.chain, activeDiskData, snap, next);
      Install(CreateDisks(diskData, head, snap, next), children, activeDiskData[|activeDiskData| - 1 := snap] + [next],
              next, snap, newSize, CreateFiles(dir, head, snap, next, newSize),
                  t.chain[..|t.chain| - 1] + [snap, next]);
      assert TreeOf() == SnapshotTrees.CreateDisk(t, snap, newSize);
      volume.files := volume.files + [Layer(Zeros(newSize), {})];
      return Done;
    }

    /** Writes the metadata of an edit. */
    method Install(disks: map<Name, Disk>, children: map<Name, set<Name>>, active: seq<Name>, head: Name, parent: Name,
                   size: nat, dir: map<Name, Layer>, ghost chain: seq<Name>)
      requires active == LeadNames(backing) + chain
      modifies this
      ensures TreeOf() == Tree(Store(ss, backing, disks, dir), children, chain, head, parent, size)
      ensures activeDiskData == LeadNames(backing) + chain
    {
      this.diskData, this.diskChildrenMap, this.activeDiskData := disks, children, active;
      this.head, this.parent, this.size, this.dir := head, parent, size, dir;
    }

    method Snapshot(name: string) returns (outcome: Outcome)
      requires Valid() && |volume.files| < 256
      modifies this, volume`files
      ensures Valid()
      ensures Answers(old(TreeOf()), snapshotMaxCount, SnapDisk(name), outcome)
      ensures !outcome.Done? ==> TreeOf() == old(TreeOf())
      ensures outcome.Done? ==> Taken(old(TreeOf()), SnapshotRuns.Snapshot(SnapDisk(name)), TreeOf())
    {
      hide Wf, StackOf, CacheAgrees, Start, Created, Taken, Answers;
      ghost var t, files := TreeOf(), volume.files;
      OpenFacts(t, files);
      outcome := CreateDisk(name, size);
      if outcome.Done? {
        CreatedOpen(t, files, SnapDisk(name), t.size, TreeOf(), volume.files, volume.location);
      }
    }

    method Expand(newSize: nat) returns (outcome: Outcome)
      requires Valid() && |volume.files| < 256
      modifies this, volume
      ensures Valid()
      ensures outcome.BadSize? <==> Rem(newSize, ss) != 0 || newSize < old(size)
      ensures newSize == old(size) && Rem(newSize, ss) == 0 ==> outcome.Done?
      ensures newSize > old(size) && Rem(newSize, ss) == 0 ==>
                Answers(old(TreeOf()), snapshotMaxCount, ExpansionName(newSize), outcome)
      ensures !outcome.Done? || newSize == old(size) ==> TreeOf() == old(TreeOf())
      ensures outcome.Done? && newSize != old(size) ==>
                Taken(old(TreeOf()), SnapshotRuns.Expand(ExpansionName(newSize), newSize), TreeOf())
    {
      if Rem(newSize, ss) != 0 || size > newSize {
        return BadSize;
      }
      if size == newSize {
        return Done;
      }
      outcome := Grow(ExpansionName(newSize), newSize);
    }

    /** Takes a snapshot under a larger head and grows the volume. */
    method Grow(name: Name, newSize: nat) returns (outcome: Outcome)
      requires Valid() && |volume.files| < 256
      requires name.SnapDisk? && size < newSize && Rem(newSize, ss) == 0
      modifies this, volume
      ensures Valid()
      ensures Answers(old(TreeOf()), snapshotMaxCount, name, outcome)
      ensures !outcome.Done? ==> TreeOf() == old(TreeOf())
      ensures outcome.Done? ==> Taken(old(TreeOf()), SnapshotRuns.Expand(name, newSize), TreeOf())
    {
      hide Wf, StackOf, CacheAgrees, Start, Created, Taken, Answers;
      ghost var t, files := TreeOf(), volume.files;
      OpenFacts(t, files);
      outcome := CreateDisk(name.snapshot, newSize);
      if outcome.Done? {
        ghost var u, now := TreeOf(), volume.files;
        CreatedOpen(t, files, name, newSize, u, now, volume.location);
        volume.Expand(newSize);
        assert TreeOf() == u && volume.files == now;
      }
    }

    /** Writes to the head file through the volume; `stop` is where the device fails, if it does. */
    method WriteAt(buf: seq<byte>, offset: nat, stop: Option<nat>) returns (n: nat, status: Status)
      requires Valid() && offset + |buf| <= size
      modifies this`dir, volume`location, volume`files
      ensures status.Ok? <==> !Hits(stop, offset, |buf|, ss)
      ensures status.Ok? ==>
                && Valid() && n == |buf|
                && head in dir && Taken(old(TreeOf()), Write(offset, buf, dir[head]), TreeOf())
      ensures !status.Ok? ==>
                Partial(volume.files, old(volume.files[|volume.files| - 1]), old(volume.Contents()), ss, offset, buf, n,
                stop)
      ensures head in dir && TreeOf() == SetFile(old(TreeOf()), head, dir[head])
    {
      hide Wf, HeadWrite, StackOf, CacheAgrees, Start, Partial, Hits, Splice, View, OnlyHead;
      ghost var t, files := TreeOf(), volume.files;
      OpenFacts(t, files);
      n, status := volume.WriteAt(buf, offset, stop);
      OpenWrite(t, files, volume.files);
      dir := dir[head := volume.files[|volume.files| - 1]];
      if status.Ok? {
        OpenHeadWrite(t, files, volume.files, offset, buf);
      }
    }

    /** Reads through the volume; a read into long enough files shows the head's content. */
    method ReadAt(buf: seq<byte>, offset: nat) returns (n: int, out: seq<byte>, status: Status)
      requires Valid()
      modifies volume`location
      ensures Valid() && TreeOf() == old(TreeOf())
      ensures status == if |buf| == 0 || offset + |buf| <= size then Ok else UnexpectedEOF
      ensures status.Ok? ==> n == |buf| && IsRead(volume.files, |volume.location|, ss, buf, offset, out)
      ensures status.Ok? && |buf| > 0 && (forall i :: 1 <= i < |volume.files| ==>
                offset + |buf| <= |volume.files[i].bytes|) ==>
                |out| == |buf| && forall k :: 0 <= k < |out| ==> out[k] == Content(TreeOf().store, head, offset + k)
    {
      hide Wf, StackOf, CacheAgrees, IsRead, Start, Sound, HeadOk;
      n, out, status := volume.ReadAt(buf, offset);
      if status.Ok? && |buf| > 0 && forall i :: 1 <= i < |volume.files| ==> offset + |buf| <= |volume.files[i].bytes| {
        ReadShowsHead(TreeOf(), volume.files, |volume.location|, buf, offset, out);
      }
    }

    method MarkDiskAsRemoved(name: Name) returns (outcome: Outcome)
      requires Valid()
      modifies this`diskData
      ensures Valid()
      ensures outcome == if name == head then ActiveDisk else Done
      ensures if name in old(diskData) && name != head then Taken(old(TreeOf()), MarkRemoved(name), TreeOf())
              else TreeOf() == old(TreeOf())
    {
      hide TreeOk, ChildrenOk, ChainOk, CacheAgrees, StackOf;
      if name !in diskData {
        return Done;
      }
      if name == head {
        return ActiveDisk;
      }
      OpenMark(TreeOf(), volume.files, name);
      diskData := diskData[name := diskData[name].(removed := true)];
      return Done;
    }

    /** Takes a disk with one child out of the tree and the volume; the child takes over its parent. */
    method RemoveInnerNode(name: Name, child: Name)
      requires Wf(TreeOf()) && activeDiskData == LeadNames(backing) + TreeOf().chain
      requires volume.Valid() && |volume.files| == |activeDiskData|
      requires OnlyChild(diskData, name, child) && name != head
      modifies this, volume`location, volume`files
      ensures activeDiskData == LeadNames(backing) + TreeOf().chain
      ensures name != child && TreeOf() == RemoveInner(old(TreeOf()), name, child)
      ensures volume.Valid() && |volume.files| == |activeDiskData|
      ensures Shifted(old(volume.files), old(volume.location), old(StackIndex(name)), volume.files, volume.location)
    {
      hide Wf, OnlyChild, IndexIn, DropFrom, Shifted, CacheAgrees, Start, AddChild, RmChild, Unlink;
      ghost var t := TreeOf();
      UnlinkFacts(t, name, child);
      UnlinkHas(diskData, name, child, head);
      var p := diskData[name].parent;
      var children := AddChild(RmChild(diskChildrenMap, p, name), p, child) - {name};
      var disks := Unlink(diskData, name, child);
      var index, active := CloseDisk(name);
      var newParent := if index > 0 && |activeDiskData| - 2 == index then disks[head].parent else parent;
      Install(disks, children, active, head, newParent, size, dir - {name}, DropFrom(t.chain, name));
    }

    /** Drops a disk's file from the volume, if it is open; `active` is the active list without it. */
    method CloseDisk(name: Name) returns (index: nat, active: seq<Name>)
      requires activeDiskData == LeadNames(backing) + TreeOf().chain
      requires volume.Valid() && |volume.files| == |activeDiskData|
      requires !name.BackingDisk? && |TreeOf().chain| > 0 && name != TreeOf().chain[|TreeOf().chain| - 1]
      modifies volume`location, volume`files
      ensures volume.Valid() && active == LeadNames(backing) + DropFrom(TreeOf().chain, name) &&
              |volume.files| == |active|
      ensures index == if StackIndex(name) < |activeDiskData| then StackIndex(name) else 0
      ensures Shifted(old(volume.files), old(volume.location), StackIndex(name), volume.files, volume.location)
    {
      ghost var j := StackIndex(name);
      index, active := LeaveChain(name);
      if index > 0 {
        volume.RemoveIndex(index);
      }
      assert StackIndex(name) == j;
    }

    /** The active list without a disk, and where it was. */
    method LeaveChain(name: Name) returns (index: nat, active: seq<Name>)
      requires activeDiskData == LeadNames(backing) + TreeOf().chain
      requires !name.BackingDisk? && |TreeOf().chain| > 0 && name != TreeOf().chain[|TreeOf().chain| - 1]
      ensures active == LeadNames(backing) + DropFrom(TreeOf().chain, name)
      ensures index == if StackIndex(name) < |activeDiskData| then StackIndex(name) else 0
      ensures index < |activeDiskData| - 1 && |active| == if index > 0 then |activeDiskData| - 1 else |activeDiskData|
    {
      hide IndexIn, DropFrom;
      ActiveDrop(LeadNames(backing), TreeOf().chain, activeDiskData, name, StackIndex(name));
      index := FindDisk(name);
      active := if index > 0 then activeDiskData[..index] + activeDiskData[index + 1..] else activeDiskData;
    }

    /** Takes a disk with at most one child out of the tree and the volume, and deletes its file. */
    method RemoveDiskNode(name: Name) returns (outcome: Outcome, child: Option<Name>)
      requires Wf(TreeOf()) && activeDiskData == LeadNames(backing) + TreeOf().chain
      requires volume.Valid() && |volume.files| == |activeDiskData|
      requires name in diskData && name != head
      modifies this, volume`location, volume`files
      ensures outcome == if |Kids(old(diskData), name)| > 1 then ManyChildren else Done
      ensures volume.Valid() && activeDiskData == LeadNames(backing) + TreeOf().chain &&
              |volume.files| == |activeDiskData|
      ensures outcome == ManyChildren ==> TreeOf() == old(TreeOf())
      ensures outcome == Done && child.None? ==>
                Kids(old(diskData), name) == {} && TreeOf() == RemoveLeaf(old(TreeOf()), name)
      ensures outcome == Done && child.Some? ==>
                && OnlyChild(old(diskData), name, child.value) && name != child.value
                && TreeOf() == RemoveInner(old(TreeOf()), name, child.value)
                && Shifted(old(volume.files), old(volume.location), old(StackIndex(name)), volume.files,
                    volume.location)
      ensures outcome == ManyChildren || child.None? ==>
                volume.files == old(volume.files) && volume.location == old(volume.location)
    {
      ghost var t := TreeOf();
      ChildCases(diskData, diskChildrenMap, name);
      if name !in diskChildrenMap {
        Install(diskData - {name}, RmChild(diskChildrenMap, diskData[name].parent, name), activeDiskData,
                head, parent, size, dir - {name}, t.chain);
        return Done, None;
      }
      if |diskChildrenMap[name]| > 1 {
        return ManyChildren, None;
      }
      var c :| c in diskChildrenMap[name];
      RemoveInnerNode(name, c);
      return Done, Some(c);
    }

    /** Removes a disk that is not the head; `child` is the disk that took its place. */
    method RemoveDiffDisk(name: Name) returns (outcome: Outcome, child: Option<Name>)
      requires Valid() && name in diskData
      modifies this, volume`location, volume`files
      ensures Valid()
      ensures outcome == if name == old(head) then ActiveDisk else if |Kids(old(diskData), name)| > 1 then ManyChildren
                else Done
      ensures outcome != Done ==> TreeOf() == old(TreeOf())
      ensures outcome == Done && child.None? ==>
                Kids(old(diskData), name) == {} && TreeOf() == RemoveLeaf(old(TreeOf()), name)
      ensures outcome == Done && child.Some? ==>
                && OnlyChild(old(diskData), name, child.value) && name != child.value
                && TreeOf() == RemoveInner(old(TreeOf()), name, child.value)
    {
      hide Wf, IndexIn, CacheAgrees, StackOf, RemoveLeaf, RemoveInner, Start, Kids, OnlyChild;
      OpenFacts(TreeOf(), volume.files);
      if name == head {
        return ActiveDisk, None;
      }
      ghost var t, files, j := TreeOf(), volume.files, StackIndex(name);
      outcome, child := RemoveDiskNode(name);
      if outcome == Done {
        RemovedOpen(t, files, name, child, j, TreeOf(), volume.files);
      }
    }

    /** What a purge of a disk that is marked as removed has to do. */
    method PrepareRemoveDisk(name: Name) returns (outcome: Outcome, actions: seq<Action>)
      requires Valid()
      ensures name !in diskData ==> outcome == Done && actions == []
      ensures name in diskData ==>
                outcome == if name == head then ActiveDisk else if !diskData[name].removed then NotMarkedRemoved
                    else Done
      ensures outcome != Done ==> actions == []
      ensures outcome == Done && name in diskData ==>
                && (Kids(diskData, name) == {} ==> actions == [OpRemove(name)])
                && (|Kids(diskData, name)| > 1 ==> actions == [])
                && (forall c :: OnlyChild(diskData, name, c) ==>
                      actions == if c != head then [OpCoalesce(name, c), OpReplace(name, c)] else [OpPrune(name, c)])
      ensures outcome == Done && name in diskData && actions == [] ==> |Kids(diskData, name)| > 1
      ensures actions != [] ==> Planned(TreeOf(), name, actions)
    {
      if name !in diskData {
        return Done, [];
      }
      if name == head {
        return ActiveDisk, [];
      }
      if !diskData[name].removed {
        return NotMarkedRemoved, [];
      }
      ChildCases(diskData, diskChildrenMap, name);
      if name !in diskChildrenMap {
        return Done, [OpRemove(name)];
      }
      if |diskChildrenMap[name]| == 1 {
        var c :| c in diskChildrenMap[name];
        if c != head {
          return Done, [OpCoalesce(name, c), OpReplace(name, c)];
        }
        return Done, [OpPrune(name, c)];
      }
      return Done, [];
    }

    /** Rewrites the file of a disk below the head, which the volume may have open. */
    method RewriteFile(name: Name, layer: Layer, ghost child: Name)
      requires Valid() && Purging(TreeOf(), name, child) && name in dir && child in dir
      requires ShadowedBy(dir[name], layer, dir[child])
      modifies this`dir, volume`files
      ensures Valid() && dir == old(dir)[name := layer]
    {
      hide Open, Wf, OnlyChild, ShadowedBy, CacheAgrees, IndexIn;
      OpenFacts(TreeOf(), volume.files);
      OpenShadowed(TreeOf(), volume.files, volume.location, name, child, layer, StackIndex(name));
      var index := FindDisk(name);
      dir := dir[name := layer];
      if index > 0 {
        volume.files := volume.files[index := layer];
      }
    }

    /** Folds every sector of the only child into its parent's file. */
    method Coalesce(name: Name, child: Name) returns (ghost steps: seq<Step>)
      requires Valid() && Purging(TreeOf(), name, child) && child != head
      requires name in dir && child in dir && name != child
      modifies this`dir, volume`files
      ensures Valid() && PurgeRun(old(TreeOf()), steps, TreeOf())
      ensures name in dir && child in dir && Folded(dir[name], dir[child], ss)
    {
      hide Wf, StackOf, CacheAgrees, Start, PurgeRun, Folded, FoldAll;
      ghost var t := TreeOf();
      var layer, done := FoldFile(dir[name], dir[child], ss);
      FoldedAll(dir[name], dir[child], done, ss);
      steps := FoldAllRun(t, name, child, done);
      RewriteFile(name, layer, child);
    }

    /** Punches every sector that the head holds out of the head's parent. */
    method Prune(name: Name) returns (ghost steps: seq<Step>)
      requires Valid() && Purging(TreeOf(), name, head)
      requires name in dir && head in dir && name != head
      modifies this`dir, volume`files
      ensures Valid() && PurgeRun(old(TreeOf()), steps, TreeOf())
      ensures name in dir && head in dir && dir[name].alloc == old(dir)[name].alloc - dir[head].alloc
    {
      hide Wf, StackOf, CacheAgrees, Start, PurgeRun, PruneAll;
      ghost var t := TreeOf();
      var layer, done := PruneFile(dir[name], dir[head], ss);
      PrunedAll(dir[name], dir[head], done, ss);
      steps := PruneAllRun(t, name, done);
      RewriteFile(name, layer, head);
    }

    /**
     Gives the file of `source` to `target` and takes `source` out. The link is made before
     the children of `source` are counted, so a refusal leaves `target` with the wrong file.
     */
    method ReplaceDisk(target: Name, source: Name) returns (outcome: Outcome)
      requires Valid() && target in diskData && source != head && source != target
      modifies this, volume`location, volume`files
      ensures outcome == if target == old(head) then ActiveDisk else if source !in old(diskData) then NoSuchDisk
                         else if |Kids(old(diskData), source)| > 1 then ManyChildren else Done
      ensures outcome == ActiveDisk || outcome == NoSuchDisk ==> Valid() && TreeOf() == old(TreeOf())
      ensures outcome == ManyChildren ==> TreeOf() == SetFile(old(TreeOf()), target, old(dir[source]))
      ensures outcome == Done ==>
                exists child :: TakenOut(SetFile(old(TreeOf()), target, old(dir[source])), source, child, TreeOf())
      ensures outcome == Done && Enabled(old(TreeOf()), Replace(source, target)) ==>
                Valid() && Taken(old(TreeOf()), Replace(source, target), TreeOf())
    {
      hide Wf, Enabled, Taken, Refreshed, Shifted, CacheAgrees, IndexIn, Kids, OnlyChild, SnapshotTrees.ReplaceDisk,
          StackOf, Start, SetFile, TakenOut;
      OpenFacts(TreeOf(), volume.files);
      if target == head {
        return ActiveDisk;
      }
      if source !in dir {
        return NoSuchDisk;
      }
      ghost var t, files, location, j := TreeOf(), volume.files, volume.location, StackIndex(source);
      outcome := Relink(target, source);
      if outcome != Done {
        return;
      }
      ghost var u, mid := TreeOf(), volume.files;
      RefreshHandle(target);
      if Enabled(t, Replace(source, target)) {
        ReplaceEnabled(t, source, target);
        ReplacedOpen(t, files, location, source, target, j, u, mid, volume.location, StackIndex(target));
      }
    }

    /** Links `target` to the file of `source`, and takes `source` out of the tree and the volume. */
    method Relink(target: Name, source: Name) returns (outcome: Outcome)
      requires Valid() && target in diskData && source in diskData && source != head && source != target
      modifies this, volume`location, volume`files
      ensures outcome == if |Kids(old(diskData), source)| > 1 then ManyChildren else Done
      ensures volume.Valid() && activeDiskData == LeadNames(backing) + TreeOf().chain
      ensures outcome == ManyChildren ==> TreeOf() == SetFile(old(TreeOf()), target, old(dir[source]))
      ensures outcome == Done ==> target in dir && |volume.files| == |activeDiskData|
      ensures outcome == Done ==>
                exists child :: TakenOut(SetFile(old(TreeOf()), target, old(dir[source])), source, child, TreeOf())
      ensures outcome == Done && OnlyChild(old(diskData), source, target) ==>
                && TreeOf() == SnapshotTrees.ReplaceDisk(old(TreeOf()), target, source)
                && Shifted(old(volume.files), old(volume.location), old(StackIndex(source)), volume.files,
                    volume.location)
    {
      hide Wf, RemoveInner, RemoveLeaf, SnapshotTrees.ReplaceDisk, IndexIn, Shifted, CacheAgrees, StackOf, Kids,
          OnlyChild, TakenOut;
      ghost var t := TreeOf();
      OpenFacts(t, volume.files);
      RelinkedWf(t, target, source);
      dir := dir[target := dir[source]];
      var child;
      outcome, child := RemoveDiskNode(source);
      if outcome == Done {
        RelinkedRemoved(t, target, source, child, TreeOf());
      }
    }

    /** Opens the file that now has the disk's name. */
    method RefreshHandle(target: Name)
      requires activeDiskData == LeadNames(backing) + TreeOf().chain && |volume.files| == |activeDiskData|
      requires target in dir && !target.BackingDisk?
      modifies volume`files
      ensures volume.files == Refreshed(old(volume.files), StackIndex(target), dir[target])
    {
      var index := FindDisk(target);
      if index > 0 {
        volume.files := volume.files[index := dir[target]];
      }
    }

    /** Drops a leaf that is marked as removed. */
    method PurgeLeaf(name: Name) returns (ghost steps: seq<Step>)
      requires Valid() && Enabled(TreeOf(), DropLeaf(name))
      modifies this, volume`location, volume`files
      ensures Valid() && PurgeRun(old(TreeOf()), steps, TreeOf()) && name !in diskData
    {
      ghost var t := TreeOf();
      var outcome, child := RemoveDiffDisk(name);
      LeafTaken(t, name, child, TreeOf());
      PurgeRunSnoc(t, [], t, DropLeaf(name), TreeOf());
      steps := [] + [DropLeaf(name)];
    }

    /** Folds the only child into a disk that is marked as removed, and replaces the disk by it. */
    method PurgeInner(name: Name, child: Name) returns (ghost steps: seq<Step>)
      requires Valid() && Purging(TreeOf(), name, child) && child != head && name != child
      modifies this, volume`location, volume`files
      ensures Valid() && PurgeRun(old(TreeOf()), steps, TreeOf()) && name !in diskData
    {
      hide Wf, OnlyChild, Folded, Taken, PurgeRun, StackOf, CacheAgrees, Kids, FilesOf;
      ghost var t := TreeOf();
      OpenFacts(t, volume.files);
      PurgingFacts(t, name, child);
      steps := Coalesce(name, child);
      ghost var u := TreeOf();
      var outcome := ReplaceDisk(child, name);
      PurgeRunSnoc(t, steps, u, Replace(name, child), TreeOf());
      ReplaceTaken(u, name, child, TreeOf());
      steps := steps + [Replace(name, child)];
    }

    /** Purges a disk that is marked as removed, as far as its children allow. */
    method Purge(name: Name) returns (outcome: Outcome, ghost steps: seq<Step>)
      requires Valid()
      modifies this, volume`location, volume`files
      ensures Valid() && PurgeRun(old(TreeOf()), steps, TreeOf())
      ensures outcome == if name !in old(diskData) then Done else if name == old(head) then ActiveDisk
                         else if !old(diskData)[name].removed then NotMarkedRemoved else Done
      ensures outcome == Done && name in diskData ==>
                |Kids(old(diskData), name)| > 1 || OnlyChild(old(diskData), name, head)
      ensures outcome == Done && OnlyChild(old(diskData), name, old(head)) ==>
                name in dir && head in dir && dir[name].alloc == old(dir)[name].alloc - dir[head].alloc
    {
      hide Open, Enabled, PurgeRun, Kids;
      OpenFacts(TreeOf(), volume.files);
      var actions;
      outcome, actions := PrepareRemoveDisk(name);
      if actions == [] {
        steps := NoSteps(TreeOf());
        return;
      }
      if actions[0].OpRemove? {
        steps := PurgeLeaf(name);
      } else if actions[0].OpPrune? {
        steps := Prune(name);
      } else {
        steps := PurgeInner(name, actions[0].target);
      }
    }

    /** Drops the head and reopens the replica on a new empty head above a snapshot. */
    method Revert(name: Name) returns (r: Option<Replica>)
      requires Valid() && name.SnapDisk?
      ensures r.Some? <==> && name in diskData && !diskData[name].removed
                           && |RevertDisk(TreeOf(), name).chain| <= MAX_SNAPSHOT_COUNT
      ensures r.Some? ==>
                && fresh(r.value) && fresh(r.value.volume) && r.value.Valid()
                && r.value.snapshotMaxCount == snapshotMaxCount
                && Taken(TreeOf(), SnapshotRuns.Revert(name), r.value.TreeOf())
    {
      hide Wf, StackOf, CacheAgrees, Start, PathTo, ChildMap, RevertDisk, Taken, Sound, HeadOk;
      if name !in diskData || diskData[name].removed {
        return None;
      }
      ghost var t := TreeOf();
      RevertFacts(t, name);
      StartAligned(|volume.location|, ss);
      var next := NextHead(head);
      var disks := (diskData - {head})[next := Disk(name, false, diskData[name].rank + 1)];
      var files := (dir - {head})[next := Layer(Zeros(size), {})];
      r := OpenReplica(ss, backing, snapshotMaxCount, disks, files, next, size);
    }
  }

  /** Opens the replica that a directory holds; a live chain that is too long is refused. */
  method OpenReplica(ss: nat, backing: Option<Layer>, snapshotMaxCount: int, disks: map<Name, Disk>,
                     dir: map<Name, Layer>, head: Name, size: nat)
    returns (r: Option<Replica>)
    requires Sound(Store(ss, backing, disks, dir)) && HeadOk(disks, head)
    requires |dir[head].bytes| == size && Rem(size, ss) == 0
    ensures r.None? <==> |PathTo(disks, head)| > MAX_SNAPSHOT_COUNT
    ensures r.Some? ==>
              && fresh(r.value) && fresh(r.value.volume) && r.value.Valid()
              && r.value.snapshotMaxCount == snapshotMaxCount
              && r.value.TreeOf() == Tree(Store(ss, backing, disks, dir), ChildMap(disks), PathTo(disks, head), head,
                  disks[head].parent, size)
  {
    var names := Chain(disks, head);
    if |names.value| > MAX_SNAPSHOT_COUNT {
      return None;
    }
    var replica := new Replica(ss, backing, snapshotMaxCount, disks, dir, head, Reversed(names.value), size);
    return Some(replica);
  }
}
