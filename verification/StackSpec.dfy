/**
 The open stack of a replica: what each edit of the disk tree means for the list of open files behind the volume
 (pkg/replica/replica.go).

 A volume is open on a tree if its files are, from the bottom up, those of the live chain. The lemmas say of each edit
 (write, snapshot, removal, replacement, rewriting under a child) which file of the stack it changes, adds or drops,
 and that the location table, shifted along, still agrees with the stack. The list of active disk names is kept in
 step with the files, and the plan of a purge is read off the children of a disk.
 */
module StackSpec {
  import opened Sectors
  import opened Sets
  import opened Layers
  import opened ReadSpec
  import opened WriteSpec
  import opened SnapshotStores
  import opened SnapshotTrees
  import opened SnapshotRuns

  /** `files` is the stack of open files of the tree's live chain. */
  ghost predicate Open(t: Tree, files: seq<Layer>) {
    Wf(t) && files == StackOf(t.store, t.chain)
  }

  /** The volume shows the head's content. */
  lemma {:induction false} OpenView(t: Tree, files: seq<Layer>, o: nat)
    requires Open(t, files)
    ensures 2 <= |files|
    ensures ViewByte(files, |files| - 1, t.store.ss, o) == Content(t.store, t.head, o)
  {
    hide TreeOk, HeadOk, ChildrenOk, Linked, FilesOf;
    StackShowsContent(t.store, t.chain, files, |t.chain| - 1, |files| - 1, o);
  }

  /** The top of the stack is the head's file. */
  lemma {:induction false} OpenTop(t: Tree, files: seq<Layer>)
    requires Open(t, files)
    ensures 2 <= |files| && files[|files| - 1] == t.store.files[t.head]
  {
    assert files[|files| - 1] == FilesOf(t.store.files, t.chain)[|t.chain| - 1];
  }

  /** What an open stack says about sizes and names. */
  lemma {:induction false} OpenFacts(t: Tree, files: seq<Layer>)
    requires Open(t, files)
    ensures |files| == |t.chain| + Bottom(t.store) && 2 <= |files|
    ensures t.store.disks.Keys == t.store.files.Keys
    ensures NoDisk !in t.store.disks && BackingDisk !in t.store.disks && t.head in t.store.disks
  {
  }

  /** A new file for a disk of the chain replaces one entry of the stack. */
  lemma {:induction false} SetInFiles(st: Store, chain: seq<Name>, k: nat, layer: Layer)
    requires Sound(st) && Path(st.disks, chain) && k < |chain|
    ensures FilesOf(st.files[chain[k] := layer], chain) == FilesOf(st.files, chain)[k := layer]
  {
    forall i | 0 <= i < |chain| && i != k
      ensures chain[i] != chain[k]
    {
      if i < k {
        PathRanks(st.disks, chain, i, k);
      } else {
        PathRanks(st.disks, chain, k, i);
      }
    }
  }

  lemma {:induction false} SetInStack(lead: seq<Layer>, files: seq<Layer>, k: nat, j: nat, layer: Layer)
    requires k < |files| && j == |lead| + k
    ensures (lead + files)[j := layer] == lead + files[k := layer]
  {
  }

  lemma {:induction false} OpenSetFile(t: Tree, files: seq<Layer>, k: nat, j: nat, layer: Layer)
    requires Open(t, files) && k < |t.chain| && j == k + Bottom(t.store)
    ensures Open(SetFile(t, t.chain[k], layer), files[j := layer])
  {
    hide TreeOk, HeadOk, ChildrenOk;
    SetFileWf(t, t.chain[k], layer);
    SetInFiles(t.store, t.chain, k, layer);
    SetInStack(Lead(t.store.backing), FilesOf(t.store.files, t.chain), k, j, layer);
  }

  /** A new file for a disk off the chain leaves the stack alone. */
  lemma {:induction false} OpenSetFileOff(t: Tree, files: seq<Layer>, n: Name, layer: Layer)
    requires Open(t, files) && n in t.store.disks && n !in t.chain
    ensures Open(SetFile(t, n, layer), files)
  {
    SetFileWf(t, n, layer);
    assert FilesOf(t.store.files[n := layer], t.chain) == FilesOf(t.store.files, t.chain);
  }

  /** A write that changed only the top of the stack changed only the head's file. */
  lemma {:induction false} OpenWrite(t: Tree, files: seq<Layer>, now: seq<Layer>)
    requires Open(t, files) && OnlyHead(files, now)
    ensures Open(SetFile(t, t.head, now[|now| - 1]), now)
    ensures files[|files| - 1] == t.store.files[t.head]
  {
    hide TreeOk, HeadOk, ChildrenOk, Linked, FilesOf, SetFile;
    var top := now[|now| - 1];
    OpenSetFile(t, files, |t.chain| - 1, |files| - 1, top);
    assert now == files[|files| - 1 := top];
  }

  /** A volume write that spliced the view is a write step of the tree. */
  lemma {:induction false} OpenHeadWrite(t: Tree, files: seq<Layer>, now: seq<Layer>, off: nat, buf: seq<byte>)
    requires Open(t, files) && OnlyHead(files, now) && |files[|files| - 1].bytes| == t.size
    requires off + |buf| <= t.size
    requires View(now, t.store.ss, t.size) == Splice(View(files, t.store.ss, t.size), off, buf)
    ensures HeadWrite(t, off, buf, now[|now| - 1])
  {
    hide TreeOk, HeadOk, ChildrenOk, Path, FilesOf;
    OpenWrite(t, files, now);
    var u := SetFile(t, t.head, now[|now| - 1]);
    forall o | 0 <= o < t.size
      ensures Content(u.store, t.head, o) == if off <= o < off + |buf| then buf[o - off]
                else Content(t.store, t.head, o)
    {
      OpenView(t, files, o);
      OpenView(u, now, o);
      assert View(now, t.store.ss, t.size)[o] == Splice(View(files, t.store.ss, t.size), off, buf)[o];
    }
  }

  lemma {:induction false} CreateInFiles(st: Store, chain: seq<Name>, head: Name, snap: Name, next: Name, size: nat)
    requires Sound(st) && HeadOk(st.disks, head) && ChainOk(st.disks, chain, head)
    requires snap.SnapDisk? && snap !in st.disks && next.HeadDisk? && next != head
    ensures var after := CreateFiles(st.files, head, snap, next, size);
            var now := chain[..|chain| - 1] + [snap, next];
            (forall i :: 0 <= i < |now| ==> now[i] in after) &&
            FilesOf(after, now) == FilesOf(st.files, chain) + [Layer(Zeros(size), {})]
  {
    forall i | 0 <= i < |chain| - 1
      ensures chain[i] != head
    {
      ChainChild(st.disks, chain, head, i, i + 1);
    }
  }

  /** A read into files that reach its end shows the head's content. */
  lemma {:induction false} ReadShowsHead(t: Tree, files: seq<Layer>, tableSize: nat, buf: seq<byte>, offset: nat,
                                         out: seq<byte>)
    requires Open(t, files) && 2 <= |files| && offset + |buf| <= Start(tableSize, t.store.ss)
    requires IsRead(files, tableSize, t.store.ss, buf, offset, out)
    requires forall i :: 1 <= i < |files| ==> offset + |buf| <= |files[i].bytes|
    ensures Wf(t) && |out| == |buf| && forall k :: 0 <= k < |out| ==> out[k] == Content(t.store, t.head, offset + k)
  {
    hide StackOf, ChildrenOk, ChainOk, ReadByte, Content, ViewByte, View;
    LongFilesReadRight(files, tableSize, t.store.ss, buf, offset, out);
    var view := View(files, t.store.ss, Start(tableSize, t.store.ss));
    forall k | 0 <= k < |out|
      ensures out[k] == Content(t.store, t.head, offset + k)
    {
      assert out[k] == view[offset + k];
      OpenView(t, files, offset + k);
    }
  }

  /** A snapshot puts one empty file on the stack. */
  lemma {:induction false} OpenCreate(t: Tree, files: seq<Layer>, snap: Name, size: nat)
    requires Open(t, files) && snap.SnapDisk? && snap !in t.store.disks
    ensures Open(CreateDisk(t, snap, size), files + [Layer(Zeros(size), {})])
  {
    CreateWf(t, snap, size);
    CreateInFiles(t.store, t.chain, t.head, snap, NextHead(t.head), size);
  }

  /** Dropping a leaf leaves the stack alone. */
  lemma {:induction false} OpenRemoveLeaf(t: Tree, files: seq<Layer>, n: Name)
    requires Open(t, files) && n in t.store.disks && n != t.head && Kids(t.store.disks, n) == {}
    ensures Open(RemoveLeaf(t, n), files)
  {
    RemoveLeafWf(t, n);
    LeafChainOk(t.store.disks, t.chain, t.head, n);
    assert FilesOf(t.store.files - {n}, t.chain) == FilesOf(t.store.files, t.chain);
  }

  /** A disk is on the chain at most once. */
  lemma {:induction false} OnceOnChain(st: Store, chain: seq<Name>, n: Name)
    requires Sound(st) && Path(st.disks, chain)
    ensures n !in DropFrom(chain, n)
  {
    var k := IndexIn(chain, n);
    var d := DropFrom(chain, n);
    forall i | 0 <= i < |d|
      ensures d[i] != n
    {
      if k <= i && k < |chain| {
        var j := i + 1;
        PathRanks(st.disks, chain, k, j);
      }
    }
  }

  /** The files along the chain without `n`. */
  lemma {:induction false} DropInFiles(files: map<Name, Layer>, chain: seq<Name>, n: Name)
    requires forall i :: 0 <= i < |chain| ==> chain[i] in files
    requires n !in DropFrom(chain, n)
    ensures forall i :: 0 <= i < |DropFrom(chain, n)| ==> DropFrom(chain, n)[i] in files - {n}
    ensures FilesOf(files - {n}, DropFrom(chain, n)) == DropAt(FilesOf(files, chain), IndexIn(chain, n))
  {
    var d, k := DropFrom(chain, n), IndexIn(chain, n);
    forall i | 0 <= i < |d|
      ensures d[i] in files - {n} && files[d[i]] == DropAt(FilesOf(files, chain), k)[i]
    {
      assert d[i] != n;
      if k <= i && k < |chain| {
        var j := i + 1;
        assert d[i] == chain[j];
      } else {
        assert d[i] == chain[i];
      }
    }
  }

  /** A list without its entry `k`, if it has one. */
  function DropAt(s: seq<Layer>, k: nat): seq<Layer> {
    if k < |s| then s[..k] + s[k + 1..] else s
  }

  lemma {:induction false} DropInStack(lead: seq<Layer>, files: seq<Layer>, k: nat, j: nat)
    requires j == |lead| + k
    ensures DropAt(lead + files, j) == lead + DropAt(files, k)
  {
  }

  /** Unlinking a disk drops its file from the stack, if it is there. */
  lemma {:induction false} OpenRemoveInner(t: Tree, files: seq<Layer>, n: Name, c: Name, k: nat, j: nat)
    requires Open(t, files) && OnlyChild(t.store.disks, n, c) && n != t.head
    requires k == IndexIn(t.chain, n) && j == k + Bottom(t.store)
    ensures n != c
    ensures Open(RemoveInner(t, n, c), DropAt(files, j))
  {
    RemoveInnerWf(t, n, c);
    OnceOnChain(t.store, t.chain, n);
    DropInFiles(t.store.files, t.chain, n);
    DropInStack(Lead(t.store.backing), FilesOf(t.store.files, t.chain), k, j);
  }

  /** The stack after `n` was taken out: it lost the file of `n`, and no other. */
  lemma {:induction false} RemovedOpen(t: Tree, files: seq<Layer>, n: Name, child: Option<Name>, j: nat, u: Tree,
                                       now: seq<Layer>)
    requires Open(t, files) && n in t.store.disks && n != t.head && j == IndexIn(t.chain, n) + Bottom(t.store)
    requires child.None? ==> Kids(t.store.disks, n) == {} && u == RemoveLeaf(t, n) && now == files
    requires child.Some? ==>
               && OnlyChild(t.store.disks, n, child.value) && n != child.value
               && u == RemoveInner(t, n, child.value) && now == DropAt(files, j)
    ensures Open(u, now) && u.size == t.size && 2 <= |now| && now[|now| - 1] == files[|files| - 1]
  {
    hide Wf, Kids, OnlyChild, StackOf, DropAt, Unlink, IndexIn;
    OpenFacts(t, files);
    OpenTop(t, files);
    if child.None? {
      OpenRemoveLeaf(t, files, n);
    } else {
      OpenRemoveInner(t, files, n, child.value, IndexIn(t.chain, n), j);
    }
    OpenTop(u, now);
  }

  /** Marking a disk leaves the stack alone. */
  lemma {:induction false} OpenMark(t: Tree, files: seq<Layer>, n: Name)
    requires Open(t, files) && n in t.store.disks && n != t.head
    ensures Open(MarkDisk(t, n), files)
  {
    MarkWf(t, n);
  }

  /** The live chain holds no more disks than there are. */
  lemma {:induction false} ChainShort(disks: map<Name, Disk>, chain: seq<Name>, k: nat) returns (names: set<Name>)
    requires TreeOk(disks) && Path(disks, chain) && k <= |chain|
    ensures |names| == k && names <= disks.Keys
    ensures forall n :: n in names ==> exists i :: 0 <= i < k && chain[i] == n
  {
    names := {};
    if k > 0 {
      var j := k - 1;
      var rest := ChainShort(disks, chain, j);
      forall i | 0 <= i < j
        ensures chain[i] != chain[j]
      {
        PathRanks(disks, chain, i, j);
      }
      names := rest + {chain[j]};
    }
  }

  /** An open stack is short enough for one-byte table entries while the controller admits snapshots. */
  lemma {:induction false} StackShort(t: Tree, files: seq<Layer>)
    requires Open(t, files) && |t.store.disks| <= MAX_SNAPSHOT_COUNT
    ensures |files| < 256
  {
    var names := ChainShort(t.store.disks, t.chain, |t.chain|);
    SubsetSize(names, t.store.disks.Keys);
    assert |t.store.disks.Keys| == |t.store.disks|;
  }

  /** Changing sectors of a layer that the layer above it holds changes no owner. */
  lemma {:induction false} ShadowAgrees(location: seq<byte>, files: seq<Layer>, j: nat, jc: nat, layer: Layer)
    requires 2 <= |files| && CacheAgrees(location, files)
    requires 1 <= j && jc == j + 1 && jc < |files|
    requires ShadowedBy(files[j], layer, files[jc])
    ensures CacheAgrees(location, files[j := layer])
  {
    forall x | 0 <= x < |location| && location[x] != 0 && j != 1
      ensures (x in layer.alloc <==> x in files[j].alloc) || j < location[x]
    {
      assert location[x] == Owner(files, |files| - 1, x);
    }
    ReplaceAgrees(location, files, j, layer);
  }

  /** The two files hold the same sectors, but for sectors that the file above holds. */
  ghost predicate ShadowedBy(before: Layer, now: Layer, above: Layer) {
    forall x :: (x in now.alloc <==> x in before.alloc) || x in above.alloc
  }

  /** The only child of a disk of the chain is the next disk of the chain. */
  lemma {:induction false} ChildOnChain(t: Tree, files: seq<Layer>, n: Name, c: Name, k: nat, j: nat, jc: nat)
    requires Open(t, files) && OnlyChild(t.store.disks, n, c) && n != t.head
    requires k == IndexIn(t.chain, n) && k < |t.chain| && j == k + Bottom(t.store) && jc == j + 1
    ensures jc < |files| && files[j] == t.store.files[n] && files[jc] == t.store.files[c]
  {
    var kc := k + 1;
    hide TreeOk, ChildrenOk;
    assert Linked(t.store.disks, t.chain, k);
    assert files[j] == FilesOf(t.store.files, t.chain)[k];
    assert files[jc] == FilesOf(t.store.files, t.chain)[kc];
  }

  /** The table after a folded disk's file moved to its child's place in the stack. */
  lemma {:induction false} ReplacedAgrees(location: seq<byte>, now: seq<byte>, files: seq<Layer>, after: seq<Layer>,
                                          j: nat, jc: nat)
    requires 3 <= |files| <= 256 && CacheAgrees(location, files)
    requires 1 <= j && jc == j + 1 && jc < |files| && files[jc].alloc <= files[j].alloc
    requires Shifted(files, location, j, after, now) && CacheAgrees(now, after)
    ensures CacheAgrees(now, after[j := files[j]])
  {
    forall s | 0 <= s < |now| && now[s] != 0 && j != 1
      ensures (s in files[j].alloc <==> s in after[j].alloc) || j < now[s]
    {
      assert location[s] == Owner(files, |files| - 1, s);
    }
    ReplaceAgrees(now, after, j, files[j]);
  }

  // ---------------------------------------------------------------- the active list

  function LeadNames(backing: Option<Layer>): (lead: seq<Name>) {
    if backing.Some? then [NoDisk, BackingDisk] else [NoDisk]
  }

  /** The index of a disk in the active list past its placeholder, or 0. */
  method FindIn(active: seq<Name>, name: Name) returns (index: nat)
    ensures index == FoundAt(active, name)
  {
    for i := 0 to |active|
      invariant forall k :: 1 <= k < i ==> active[k] != name
    {
      if i != 0 && active[i] == name {
        FoundAtIs(active, name, i);
        return i;
      }
    }
    FoundAtIs(active, name, 0);
    return 0;
  }

  ghost function FoundAt(active: seq<Name>, name: Name): (i: nat)
    ensures i < |active| || i == 0
    ensures i > 0 ==> active[i] == name && forall k :: 1 <= k < i ==> active[k] != name
    ensures i == 0 ==> forall k :: 1 <= k < |active| ==> active[k] != name
  {
    if active == [] then 0
    else
      var i := IndexIn(active[1..], name);
      assert forall k :: 1 <= k < |active| ==> active[k] == active[1..][k - 1];
      if i < |active| - 1 then i + 1 else 0
  }

  lemma {:induction false} FoundAtIs(active: seq<Name>, name: Name, i: nat)
    requires i > 0 ==> i < |active| && active[i] == name && forall k :: 1 <= k < i ==> active[k] != name
    requires i == 0 ==> forall k :: 1 <= k < |active| ==> active[k] != name
    ensures FoundAt(active, name) == i
  {
  }

  /** The first entry `i` of the active list, past its placeholder, that is `name` is an entry of the chain. */
  lemma {:induction false} FoundIndex(lead: seq<Name>, chain: seq<Name>, active: seq<Name>, name: Name, i: nat)
    requires active == lead + chain && 1 <= |lead| && 1 <= i <= |active|
    requires forall k :: 1 <= k < i ==> active[k] != name
    requires forall k :: 1 <= k < |lead| ==> lead[k] != name
    requires i < |active| ==> active[i] == name
    ensures |lead| + IndexIn(chain, name) == i
  {
    var k := IndexIn(chain, name);
    var j := |lead| + k;
    if k < |chain| {
      assert active[j] == name;
    }
    if i < |active| {
      assert chain[i - |lead|] == name;
    }
  }

  /** Renaming the last entry of the active list and appending one does the same to the chain. */
  lemma {:induction false} ActiveCreate(lead: seq<Name>, chain: seq<Name>, active: seq<Name>, snap: Name, next: Name)
    requires active == lead + chain && chain != []
    ensures active[|active| - 1 := snap] + [next] == lead + (chain[..|chain| - 1] + [snap, next])
    ensures (active[|active| - 1 := snap] + [next])[|lead|..] == chain[..|chain| - 1] + [snap, next]
  {
  }

  lemma {:induction false} ActiveDrop(lead: seq<Name>, chain: seq<Name>, active: seq<Name>, name: Name, index: nat)
    requires active == lead + chain && index == |lead| + IndexIn(chain, name)
    requires chain != [] && name != chain[|chain| - 1]
    ensures index != |active| - 1 && index <= |active|
    ensures lead + DropFrom(chain, name) == if index < |active| then active[..index] + active[index + 1..] else active
  {
  }

  /** The name of the snapshot that an expansion takes. */
  function ExpansionName(size: nat): (n: Name)
    ensures n.SnapDisk?
  {
    SnapDisk("expand-" + Decimal(size))
  }

  function Decimal(n: nat): string {
    if n < 10 then [('0' as int + n) as char] else Decimal(n / 10) + [('0' as int + n % 10) as char]
  }

  /** The number that a string of digits stands for. */
  function Value(s: string): int {
    if s == [] then 0 else 10 * Value(s[..|s| - 1]) + (s[|s| - 1] as int - '0' as int)
  }

  lemma {:induction false} DecimalValue(n: nat)
    ensures Value(Decimal(n)) == n
    decreases n
  {
    if n < 10 {
      assert Decimal(n)[..0] == [];
    } else {
      DecimalValue(n / 10);
      assert Decimal(n)[..|Decimal(n)| - 1] == Decimal(n / 10);
    }
  }

  /** Expansions to different sizes take snapshots under different names. */
  lemma {:induction false} ExpansionNamesDiffer(a: nat, b: nat)
    requires ExpansionName(a) == ExpansionName(b)
    ensures a == b
  {
    var lead := "expand-";
    assert (lead + Decimal(a))[|lead|..] == Decimal(a) && (lead + Decimal(b))[|lead|..] == Decimal(b);
    DecimalValue(a);
    DecimalValue(b);
  }

  /** The tree and the open files after a snapshot `name` under a new head of `newSize` bytes. */
  ghost predicate Created(t: Tree, files: seq<Layer>, name: Name, newSize: nat, u: Tree, now: seq<Layer>) {
    && Wf(t) && name.SnapDisk? && name !in t.store.disks
    && u == SnapshotTrees.CreateDisk(t, name, newSize)
    && now == files + [Layer(Zeros(newSize), {})]
  }

  /** What a snapshot needs to know about an open replica. */
  lemma {:induction false} CreateFacts(t: Tree, files: seq<Layer>)
    requires Open(t, files)
    ensures t.head.HeadDisk? && t.head in t.store.disks && t.head in t.store.files && t.chain != []
    ensures |files| == |t.chain| + Bottom(t.store)
  {
  }

  lemma {:induction false} CreatedOpen(t: Tree, files: seq<Layer>, name: Name, newSize: nat, u: Tree, now: seq<Layer>,
                                       location: seq<byte>)
    requires Open(t, files) && Created(t, files, name, newSize, u, now)
    requires 2 <= |files| && CacheAgrees(location, files)
    ensures Open(u, now) && CacheAgrees(location, now)
    ensures |now| == |files| + 1 && |now[|now| - 1].bytes| == newSize == u.size
    ensures newSize == t.size ==> Taken(t, SnapshotRuns.Snapshot(name), u)
    ensures newSize > t.size ==> Taken(t, SnapshotRuns.Expand(name, newSize), u)
  {
    hide Wf, StackOf, CacheAgrees, CreateDisks, CreateFiles, CreateChildren;
    OpenCreate(t, files, name, newSize);
    PushAgrees(location, files, Layer(Zeros(newSize), {}));
  }

  /** What the child map says about a disk. */
  lemma {:induction false} ChildCases(disks: map<Name, Disk>, children: map<Name, set<Name>>, n: Name)
    requires ChildrenOk(disks, children) && n in disks && n != NoDisk
    ensures n !in children <==> Kids(disks, n) == {}
    ensures n in children ==> children[n] == Kids(disks, n) && children[n] != {}
    ensures forall c :: n in children && |children[n]| <= 1 && c in children[n] ==> OnlyChild(disks, n, c)
    ensures forall c :: OnlyChild(disks, n, c) ==> Kids(disks, n) == {c}
  {
    assert ChildSet(children, n) == Kids(disks, n);
    forall c | n in children && |children[n]| <= 1 && c in children[n]
      ensures OnlyChild(disks, n, c)
    {
      forall m | m in disks && disks[m].parent == n
        ensures m == c
      {
        assert m in children[n];
        if m != c {
          assert |{m, c}| == 2;
          SubsetSize({m, c}, children[n]);
        }
      }
    }
  }

  /** A disk changed sectors that its only child holds: the stack and the table follow. */
  lemma {:induction false} OpenShadowed(t: Tree, files: seq<Layer>, location: seq<byte>, n: Name, c: Name, layer: Layer,
                                        j: nat)
    requires Open(t, files) && 2 <= |files| && CacheAgrees(location, files)
    requires OnlyChild(t.store.disks, n, c) && n != t.head
    requires ShadowedBy(t.store.files[n], layer, t.store.files[c])
    requires j == Bottom(t.store) + IndexIn(t.chain, n)
    ensures var now := if j < |files| then files[j := layer] else files;
            Open(SetFile(t, n, layer), now) && CacheAgrees(location, now) && now[|now| - 1] == files[|files| - 1]
  {
    hide ChildrenOk, Path, FilesOf, CacheAgrees;
    if j < |files| {
      ChildOnChain(t, files, n, c, IndexIn(t.chain, n), j, j + 1);
      OpenSetFile(t, files, IndexIn(t.chain, n), j, layer);
      ShadowAgrees(location, files, j, j + 1, layer);
    } else {
      OpenSetFileOff(t, files, n, layer);
    }
  }

  /** Where the only child of an unlinked disk is on the new chain. */
  lemma {:induction false} ChildIndex(disks: map<Name, Disk>, chain: seq<Name>, n: Name, c: Name)
    requires TreeOk(disks) && Path(disks, chain) && OnlyChild(disks, n, c) && n != chain[|chain| - 1]
    ensures var k, d := IndexIn(chain, n), DropFrom(chain, n);
            IndexIn(d, c) == (if k < |chain| then k else |d|) && (k < |chain| ==> k + 1 < |chain| && chain[k + 1] == c)
  {
    var k, d := IndexIn(chain, n), DropFrom(chain, n);
    if k < |chain| {
      var kc := k + 1;
      assert Linked(disks, chain, k);
      forall i | 0 <= i < k
        ensures d[i] != c
      {
        PathRanks(disks, chain, i, kc);
      }
      assert d[k] == chain[kc];
    } else {
      forall i | 0 <= i < |chain|
        ensures chain[i] != c
      {
        if i > 0 {
          assert Linked(disks, chain, i - 1);
        }
      }
    }
  }

  lemma {:induction false} DropSet(files: seq<Layer>, j: nat, jc: nat, layer: Layer)
    requires jc == j + 1 && jc < |files|
    ensures DropAt(files[jc := layer], j) == DropAt(files, j)[j := layer]
  {
  }

  /** After a folded disk was replaced by its only child, the child's place in the stack holds the folded file. */
  lemma {:induction false} OpenReplaceOn(t: Tree, files: seq<Layer>, n: Name, c: Name, k: nat, j: nat, kc: nat, jc: nat)
    requires Open(t, files) && OnlyChild(t.store.disks, n, c) && n != t.head && n != c
    requires k == IndexIn(t.chain, n) && j == k + Bottom(t.store) && kc == k + 1 && jc == j + 1
    requires kc < |t.chain| && t.chain[kc] == c
    ensures jc < |files| && Open(ReplaceDisk(t, c, n), DropAt(files, j)[j := t.store.files[n]])
  {
    OpenSetFile(t, files, kc, jc, t.store.files[n]);
    OpenRemoveInner(SetFile(t, c, t.store.files[n]), files[jc := t.store.files[n]], n, c, k, j);
    DropSet(files, j, jc, t.store.files[n]);
  }

  /** The stack does not see the replacement of a disk off the chain. */
  lemma {:induction false} OpenReplaceOff(t: Tree, files: seq<Layer>, n: Name, c: Name, k: nat, j: nat)
    requires Open(t, files) && OnlyChild(t.store.disks, n, c) && n != t.head && n != c
    requires k == IndexIn(t.chain, n) && j == k + Bottom(t.store) && |t.chain| <= k
    requires c !in t.chain
    ensures Open(ReplaceDisk(t, c, n), files)
  {
    OpenSetFileOff(t, files, c, t.store.files[n]);
    OpenRemoveInner(SetFile(t, c, t.store.files[n]), files, n, c, k, j);
  }

  lemma {:induction false} OpenReplace(t: Tree, files: seq<Layer>, n: Name, c: Name, k: nat, j: nat)
    requires Open(t, files) && OnlyChild(t.store.disks, n, c) && n != t.head && n != c
    requires k == IndexIn(t.chain, n) && j == k + Bottom(t.store)
    ensures k < |t.chain| ==> j + 1 < |files| && Open(ReplaceDisk(t, c, n), DropAt(files, j)[j := t.store.files[n]])
    ensures k >= |t.chain| ==> Open(ReplaceDisk(t, c, n), files)
  {
    ChildIndex(t.store.disks, t.chain, n, c);
    if k < |t.chain| {
      OpenReplaceOn(t, files, n, c, k, j, k + 1, j + 1);
    } else {
      OpenReplaceOff(t, files, n, c, k, j);
    }
  }

  /** A stack after the file at `k` was opened anew; nothing if there is no such entry. */
  function Refreshed(files: seq<Layer>, k: nat, layer: Layer): (r: seq<Layer>)
    ensures |r| == |files|
  {
    if k < |files| then files[k := layer] else files
  }

  lemma {:induction false} ReplacedStack(t: Tree, files: seq<Layer>, n: Name, c: Name, j: nat, mid: seq<Layer>, k: nat)
    requires Open(t, files) && OnlyChild(t.store.disks, n, c) && n != t.head && n != c
    requires j == Bottom(t.store) + IndexIn(t.chain, n) && k == Bottom(t.store) + IndexIn(DropFrom(t.chain, n), c)
    requires mid == DropAt(files, j)
    ensures Open(ReplaceDisk(t, c, n), Refreshed(mid, k, t.store.files[n]))
  {
    hide TreeOk, HeadOk, ChildrenOk, FilesOf;
    ChildIndex(t.store.disks, t.chain, n, c);
    OpenReplace(t, files, n, c, IndexIn(t.chain, n), j);
  }

  lemma {:induction false} ReplacedTable(t: Tree, files: seq<Layer>, location: seq<byte>, n: Name, c: Name,
                                         j: nat, mid: seq<Layer>, table: seq<byte>, k: nat)
    requires Open(t, files) && OnlyChild(t.store.disks, n, c) && n != t.head && n != c
    requires 2 <= |files| <= 256 && CacheAgrees(location, files) && t.store.files[c].alloc <= t.store.files[n].alloc
    requires j == Bottom(t.store) + IndexIn(t.chain, n) && k == Bottom(t.store) + IndexIn(DropFrom(t.chain, n), c)
    requires Shifted(files, location, j, mid, table) && 2 <= |mid| && CacheAgrees(table, mid)
    ensures CacheAgrees(table, Refreshed(mid, k, t.store.files[n]))
  {
    hide Open, CacheAgrees, OnlyChild, IndexIn, DropFrom;
    OpenFacts(t, files);
    ReplacedIndex(t, files, n, c, j, mid, k);
    if j < |files| {
      ChildOnChain(t, files, n, c, IndexIn(t.chain, n), j, j + 1);
      ReplacedAgrees(location, table, files, mid, j, j + 1);
    }
  }

  lemma {:induction false} ReplacedIndex(t: Tree, files: seq<Layer>, n: Name, c: Name, j: nat, mid: seq<Layer>, k: nat)
    requires Open(t, files) && OnlyChild(t.store.disks, n, c) && n != t.head && n != c
    requires j == Bottom(t.store) + IndexIn(t.chain, n) && k == Bottom(t.store) + IndexIn(DropFrom(t.chain, n), c)
    requires mid == DropAt(files, j)
    ensures if j < |files| then k == j < |mid| else |mid| <= k && mid == files
  {
    ChildIndex(t.store.disks, t.chain, n, c);
  }

  /** Disk `n` was taken out: a leaf is dropped, and an only child takes over the parent. */
  ghost predicate TakenOut(t: Tree, n: Name, child: Option<Name>, u: Tree) {
    && n in t.store.disks && n != t.head && t.head in t.store.disks
    && match child
       case None => Kids(t.store.disks, n) == {} && u == RemoveLeaf(t, n)
       case Some(c) => OnlyChild(t.store.disks, n, c) && n != c && u == RemoveInner(t, n, c)
  }

  /** Linking a disk to another's file and taking the other out replaces it, if the two are child and parent. */
  lemma {:induction false} RelinkedRemoved(t: Tree, target: Name, source: Name, child: Option<Name>, u: Tree)
    requires Wf(t) && target in t.store.disks && source in t.store.disks && source != target && source != t.head
    requires var w := t.(store := t.store.(files := t.store.files[target := t.store.files[source]]));
             if child.None? then Kids(t.store.disks, source) == {} && u == RemoveLeaf(w, source)
             else
               && OnlyChild(t.store.disks, source, child.value) && source != child.value
               && u == RemoveInner(w, source, child.value)
    ensures target in u.store.files
    ensures TakenOut(SetFile(t, target, t.store.files[source]), source, child, u)
    ensures OnlyChild(t.store.disks, source, target) ==> child == Some(target) && u == ReplaceDisk(t, target, source)
  {
    hide TreeOk, ChildrenOk, ChainOk;
    if OnlyChild(t.store.disks, source, target) {
      assert target in Kids(t.store.disks, source);
    }
  }

  lemma {:induction false} ReplaceEnabled(t: Tree, n: Name, c: Name)
    requires Wf(t) && Enabled(t, Replace(n, c))
    ensures OnlyChild(t.store.disks, n, c) && n != c
  {
    assert ParentOk(t.store.disks, n);
  }

  lemma {:induction false} ReplacedFacts(t: Tree, n: Name, c: Name, u: Tree)
    requires Wf(t) && Enabled(t, Replace(n, c)) && n != c && u == ReplaceDisk(t, c, n)
    ensures Taken(t, Replace(n, c), u) && OnlyChild(t.store.disks, n, c) && n != t.head
    ensures t.store.files[c].alloc <= t.store.files[n].alloc
    ensures u.chain == DropFrom(t.chain, n) && u.head == t.head && u.size == t.size
    ensures c in u.store.files && u.store.files[c] == t.store.files[n]
    ensures t.head in u.store.files && u.store.files[t.head] == t.store.files[t.head]
  {
    hide TreeOk, ChildrenOk, ChainOk;
  }

  /** Replacing a folded disk by its only child leaves an open stack and a table that agrees with it. */
  lemma {:induction false} ReplacedOpen(t: Tree, files: seq<Layer>, location: seq<byte>, n: Name, c: Name,
                                        j: nat, u: Tree, mid: seq<Layer>, table: seq<byte>, k: nat)
    requires Open(t, files) && Enabled(t, Replace(n, c)) && n != c
    requires 2 <= |files| <= 256 && CacheAgrees(location, files)
    requires j == Bottom(t.store) + IndexIn(t.chain, n) && k == Bottom(t.store) + IndexIn(u.chain, c)
    requires u == ReplaceDisk(t, c, n)
    requires Shifted(files, location, j, mid, table) && 2 <= |mid| && CacheAgrees(table, mid)
    ensures Taken(t, Replace(n, c), u) && c in u.store.files && u.head == t.head && u.size == t.size
    ensures var now := Refreshed(mid, k, u.store.files[c]);
            Open(u, now) && CacheAgrees(table, now) && now[|now| - 1] == files[|files| - 1]
  {
    hide Wf, Enabled, Taken, OnlyChild, StackOf, IndexIn, DropFrom, ReplaceDisk, CacheAgrees;
    ReplacedFacts(t, n, c, u);
    ReplacedStack(t, files, n, c, j, mid, k);
    ReplacedTable(t, files, location, n, c, j, mid, table, k);
    OpenTop(t, files);
    OpenTop(u, Refreshed(mid, k, u.store.files[c]));
  }

  // ---------------------------------------------------------------- plans of a purge

  datatype Action =
    | OpRemove(source: Name)
    | OpCoalesce(source: Name, target: Name)
    | OpReplace(source: Name, target: Name)
    | OpPrune(source: Name, target: Name)

  /** A plan fits the disk: a leaf goes, an inner disk is folded and replaced, the head's parent is pruned. */
  ghost predicate Planned(t: Tree, name: Name, actions: seq<Action>)
    requires Wf(t)
  {
    && actions != [] && actions[0].source == name && name in t.store.disks && name != t.head &&
        t.store.disks[name].removed
    && match actions[0] {
         case OpRemove(_) => actions == [OpRemove(name)] && Enabled(t, DropLeaf(name))
         case OpPrune(_, c) => actions == [OpPrune(name, c)] && c == t.head && Purging(t, name, c)
         case OpCoalesce(_, c) => actions == [OpCoalesce(name, c), OpReplace(name, c)] && c != t.head && c != name &&
             Purging(t, name, c)
         case OpReplace(_, _) => false
       }
  }

  lemma {:induction false} LeafTaken(t: Tree, n: Name, child: Option<Name>, u: Tree)
    requires Wf(t) && Enabled(t, DropLeaf(n))
    requires child.None? ==> u == RemoveLeaf(t, n)
    requires child.Some? ==> OnlyChild(t.store.disks, n, child.value)
    ensures Taken(t, DropLeaf(n), u) && n !in u.store.disks
  {
    assert forall c :: OnlyChild(t.store.disks, n, c) ==> c in Kids(t.store.disks, n);
  }

  lemma {:induction false} PurgingFacts(t: Tree, n: Name, c: Name)
    requires Wf(t) && Purging(t, n, c)
    ensures |Kids(t.store.disks, n)| == 1 && n in t.store.disks && c in t.store.disks && n != c
  {
    assert ParentOk(t.store.disks, n);
    assert Kids(t.store.disks, n) == {c};
  }

  lemma {:induction false} ReplaceTaken(t: Tree, n: Name, c: Name, u: Tree)
    requires Taken(t, Replace(n, c), u)
    ensures n !in u.store.disks
  {
    ReplaceEnabled(t, n, c);
  }

  lemma {:induction false} RevertFacts(t: Tree, n: Name)
    requires Wf(t) && n.SnapDisk? && n in t.store.disks
    ensures n != t.head && t.head.HeadDisk? && t.head in t.store.disks
    ensures var st := RevertStore(t.store, t.head, NextHead(t.head), n, t.size);
            Sound(st) && HeadOk(st.disks, NextHead(t.head))
    ensures var st := RevertStore(t.store, t.head, NextHead(t.head), n, t.size);
            RevertDisk(t, n) == Tree(st, ChildMap(st.disks), PathTo(st.disks, NextHead(t.head)), NextHead(t.head), n,
                t.size)
    ensures !t.store.disks[n].removed ==> Taken(t, Revert(n), RevertDisk(t, n))
  {
    hide ChildrenOk, ChainOk, PathTo, ChildMap;
    RevertSound(t.store, t.head, NextHead(t.head), n, t.size);
  }

  lemma {:induction false} UnlinkFacts(t: Tree, n: Name, c: Name)
    requires Wf(t) && OnlyChild(t.store.disks, n, c) && n != t.head
    ensures n != c && n in t.store.disks && c in t.store.disks && !n.BackingDisk? && !n.NoDisk? &&
            t.head in t.store.disks
    ensures n in t.store.files && |t.chain| > 0 && t.chain[|t.chain| - 1] == t.head
  {
    UnlinkOk(t.store.disks, n, c);
  }

  lemma {:induction false} UnlinkHas(disks: map<Name, Disk>, n: Name, c: Name, head: Name)
    requires n in disks && c in disks && n != c && head in disks && head != n
    ensures head in Unlink(disks, n, c)
  {
  }

  lemma {:induction false} NoSteps(t: Tree) returns (steps: seq<Step>)
    ensures PurgeRun(t, steps, t)
  {
    steps := [];
  }
}
