/**
 The snapshot tree of a replica: disks, child map, live chain and head, and the
 metadata edits of pkg/replica/replica.go (createDisk, removeDiskNode, ReplaceDisk,
 revertDisk and the child and parent helpers).
 */
module SnapshotTrees {
  import opened Sectors
  import opened Layers
  import opened SnapshotStores

  /** `chain` is the live chain, root first; the active list is the chain behind its lead entries. */
  datatype Tree = Tree(
    store: Store,
    children: map<Name, set<Name>>,
    chain: seq<Name>,
    head: Name,
    parent: Name,
    size: nat)

  const MAX_SNAPSHOT_COUNT: nat := 250

  // ---------------------------------------------------------------- the child map

  function Kids(disks: map<Name, Disk>, p: Name): set<Name> {
    set n | n in disks && disks[n].parent == p
  }

  function ChildSet(children: map<Name, set<Name>>, p: Name): set<Name> {
    if p in children then children[p] else {}
  }

  ghost predicate NoEmptySet(children: map<Name, set<Name>>) {
    forall p :: p in children ==> children[p] != {}
  }

  function AddChild(children: map<Name, set<Name>>, p: Name, c: Name): (r: map<Name, set<Name>>)
    ensures NoEmptySet(children) ==> NoEmptySet(r)
    ensures forall q :: ChildSet(r, q) == if q == p then ChildSet(children, p) + {c} else ChildSet(children, q)
  {
    children[p := ChildSet(children, p) + {c}]
  }

  function RmChild(children: map<Name, set<Name>>, p: Name, c: Name): (r: map<Name, set<Name>>)
    ensures NoEmptySet(children) ==> NoEmptySet(r)
    ensures forall q :: ChildSet(r, q) == if q == p then ChildSet(children, p) - {c} else ChildSet(children, q)
  {
    if c !in ChildSet(children, p) then children
    else if children[p] - {c} == {} then children - {p}
    else children[p := children[p] - {c}]
  }

  /** The child map is the inverse of the parent links, and holds no empty set. */
  ghost predicate ChildrenOk(disks: map<Name, Disk>, children: map<Name, set<Name>>) {
    && NoEmptySet(children)
    && forall p :: p != NoDisk ==> ChildSet(children, p) == Kids(disks, p)
  }

  // ---------------------------------------------------------------- the invariant

  /** There is one head disk, and it is nobody's parent. */
  ghost predicate HeadOk(disks: map<Name, Disk>, head: Name) {
    && head in disks && head.HeadDisk?
    && forall n :: n in disks ==> disks[n].parent != head && (n.HeadDisk? ==> n == head)
  }

  /** The chain is the path from a root to the head. */
  ghost predicate ChainOk(disks: map<Name, Disk>, chain: seq<Name>, head: Name) {
    Path(disks, chain) && chain[|chain| - 1] == head
  }

  ghost predicate Wf(t: Tree) {
    && Sound(t.store)
    && HeadOk(t.store.disks, t.head)
    && ChildrenOk(t.store.disks, t.children)
    && ChainOk(t.store.disks, t.chain, t.head)
    && t.parent == t.store.disks[t.head].parent
  }

  /** The name of the next head: the last digit of the old index plus one. */
  function NextHead(head: Name): (n: Name)
    requires head.HeadDisk?
    ensures n.HeadDisk? && n != head
  {
    HeadDisk(head.index % 10 + 1)
  }

  /** Head numbers count up to ten and then start again from one, whatever a number's leading digits are. */
  lemma {:induction false} HeadNumbers(tens: nat, digit: nat)
    requires digit < 10
    ensures NextHead(HeadDisk(10 * tens + digit)) == HeadDisk(digit + 1)
  {
    assert (10 * tens + digit) % 10 == digit;
  }

  /** Only disks have children. */
  lemma {:induction false} NoKids(disks: map<Name, Disk>, p: Name)
    requires TreeOk(disks) && p !in disks && p != NoDisk
    ensures Kids(disks, p) == {}
  {
    forall n | n in disks
      ensures disks[n].parent != p
    {
      assert ParentOk(disks, n);
    }
  }

  /** Every disk of the live chain but the head has its successor as a child. */
  lemma {:induction false} ChainChild(disks: map<Name, Disk>, chain: seq<Name>, head: Name, i: nat, j: nat)
    requires HeadOk(disks, head) && ChainOk(disks, chain, head) && j == i + 1 && j < |chain|
    ensures chain[i] in disks && chain[i] != head
    ensures chain[j] in Kids(disks, chain[i])
  {
    assert Linked(disks, chain, i);
  }

  // ---------------------------------------------------------------- snapshots

  function CreateDisks(disks: map<Name, Disk>, head: Name, snap: Name, next: Name): map<Name, Disk>
    requires head in disks
  {
    (disks - {head})[snap := disks[head]][next := Disk(snap, false, disks[head].rank + 1)]
  }

  function CreateFiles(files: map<Name, Layer>, head: Name, snap: Name, next: Name, size: nat): map<Name, Layer>
    requires head in files
  {
    (files - {head})[snap := files[head]][next := Layer(Zeros(size), {})]
  }

  function CreateChildren(children: map<Name, set<Name>>, p: Name, head: Name, snap: Name,
                          next: Name): map<Name, set<Name>> {
    AddChild(RmChild(AddChild(children, snap, next), p, head), p, snap)
  }

  /** A snapshot: the head becomes `snap`, and a new empty head of `size` bytes goes on top. */
  function CreateDisk(t: Tree, snap: Name, size: nat): Tree
    requires t.head.HeadDisk? && t.head in t.store.disks && t.head in t.store.files && t.chain != []
  {
    var next := NextHead(t.head);
    Tree(t.store.(disks := CreateDisks(t.store.disks, t.head, snap, next),
                  files := CreateFiles(t.store.files, t.head, snap, next, size)),
         CreateChildren(t.children, t.store.disks[t.head].parent, t.head, snap, next),
         t.chain[..|t.chain| - 1] + [snap, next], next, snap, size)
  }

  lemma {:induction false} CreateTreeOk(disks: map<Name, Disk>, head: Name, snap: Name, next: Name)
    requires TreeOk(disks) && HeadOk(disks, head)
    requires snap.SnapDisk? && snap !in disks && next.HeadDisk? && next != head
    ensures TreeOk(CreateDisks(disks, head, snap, next))
    ensures HeadOk(CreateDisks(disks, head, snap, next), next)
  {
    var r := CreateDisks(disks, head, snap, next);
    assert ParentOk(disks, head);
    forall n | n in r
      ensures ParentOk(r, n) && r[n].parent != next && (n.HeadDisk? ==> n == next)
    {
      if n in disks {
        assert ParentOk(disks, n);
      }
    }
  }

  lemma {:induction false} CreateKids(disks: map<Name, Disk>, head: Name, snap: Name, next: Name, p: Name)
    requires TreeOk(disks) && HeadOk(disks, head)
    requires snap.SnapDisk? && snap !in disks && next.HeadDisk? && next != head
    ensures Kids(CreateDisks(disks, head, snap, next), p) ==
            if p == snap then {next}
            else if p == disks[head].parent then Kids(disks, p) - {head} + {snap}
            else Kids(disks, p)
  {
    assert ParentOk(disks, head);
    NoKids(disks, snap);
    var r := CreateDisks(disks, head, snap, next);
    forall n
      ensures n in Kids(r, p) <==> if n == next then p == snap else if n == snap then p == disks[head].parent
                                   else n != head && n in Kids(disks, p)
    {
    }
    if p == snap {
      assert Kids(disks, p) == {};
    }
  }

  lemma {:induction false} CreateChildrenOk(disks: map<Name, Disk>, children: map<Name, set<Name>>, head: Name,
                                            snap: Name, next: Name)
    requires TreeOk(disks) && HeadOk(disks, head) && ChildrenOk(disks, children)
    requires snap.SnapDisk? && snap !in disks && next.HeadDisk? && next != head
    ensures ChildrenOk(CreateDisks(disks, head, snap, next),
              CreateChildren(children, disks[head].parent, head, snap, next))
  {
    var r := CreateDisks(disks, head, snap, next);
    var ch := CreateChildren(children, disks[head].parent, head, snap, next);
    assert ParentOk(disks, head);
    NoKids(disks, snap);
    forall p | p != NoDisk
      ensures ChildSet(ch, p) == Kids(r, p)
    {
      CreateKids(disks, head, snap, next, p);
      assert ChildSet(children, p) == Kids(disks, p);
    }
  }

  lemma {:induction false} CreateChainOk(disks: map<Name, Disk>, chain: seq<Name>, head: Name, snap: Name, next: Name)
    requires HeadOk(disks, head) && ChainOk(disks, chain, head)
    requires snap.SnapDisk? && snap !in disks && next.HeadDisk? && next != head
    ensures ChainOk(CreateDisks(disks, head, snap, next), chain[..|chain| - 1] + [snap, next], next)
  {
    var r := CreateDisks(disks, head, snap, next);
    var ch := chain[..|chain| - 1] + [snap, next];
    var last := |chain| - 1;
    forall i | 0 <= i < last
      ensures chain[i] in r && r[chain[i]] == disks[chain[i]]
    {
      ChainChild(disks, chain, head, i, i + 1);
    }
    forall i | 0 <= i < |ch| - 1
      ensures Linked(r, ch, i)
    {
      if i < last {
        assert Linked(disks, chain, i);
      }
    }
  }

  lemma {:induction false} CreateWf(t: Tree, snap: Name, size: nat)
    requires Wf(t) && snap.SnapDisk? && snap !in t.store.disks
    ensures Wf(CreateDisk(t, snap, size))
  {
    var r := CreateDisk(t, snap, size);
    CreateTreeOk(t.store.disks, t.head, snap, r.head);
    CreateChildrenOk(t.store.disks, t.children, t.head, snap, r.head);
    CreateChainOk(t.store.disks, t.chain, t.head, snap, r.head);
    assert r.store.files.Keys == r.store.disks.Keys;
  }

  // ---------------------------------------------------------------- taking a disk out

  /** A disk without children is dropped. */
  function RemoveLeaf(t: Tree, n: Name): Tree
    requires n in t.store.disks
  {
    t.(store := t.store.(disks := t.store.disks - {n}, files := t.store.files - {n}),
       children := RmChild(t.children, t.store.disks[n].parent, n))
  }

  lemma {:induction false} LeafDisksOk(disks: map<Name, Disk>, children: map<Name, set<Name>>, head: Name, n: Name)
    requires TreeOk(disks) && HeadOk(disks, head) && ChildrenOk(disks, children)
    requires n in disks && n != head && Kids(disks, n) == {}
    ensures TreeOk(disks - {n}) && HeadOk(disks - {n}, head)
    ensures ChildrenOk(disks - {n}, RmChild(children, disks[n].parent, n))
  {
    var r := disks - {n};
    forall m | m in r
      ensures ParentOk(r, m)
    {
      assert ParentOk(disks, m);
      assert m !in Kids(disks, n);
    }
    var ch := RmChild(children, disks[n].parent, n);
    forall p | p != NoDisk
      ensures ChildSet(ch, p) == Kids(r, p)
    {
      assert ChildSet(children, p) == Kids(disks, p);
      assert Kids(r, p) == Kids(disks, p) - {n};
    }
  }

  /** A path stays a path if none of its disks changes. */
  lemma {:induction false} PathSame(disks: map<Name, Disk>, r: map<Name, Disk>, path: seq<Name>)
    requires Path(disks, path) && forall k :: 0 <= k < |path| ==>
               path[k] in r && r[path[k]].parent == disks[path[k]].parent
    ensures Path(r, path)
  {
    forall i | 0 <= i < |path| - 1
      ensures Linked(r, path, i)
    {
      assert Linked(disks, path, i);
    }
  }

  lemma {:induction false} LeafChainOk(disks: map<Name, Disk>, chain: seq<Name>, head: Name, n: Name)
    requires HeadOk(disks, head) && ChainOk(disks, chain, head)
    requires n in disks && n != head && Kids(disks, n) == {}
    ensures n !in chain && ChainOk(disks - {n}, chain, head)
  {
    forall i | 0 <= i < |chain|
      ensures chain[i] != n
    {
      if i + 1 < |chain| {
        ChainChild(disks, chain, head, i, i + 1);
      }
    }
    PathSame(disks, disks - {n}, chain);
  }

  lemma {:induction false} RemoveLeafWf(t: Tree, n: Name)
    requires Wf(t) && n in t.store.disks && n != t.head && Kids(t.store.disks, n) == {}
    ensures Wf(RemoveLeaf(t, n))
  {
    LeafDisksOk(t.store.disks, t.children, t.head, n);
    LeafChainOk(t.store.disks, t.chain, t.head, n);
    assert RemoveLeaf(t, n).store.files.Keys == t.store.disks.Keys - {n};
  }

  /** The index of `n` in the chain, or the chain's length. */
  ghost function IndexIn(chain: seq<Name>, n: Name): (i: nat)
    ensures i <= |chain| && (i < |chain| ==> chain[i] == n)
    ensures forall k :: 0 <= k < i ==> chain[k] != n
  {
    if n !in chain then |chain|
    else
      FirstIndex(chain, n, |chain|);
      var i: nat :| i < |chain| && chain[i] == n && forall k :: 0 <= k < i ==> chain[k] != n; i
  }

  lemma {:induction false} FirstIndex(chain: seq<Name>, n: Name, upto: nat)
    requires upto <= |chain| && n in chain[..upto]
    ensures exists i :: 0 <= i < |chain| && chain[i] == n && forall k :: 0 <= k < i ==> chain[k] != n
    decreases upto
  {
    var last := upto - 1;
    if n in chain[..last] {
      FirstIndex(chain, n, last);
    } else {
      assert chain[last] == n;
    }
  }

  /** The chain without its entry `n`, if it has one. */
  ghost function DropFrom(chain: seq<Name>, n: Name): (r: seq<Name>)
  {
    var i := IndexIn(chain, n);
    if i < |chain| then chain[..i] + chain[i + 1..] else chain
  }

  function UnlinkChildren(children: map<Name, set<Name>>, p: Name, n: Name, c: Name): (r: map<Name, set<Name>>)
    ensures NoEmptySet(children) ==> NoEmptySet(r)
    ensures forall q :: ChildSet(r, q) == if q == n then {} else if q == p then ChildSet(children, p) - {n} + {c}
              else ChildSet(children, q)
  {
    AddChild(RmChild(children, p, n), p, c) - {n}
  }

  /** A disk with one child `c` is dropped: the child takes over its parent, and the live chain loses it. */
  ghost function RemoveInner(t: Tree, n: Name, c: Name): Tree
    requires n in t.store.disks && c in t.store.disks && n != c && t.head in t.store.disks && t.head != n
  {
    var disks := Unlink(t.store.disks, n, c);
    t.(store := t.store.(disks := disks, files := t.store.files - {n}),
       children := UnlinkChildren(t.children, t.store.disks[n].parent, n, c),
       chain := DropFrom(t.chain, n),
       parent := if IndexIn(t.chain, n) == |t.chain| - 2 then disks[t.head].parent else t.parent)
  }

  lemma {:induction false} UnlinkChildrenOk(disks: map<Name, Disk>, children: map<Name, set<Name>>, n: Name, c: Name)
    requires TreeOk(disks) && ChildrenOk(disks, children) && OnlyChild(disks, n, c)
    ensures n != c && ChildrenOk(Unlink(disks, n, c), UnlinkChildren(children, disks[n].parent, n, c))
  {
    UnlinkOk(disks, n, c);
    var r := Unlink(disks, n, c);
    var pp := disks[n].parent;
    assert ParentOk(disks, n);
    var ch := UnlinkChildren(children, pp, n, c);
    forall q | q != NoDisk
      ensures ChildSet(ch, q) == Kids(r, q)
    {
      assert ChildSet(children, q) == Kids(disks, q);
      forall m
        ensures m in Kids(r, q) <==> if m == c then q == pp else m != n && m in Kids(disks, q)
      {
      }
      if q == n {
        assert Kids(r, q) == {};
      } else if q == pp {
        assert Kids(r, q) == Kids(disks, q) - {n} + {c};
      } else {
        assert Kids(r, q) == Kids(disks, q);
      }
    }
  }

  /** Unlinking a disk of the chain drops it from the chain. */
  lemma {:induction false} UnlinkOnChain(st: Store, chain: seq<Name>, i: nat, j: nat, n: Name, c: Name)
    requires Sound(st) && Path(st.disks, chain) && OnlyChild(st.disks, n, c) && n != c
    requires j == i + 1 && j < |chain| && chain[i] == n
    ensures chain[j] == c
    ensures ChainOk(Unlink(st.disks, n, c), chain[..i] + chain[j..], chain[|chain| - 1])
  {
    var r := Unlink(st.disks, n, c);
    assert Linked(st.disks, chain, i);
    forall k | 0 <= k < |chain| && k != i && k != j
      ensures chain[k] in r && r[chain[k]] == st.disks[chain[k]]
    {
      if k < i {
        PathRanks(st.disks, chain, k, i);
        PathRanks(st.disks, chain, k, j);
      } else {
        PathRanks(st.disks, chain, i, k);
        PathRanks(st.disks, chain, j, k);
      }
    }
    var d := chain[..i] + chain[j..];
    assert forall k :: 0 <= k < |d| ==> d[k] == if k < i then chain[k] else chain[k + 1];
    forall k | 0 <= k < |d| - 1
      ensures Linked(r, d, k)
    {
      assert Linked(st.disks, chain, if k < i then k else k + 1);
    }
  }

  /** Unlinking a disk off the chain leaves the chain alone. */
  lemma {:induction false} UnlinkOffChain(st: Store, chain: seq<Name>, n: Name, c: Name)
    requires Sound(st) && Path(st.disks, chain) && OnlyChild(st.disks, n, c) && n != c
    requires n !in chain
    ensures Path(Unlink(st.disks, n, c), chain)
  {
    var r := Unlink(st.disks, n, c);
    forall k | 0 <= k < |chain|
      ensures chain[k] in r && r[chain[k]] == st.disks[chain[k]]
    {
      if k > 0 {
        assert Linked(st.disks, chain, k - 1);
      }
    }
    PathSame(st.disks, r, chain);
  }

  /** The head's parent is the second last of the chain. */
  lemma {:induction false} HeadParentIndex(st: Store, chain: seq<Name>, head: Name, n: Name)
    requires Sound(st) && ChainOk(st.disks, chain, head)
    requires n in st.disks && st.disks[head].parent == n
    ensures 2 <= |chain| && IndexIn(chain, n) == |chain| - 2
  {
    if 2 <= |chain| {
      var i, j, k := IndexIn(chain, n), |chain| - 2, |chain| - 1;
      assert Linked(st.disks, chain, j);
      if i < j {
        PathRanks(st.disks, chain, i, j);
      }
    }
  }

  /** After unlinking `n` the chain without it is the path to the head. */
  lemma {:induction false} UnlinkChainOk(st: Store, chain: seq<Name>, head: Name, n: Name, c: Name)
    requires Sound(st) && ChainOk(st.disks, chain, head)
    requires OnlyChild(st.disks, n, c) && n != head && n != c
    ensures ChainOk(Unlink(st.disks, n, c), DropFrom(chain, n), head)
  {
    var i := IndexIn(chain, n);
    if i < |chain| {
      var j := i + 1;
      UnlinkOnChain(st, chain, i, j, n, c);
    } else {
      UnlinkOffChain(st, chain, n, c);
    }
  }

  /** The recorded parent of the head is right after `n` was unlinked. */
  lemma {:induction false} UnlinkParentOk(st: Store, chain: seq<Name>, head: Name, n: Name, c: Name)
    requires Sound(st) && ChainOk(st.disks, chain, head)
    requires OnlyChild(st.disks, n, c) && n != head && n != c
    ensures IndexIn(chain, n) != |chain| - 2 ==> Unlink(st.disks, n, c)[head].parent == st.disks[head].parent
  {
    if c == head {
      HeadParentIndex(st, chain, head, n);
    }
  }

  lemma {:induction false} UnlinkHeadOk(disks: map<Name, Disk>, head: Name, n: Name, c: Name)
    requires HeadOk(disks, head) && n in disks && c in disks && n != head && n != c
    ensures HeadOk(Unlink(disks, n, c), head)
  {
    assert disks[n].parent != head;
  }

  lemma {:induction false} RemoveInnerWf(t: Tree, n: Name, c: Name)
    requires Wf(t) && OnlyChild(t.store.disks, n, c) && n != t.head
    ensures n != c && Wf(RemoveInner(t, n, c))
  {
    UnlinkOk(t.store.disks, n, c);
    UnlinkHeadOk(t.store.disks, t.head, n, c);
    UnlinkChildrenOk(t.store.disks, t.children, n, c);
    UnlinkChainOk(t.store, t.chain, t.head, n, c);
    UnlinkParentOk(t.store, t.chain, t.head, n, c);
    var r := RemoveInner(t, n, c);
    assert r.store.files.Keys == r.store.disks.Keys;
  }

  // ---------------------------------------------------------------- replacing a folded disk by its child

  /** Disk `target` takes over the file of `source`, which is then taken out. */
  ghost function ReplaceDisk(t: Tree, target: Name, source: Name): Tree
    requires source in t.store.disks && target in t.store.disks && source in t.store.files
    requires source != target && t.head in t.store.disks && t.head != source
  {
    RemoveInner(t.(store := t.store.(files := t.store.files[target := t.store.files[source]])), source, target)
  }

  lemma {:induction false} RelinkedWf(t: Tree, target: Name, source: Name)
    requires Wf(t) && target in t.store.disks && source in t.store.disks
    ensures Wf(t.(store := t.store.(files := t.store.files[target := t.store.files[source]])))
  {
    assert t.store.files[target := t.store.files[source]].Keys == t.store.files.Keys;
  }

  lemma {:induction false} RelinkedFiles(files: map<Name, Layer>, target: Name, source: Name)
    requires target in files && source in files && target != source
    ensures files[target := files[source]] - {source} == (files - {source})[target := files[source]]
  {
  }

  lemma {:induction false} ReplaceWf(t: Tree, target: Name, source: Name)
    requires Wf(t) && OnlyChild(t.store.disks, source, target) && source != t.head
    ensures source != target && Wf(ReplaceDisk(t, target, source))
    ensures ReplaceDisk(t, target, source).store == Inherit(t.store, source, target)
  {
    UnlinkOk(t.store.disks, source, target);
    RelinkedWf(t, target, source);
    RemoveInnerWf(t.(store := t.store.(files := t.store.files[target := t.store.files[source]])), source, target);
    RelinkedFiles(t.store.files, target, source);
  }

  // ---------------------------------------------------------------- reverting and marking

  /** The child map that reading the metadata files back yields. */
  function ChildMap(disks: map<Name, Disk>): map<Name, set<Name>> {
    map p | p in (set n | n in disks && disks[n].parent != NoDisk :: disks[n].parent) :: Kids(disks, p)
  }

  lemma {:induction false} ChildMapOk(disks: map<Name, Disk>)
    requires TreeOk(disks)
    ensures ChildrenOk(disks, ChildMap(disks))
  {
    var ch := ChildMap(disks);
    forall p | p != NoDisk
      ensures ChildSet(ch, p) == Kids(disks, p)
      ensures p in ch ==> ch[p] != {}
    {
      if n :| n in disks && disks[n].parent == p {
        assert n in Kids(disks, p) && disks[n].parent in ch;
      }
    }
  }

  function RevertStore(st: Store, head: Name, next: Name, n: Name, size: nat): Store
    requires n in st.disks
  {
    st.(disks := (st.disks - {head})[next := Disk(n, false, st.disks[n].rank + 1)],
        files := (st.files - {head})[next := Layer(Zeros(size), {})])
  }

  lemma {:induction false} RevertSound(st: Store, head: Name, next: Name, n: Name, size: nat)
    requires Sound(st) && HeadOk(st.disks, head)
    requires n in st.disks && n != head && next.HeadDisk? && next != head
    ensures Sound(RevertStore(st, head, next, n, size))
    ensures HeadOk(RevertStore(st, head, next, n, size).disks, next)
  {
    var r := RevertStore(st, head, next, n, size);
    assert r.files.Keys == r.disks.Keys;
    forall m | m in r.disks
      ensures ParentOk(r.disks, m) && r.disks[m].parent != next && (m.HeadDisk? ==> m == next)
    {
      if m in st.disks {
        assert ParentOk(st.disks, m);
      }
    }
  }

  /** A revert: the head is dropped, and a new empty head goes on top of snapshot `n`; the chain is read anew. */
  ghost function RevertDisk(t: Tree, n: Name): Tree
    requires Wf(t) && n in t.store.disks && n != t.head
  {
    var next := NextHead(t.head);
    RevertSound(t.store, t.head, next, n, t.size);
    var st := RevertStore(t.store, t.head, next, n, t.size);
    Tree(st, ChildMap(st.disks), PathTo(st.disks, next), next, n, t.size)
  }

  lemma {:induction false} RevertWf(t: Tree, n: Name)
    requires Wf(t) && n in t.store.disks && n != t.head
    ensures Wf(RevertDisk(t, n))
  {
    var next := NextHead(t.head);
    RevertSound(t.store, t.head, next, n, t.size);
    ChildMapOk(RevertStore(t.store, t.head, next, n, t.size).disks);
  }

  /** Marks a disk as removed. */
  function MarkDisk(t: Tree, n: Name): Tree
    requires n in t.store.disks
  {
    t.(store := t.store.(disks := t.store.disks[n := t.store.disks[n].(removed := true)]))
  }

  lemma {:induction false} MarkWf(t: Tree, n: Name)
    requires Wf(t) && n in t.store.disks && n != t.head
    ensures Wf(MarkDisk(t, n))
  {
    var r := MarkDisk(t, n);
    assert r.store.disks.Keys == t.store.disks.Keys;
    forall m | m in r.store.disks
      ensures ParentOk(r.store.disks, m)
    {
      assert ParentOk(t.store.disks, m);
    }
    PathSame(t.store.disks, r.store.disks, t.chain);
    forall p
      ensures Kids(r.store.disks, p) == Kids(t.store.disks, p)
    {
    }
  }
}
