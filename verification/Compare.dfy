/**
 Finding the windows in which a snapshot differs from an ancestor
 (CompareSnapshot in pkg/replica/replica.go), on a replica opened at the snapshot.
 */
module Compare {
  import opened Sectors
  import opened Layers
  import opened ReadSpec
  import opened Extents
  import opened DiffDisks
  import opened SnapshotStores
  import opened StackSpec

  datatype Window = Window(offset: nat, size: nat)

  datatype CompareError = NameRequired | BadBlockSize | SnapshotNotFound | ParentNotFound | ParentAbove

  datatype CompareResult = Windows(list: seq<Window>) | Refused(error: CompareError)

  /** A sector is changed if a layer above `to`, and not above `from`, is recorded as its owner. */
  predicate Changed(location: seq<byte>, to: nat, from: nat, s: nat)
    requires s < |location|
  {
    to < location[s] <= from
  }

  /** The start of the block around sector `s`. */
  function BlockStart(s: nat, ss: nat, blockSize: nat): (o: nat)
    requires 0 < blockSize
    ensures o <= Start(s, ss) < o + blockSize && Rem(o, blockSize) == 0
  {
    StartAligned(Sec(Start(s, ss), blockSize), blockSize);
    Start(s, ss) - Rem(Start(s, ss), blockSize)
  }

  lemma {:induction false} BlockMono(a: nat, b: nat, ss: nat, blockSize: nat)
    requires a <= b && 0 < blockSize
    ensures BlockStart(a, ss, blockSize) <= BlockStart(b, ss, blockSize)
  {
    StartMono(a, b, ss);
    SecMono(Start(a, ss), Start(b, ss), blockSize);
    StartMono(Sec(Start(a, ss), blockSize), Sec(Start(b, ss), blockSize), blockSize);
  }

  /**
   The windows for the first `n` sectors: whole aligned blocks in strictly increasing order, one around
   every changed sector, and none without a changed sector.
   */
  ghost predicate Lists(list: seq<Window>, location: seq<byte>, to: nat, from: nat, ss: nat, blockSize: nat, n: nat)
    requires n <= |location| && 0 < blockSize
  {
    && (forall i, j :: 0 <= i < j < |list| ==> list[i].offset < list[j].offset)
    && (forall i :: 0 <= i < |list| ==>
          list[i].size == blockSize && Justified(list[i], location, to, from, ss, blockSize, n))
    && (forall s :: 0 <= s < n && Changed(location, to, from, s) ==>
        Window(BlockStart(s, ss, blockSize), blockSize) in list)
  }

  /** A changed sector among the first `n` starts in the window. */
  ghost predicate Justified(w: Window, location: seq<byte>, to: nat, from: nat, ss: nat, blockSize: nat, n: nat)
    requires n <= |location| && 0 < blockSize
  {
    exists s :: 0 <= s < n && Changed(location, to, from, s) && w.offset == BlockStart(s, ss, blockSize)
  }

  lemma {:induction false} ListsNext(list: seq<Window>, location: seq<byte>, to: nat, from: nat, ss: nat,
                                     blockSize: nat, n: nat, last: int)
    requires n < |location| && 0 < blockSize && Lists(list, location, to, from, ss, blockSize, n)
    requires last == if list == [] then -1 else list[|list| - 1].offset
    ensures !Changed(location, to, from, n) || BlockStart(n, ss, blockSize) == last ==>
              Lists(list, location, to, from, ss, blockSize, n + 1)
    ensures Changed(location, to, from, n) && BlockStart(n, ss, blockSize) != last ==>
              Lists(list + [Window(BlockStart(n, ss, blockSize), blockSize)], location, to, from, ss, blockSize, n + 1)
  {
    hide Justified, BlockStart;
    var o := BlockStart(n, ss, blockSize);
    NewJustified(location, to, from, ss, blockSize, n);
    if Changed(location, to, from, n) && o != last {
      var now := list + [Window(o, blockSize)];
      forall i | 0 <= i < |list|
        ensures list[i].offset < o
      {
        LastIsMost(list, location, to, from, ss, blockSize, n, i);
      }
      forall i | 0 <= i < |list|
        ensures Justified(list[i], location, to, from, ss, blockSize, n + 1)
      {
        JustifiedMore(list[i], location, to, from, ss, blockSize, n);
      }
      forall s | 0 <= s < n + 1 && Changed(location, to, from, s)
        ensures Window(BlockStart(s, ss, blockSize), blockSize) in now
      {
        if s < n {
          assert Window(BlockStart(s, ss, blockSize), blockSize) in list;
        } else {
          assert now[|list|] == Window(o, blockSize);
        }
      }
    } else {
      forall i | 0 <= i < |list|
        ensures Justified(list[i], location, to, from, ss, blockSize, n + 1)
      {
        JustifiedMore(list[i], location, to, from, ss, blockSize, n);
      }
      if Changed(location, to, from, n) {
        assert list[|list| - 1] == Window(o, blockSize);
      }
    }
  }

  lemma {:induction false} NewJustified(location: seq<byte>, to: nat, from: nat, ss: nat, blockSize: nat, n: nat)
    requires n < |location| && 0 < blockSize
    ensures Changed(location, to, from, n) ==>
              Justified(Window(BlockStart(n, ss, blockSize), blockSize), location, to, from, ss, blockSize, n + 1)
  {
  }

  lemma {:induction false} JustifiedMore(w: Window, location: seq<byte>, to: nat, from: nat, ss: nat, blockSize: nat,
                                         n: nat)
    requires n < |location| && 0 < blockSize && Justified(w, location, to, from, ss, blockSize, n)
    ensures Justified(w, location, to, from, ss, blockSize, n + 1)
  {
  }

  /** No window so far starts above the block of the next sector. */
  lemma {:induction false} LastIsMost(list: seq<Window>, location: seq<byte>, to: nat, from: nat, ss: nat,
                                      blockSize: nat, n: nat, i: nat)
    requires n < |location| && 0 < blockSize && Lists(list, location, to, from, ss, blockSize, n) && i < |list|
    ensures list[i].offset <= list[|list| - 1].offset <= BlockStart(n, ss, blockSize)
  {
    var k := |list| - 1;
    assert Justified(list[k], location, to, from, ss, blockSize, n);
    var s :| 0 <= s < n && Changed(location, to, from, s) && list[k].offset == BlockStart(s, ss, blockSize);
    BlockMono(s, n, ss, blockSize);
  }

  /** Walks the table and emits one window per block that holds a changed sector. */
  method ChangedWindows(location: seq<byte>, to: nat, from: nat, ss: nat, blockSize: nat) returns (list: seq<Window>)
    requires 0 < blockSize
    ensures Lists(list, location, to, from, ss, blockSize, |location|)
  {
    hide Lists;
    list := [];
    var lastOffset: int := -1;
    NoWindows(location, to, from, ss, blockSize);
    for i := 0 to |location|
      invariant Lists(list, location, to, from, ss, blockSize, i)
      invariant lastOffset == if list == [] then -1 else list[|list| - 1].offset
    {
      ListsNext(list, location, to, from, ss, blockSize, i, lastOffset);
      if location[i] <= from && location[i] > to {
        var offset := Start(i, ss);
        offset := offset - Rem(offset, blockSize);
        if offset != lastOffset {
          list := list + [Window(offset, blockSize)];
          lastOffset := offset;
        }
      }
    }
  }

  lemma {:induction false} NoWindows(location: seq<byte>, to: nat, from: nat, ss: nat, blockSize: nat)
    requires 0 < blockSize
    ensures Lists([], location, to, from, ss, blockSize, 0)
  {
  }

  // ---------------------------------------------------------------- what a changed sector is

  /** The table as preloading left it, on a replica opened at its last layer. */
  ghost predicate PreloadedTable(layers: seq<Layer>, first: nat, location: seq<byte>) {
    && 2 <= |layers| <= 256 && 1 <= first <= 2
    && forall s :: 0 <= s < |location| ==> location[s] == Preloaded(layers, first, |layers|, NIL_FILE_INDEX, s)
  }

  /** A probed layer above `to` and not above `from` holds the sector, and no layer above `from` does. */
  ghost predicate HeldBetween(layers: seq<Layer>, first: nat, to: nat, from: nat, s: nat)
    requires from < |layers|
  {
    && (exists i :: first <= i <= from && to < i && s in layers[i].alloc)
    && (forall j :: from < j < |layers| ==> s !in layers[j].alloc)
  }

  /** The table entries between `to` and `from` are exactly those of the sectors that the layers between them hold. */
  lemma {:induction false} ChangedIff(layers: seq<Layer>, first: nat, location: seq<byte>, to: nat, from: nat, s: nat)
    requires PreloadedTable(layers, first, location) && s < |location| && from < |layers|
    ensures Changed(location, to, from, s) <==> HeldBetween(layers, first, to, from, s)
  {
    var e := Preloaded(layers, first, |layers|, NIL_FILE_INDEX, s);
    assert location[s] == e;
    if to < e <= from {
      assert s in layers[e].alloc;
    } else if exists i :: first <= i <= from && to < i && s in layers[i].alloc {
      var i :| first <= i <= from && to < i && s in layers[i].alloc;
      assert i <= e && s in layers[e].alloc;
    }
  }

  /**
   The windows on the layers themselves: aligned blocks in strictly increasing order, exactly those with a sector that
   the layers between the two snapshots hold.
   */
  ghost predicate BlocksHeld(list: seq<Window>, layers: seq<Layer>, first: nat, to: nat, from: nat, ss: nat,
                             blockSize: nat, sectors: nat)
    requires from < |layers| && 0 < blockSize
  {
    && (forall i, j :: 0 <= i < j < |list| ==> list[i].offset < list[j].offset)
    && (forall w :: w in list <==> w.size == blockSize && HoldsChange(w, layers, first, to, from, ss, sectors))
  }

  /** The window is an aligned block in which such a sector starts. */
  ghost predicate HoldsChange(w: Window, layers: seq<Layer>, first: nat, to: nat, from: nat, ss: nat, sectors: nat)
    requires from < |layers|
  {
    && 0 < w.size && Rem(w.offset, w.size) == 0
    && exists s :: 0 <= s < sectors && HeldBetween(layers, first, to, from, s) &&
                   w.offset <= Start(s, ss) < w.offset + w.size
  }

  /** An aligned block in which a sector starts is the block of that sector. */
  lemma {:induction false} BlockOf(o: nat, s: nat, ss: nat, blockSize: nat)
    requires 0 < blockSize && Rem(o, blockSize) == 0 && o <= Start(s, ss) < o + blockSize
    ensures o == BlockStart(s, ss, blockSize)
  {
    SecAt(Start(s, ss), Sec(o, blockSize), blockSize);
  }

  lemma {:induction false} ListsBlocks(list: seq<Window>, layers: seq<Layer>, first: nat, location: seq<byte>, to: nat,
                                       from: nat, ss: nat, blockSize: nat)
    requires 0 < blockSize && PreloadedTable(layers, first, location) && from < |layers|
    requires Lists(list, location, to, from, ss, blockSize, |location|)
    ensures BlocksHeld(list, layers, first, to, from, ss, blockSize, |location|)
  {
    hide HeldBetween, PreloadedTable, Changed, BlockStart;
    forall w: Window
      ensures w in list <==> w.size == blockSize && HoldsChange(w, layers, first, to, from, ss, |location|)
    {
      if w in list {
        ListedHolds(list, layers, first, location, to, from, ss, blockSize, w);
      }
      if w.size == blockSize && HoldsChange(w, layers, first, to, from, ss, |location|) {
        var s :| 0 <= s < |location| && HeldBetween(layers, first, to, from, s) &&
          w.offset <= Start(s, ss) < w.offset + w.size;
        ChangedIff(layers, first, location, to, from, s);
        BlockOf(w.offset, s, ss, blockSize);
        assert Window(BlockStart(s, ss, blockSize), blockSize) in list;
      }
    }
  }

  lemma {:induction false} ListedHolds(list: seq<Window>, layers: seq<Layer>, first: nat, location: seq<byte>, to: nat,
                                       from: nat, ss: nat, blockSize: nat, w: Window)
    requires 0 < blockSize && PreloadedTable(layers, first, location) && from < |layers|
    requires Lists(list, location, to, from, ss, blockSize, |location|) && w in list
    ensures w.size == blockSize && HoldsChange(w, layers, first, to, from, ss, |location|)
  {
    hide HeldBetween, PreloadedTable, Changed;
    var k :| 0 <= k < |list| && list[k] == w;
    assert Justified(list[k], location, to, from, ss, blockSize, |location|);
    var s :| 0 <= s < |location| && Changed(location, to, from, s) && w.offset == BlockStart(s, ss, blockSize);
    ChangedIff(layers, first, location, to, from, s);
  }

  /** There are no windows exactly if the layers above the ancestor hold no sector, as in a comparison with itself. */
  lemma {:induction false} NothingChanged(list: seq<Window>, layers: seq<Layer>, first: nat, to: nat, from: nat,
                                          ss: nat, blockSize: nat, sectors: nat)
    requires from < |layers| && 0 < blockSize && BlocksHeld(list, layers, first, to, from, ss, blockSize, sectors)
    ensures list == [] <==> forall s :: 0 <= s < sectors ==> !HeldBetween(layers, first, to, from, s)
    ensures to == from ==> list == []
  {
    if list == [] {
      forall s | 0 <= s < sectors
        ensures !HeldBetween(layers, first, to, from, s)
      {
        var w := Window(BlockStart(s, ss, blockSize), blockSize);
        assert w !in list;
      }
    } else {
      assert list[0] in list && HoldsChange(list[0], layers, first, to, from, ss, sectors);
    }
  }

  // ---------------------------------------------------------------- no change is missed

  /** Where the snapshot and its ancestor show different bytes, the sector is changed. */
  lemma {:induction false} DifferenceIsChange(layers: seq<Layer>, first: nat, location: seq<byte>, to: nat, from: nat,
                                              ss: nat, o: nat)
    requires PreloadedTable(layers, first, location) && 0 < ss && Sec(o, ss) < |location|
    requires 1 <= to <= from == |layers| - 1
    requires ViewByte(layers, from, ss, o) != ViewByte(layers, to, ss, o)
    ensures Changed(location, to, from, Sec(o, ss))
  {
    var s := Sec(o, ss);
    if forall i :: to < i <= from ==> s !in layers[i].alloc {
      OwnerIs(layers, from, s, Owner(layers, to, s));
    } else {
      var i :| to < i <= from && s in layers[i].alloc;
      assert i <= Preloaded(layers, first, |layers|, NIL_FILE_INDEX, s);
    }
  }

  /** Holes of a layer read as zeros. */
  ghost predicate HolesZero(l: Layer, ss: nat)
    requires 0 < ss
  {
    forall o: nat :: Sec(o, ss) !in l.alloc ==> FileByte(l, o) == 0
  }

  /** Against the empty volume, every nonzero byte is in a changed sector, if there is no backing file. */
  lemma {:induction false} NonzeroIsChange(layers: seq<Layer>, location: seq<byte>, from: nat, ss: nat, o: nat)
    requires PreloadedTable(layers, 1, location) && 0 < ss && Sec(o, ss) < |location| && from == |layers| - 1
    requires HolesZero(layers[1], ss) && ViewByte(layers, from, ss, o) != 0
    ensures Changed(location, 0, from, Sec(o, ss))
  {
    var s := Sec(o, ss);
    var i := Owner(layers, from, s);
    assert s in layers[i].alloc;
    assert i <= Preloaded(layers, 1, |layers|, NIL_FILE_INDEX, s);
  }

  /** The block around a changed sector holds the whole sector, if blocks are whole numbers of sectors. */
  lemma {:induction false} BlockHoldsSector(s: nat, ss: nat, blockSize: nat)
    requires 0 < ss && 0 < blockSize && Rem(blockSize, ss) == 0
    ensures Start(s, ss) + ss <= BlockStart(s, ss, blockSize) + blockSize
  {
    var q := Sec(Start(s, ss), blockSize);
    MultipleAligned(q, ss, blockSize);
    var end := BlockStart(s, ss, blockSize) + blockSize;
    AlignedAdd(BlockStart(s, ss, blockSize), blockSize, ss);
    StartAligned(s, ss);
    SectorFits(Start(s, ss), Sec(end, ss), ss);
  }

  lemma {:induction false} MultipleAligned(q: nat, ss: nat, blockSize: nat)
    requires 0 < ss && 0 < blockSize && Rem(blockSize, ss) == 0
    ensures Rem(Start(q, blockSize), ss) == 0
    decreases q
  {
    StartAligned(0, ss);
    if q > 0 {
      MultipleAligned(q - 1, ss, blockSize);
      AlignedAdd(Start(q - 1, blockSize), blockSize, ss);
    }
  }

  ghost predicate InWindow(list: seq<Window>, o: nat) {
    exists i :: 0 <= i < |list| && list[i].offset <= o < list[i].offset + list[i].size
  }

  /** Every byte of a changed sector lies in a window. */
  lemma {:induction false} ChangeInWindow(list: seq<Window>, location: seq<byte>, to: nat, from: nat, ss: nat,
                                          blockSize: nat, o: nat)
    requires 0 < ss && 0 < blockSize && Rem(blockSize, ss) == 0
    requires Lists(list, location, to, from, ss, blockSize, |location|)
    requires Sec(o, ss) < |location| && Changed(location, to, from, Sec(o, ss))
    ensures InWindow(list, o)
  {
    var s := Sec(o, ss);
    BlockHoldsSector(s, ss, blockSize);
    var w := Window(BlockStart(s, ss, blockSize), blockSize);
    assert w in list;
    var i :| 0 <= i < |list| && list[i] == w;
  }

  /**
   On a replica opened at a snapshot, every byte in which the snapshot and its ancestor `path[i]` differ
   lies in a window.
   */
  lemma {:induction false} CompareMissesNothing(st: Store, path: seq<Name>, layers: seq<Layer>, location: seq<byte>,
                                                i: nat, to: nat, from: nat, blockSize: nat, list: seq<Window>, o: nat)
    requires Sound(st) && Path(st.disks, path) && layers == StackOf(st, path) && i < |path|
    requires to == i + Bottom(st) && from == |layers| - 1
    requires PreloadedTable(layers, Bottom(st), location)
    requires 0 < blockSize && Rem(blockSize, st.ss) == 0 &&
             Lists(list, location, to, from, st.ss, blockSize, |location|)
    requires Sec(o, st.ss) < |location| && Content(st, path[|path| - 1], o) != Content(st, path[i], o)
    ensures InWindow(list, o)
  {
    StackShowsContent(st, path, layers, |path| - 1, from, o);
    StackShowsContent(st, path, layers, i, to, o);
    DifferenceIsChange(layers, Bottom(st), location, to, from, st.ss, o);
    ChangeInWindow(list, location, to, from, st.ss, blockSize, o);
  }

  /** Compared with nothing, every nonzero byte of a snapshot without backing file lies in a window. */
  lemma {:induction false} CompareWithNothing(st: Store, path: seq<Name>, layers: seq<Layer>, location: seq<byte>,
                                              from: nat, blockSize: nat, list: seq<Window>, o: nat)
    requires Sound(st) && Path(st.disks, path) && layers == StackOf(st, path) && from == |layers| - 1
    requires st.backing.None? && HolesZero(layers[1], st.ss)
    requires PreloadedTable(layers, 1, location)
    requires 0 < blockSize && Rem(blockSize, st.ss) == 0 && Lists(list, location, 0, from, st.ss, blockSize, |location|)
    requires Sec(o, st.ss) < |location| && Content(st, path[|path| - 1], o) != 0
    ensures InWindow(list, o)
  {
    StackShowsContent(st, path, layers, |path| - 1, from, o);
    NonzeroIsChange(layers, location, from, st.ss, o);
    ChangeInWindow(list, location, 0, from, st.ss, blockSize, o);
  }

  /** Windows are disjoint. */
  lemma {:induction false} WindowsDisjoint(list: seq<Window>, location: seq<byte>, to: nat, from: nat, ss: nat,
                                           blockSize: nat, i: nat, j: nat)
    requires 0 < blockSize && Lists(list, location, to, from, ss, blockSize, |location|) && i < j < |list|
    ensures list[i].offset + list[i].size <= list[j].offset
  {
    assert Justified(list[i], location, to, from, ss, blockSize, |location|) &&
        Justified(list[j], location, to, from, ss, blockSize, |location|);
    SectorFits(list[i].offset, Sec(list[j].offset, blockSize), blockSize);
  }

  /**
   The windows all end within the volume exactly if the volume is a whole number of blocks
   or no sector of its last, partial block changed.
   */
  lemma {:induction false} WindowsFit(list: seq<Window>, location: seq<byte>, to: nat, from: nat, ss: nat,
                                      blockSize: nat, size: nat)
    requires 0 < ss && 0 < blockSize && Lists(list, location, to, from, ss, blockSize, |location|) &&
             size == Start(|location|, ss)
    ensures (forall i :: 0 <= i < |list| ==> list[i].offset + list[i].size <= size) <==>
            (Rem(size, blockSize) == 0 || forall s ::
                0 <= s < |location| && size - Rem(size, blockSize) <= Start(s, ss) ==> !Changed(location, to, from, s))
  {
    var whole := Start(Sec(size, blockSize), blockSize);
    forall s | 0 <= s < |location|
      ensures BlockStart(s, ss, blockSize) + blockSize <= size <==> Start(s, ss) < whole
      ensures Start(s, ss) < size
    {
      BlockFits(Start(s, ss), size, blockSize);
      StartMono(s, |location|, ss);
    }
    if forall i :: 0 <= i < |list| ==> list[i].offset + list[i].size <= size {
      forall s | 0 <= s < |location| && whole <= Start(s, ss)
        ensures !Changed(location, to, from, s)
      {
      }
    } else {
      var i :| 0 <= i < |list| && list[i].offset + list[i].size > size;
      assert Justified(list[i], location, to, from, ss, blockSize, |location|);
    }
  }

  /** A volume of one changed sector and blocks of two: the only window is twice as long as the volume. */
  lemma {:induction false} WindowPastEnd(ss: nat)
    requires 0 < ss
    ensures var list := [Window(0, ss + ss)];
            Lists(list, [2], 1, 2, ss, ss + ss, 1) && Start(1, ss) == ss < list[0].offset + list[0].size
  {
    var list := [Window(0, ss + ss)];
    assert BlockStart(0, ss, ss + ss) == 0;
    assert Changed([2], 1, 2, 0);
    assert Justified(list[0], [2], 1, 2, ss, ss + ss, 1);
  }

  lemma {:induction false} BlockFits(o: nat, size: nat, blockSize: nat)
    requires 0 < blockSize
    ensures o - Rem(o, blockSize) + blockSize <= size <==> o < Start(Sec(size, blockSize), blockSize)
  {
    SectorFits(o, Sec(size, blockSize), blockSize);
    var k := Sec(o, blockSize) + 1;
    if Start(k, blockSize) <= size {
      SecMono(Start(k, blockSize), size, blockSize);
      StartAligned(k, blockSize);
      StartMono(k, Sec(size, blockSize), blockSize);
    }
  }

  // ---------------------------------------------------------------- the operation

  method CompareSnapshot(volume: DiffDisk, active: seq<Name>, hasBacking: bool, snapshotName: Name, parentName: Name,
                         blockSize: int, extents: seq<seq<Extent>>)
    returns (r: CompareResult)
    requires 0 < volume.ss && 2 <= |volume.files| <= 256 && |extents| == |volume.files| == |active|
    requires forall i :: 1 <= i < |volume.files| ==> Describes(extents[i], volume.files[i].alloc, volume.ss)
    requires forall i, s :: 1 <= i < |volume.files| && s in volume.files[i].alloc ==> s < |volume.location|
    modifies volume`location, volume`size
    ensures r == Refused(NameRequired) <==> snapshotName == NoDisk
    ensures r == Refused(BadBlockSize) <==> snapshotName != NoDisk && blockSize <= 0
    ensures snapshotName != NoDisk && blockSize > 0 ==>
              var from, to := FoundAt(active, snapshotName), if parentName == NoDisk then 0
                  else FoundAt(active, parentName);
              && (r == Refused(SnapshotNotFound) <==> from == 0)
              && (r == Refused(ParentNotFound) <==> from > 0 && parentName != NoDisk && to == 0)
              && (r == Refused(ParentAbove) <==> from > 0 && to > from)
              && (r.Windows? ==>
                    && PreloadedTable(volume.files, if hasBacking then 2 else 1, volume.location)
                    && Lists(r.list, volume.location, to, from, volume.ss, blockSize, |volume.location|)
                    && BlocksHeld(r.list, volume.files, if hasBacking then 2 else 1, to, from, volume.ss, blockSize,
                                  |volume.location|))
    ensures r.Windows? && snapshotName == parentName ==> r.list == []
  {
    hide Lists, BlocksHeld;
    if snapshotName == NoDisk {
      return Refused(NameRequired);
    }
    if blockSize <= 0 {
      return Refused(BadBlockSize);
    }
    var from := FindIn(active, snapshotName);
    if from <= 0 {
      return Refused(SnapshotNotFound);
    }
    var to := 0;
    if parentName != NoDisk {
      to := FindIn(active, parentName);
      if to <= 0 {
        return Refused(ParentNotFound);
      }
      if to > from {
        return Refused(ParentAbove);
      }
    }
    volume.Preload(false, hasBacking, extents);
    var list := ChangedWindows(volume.location, to, from, volume.ss, blockSize);
    ListsBlocks(list, volume.files, if hasBacking then 2 else 1, volume.location, to, from, volume.ss, blockSize);
    if snapshotName == parentName {
      NothingChanged(list, volume.files, if hasBacking then 2 else 1, to, from, volume.ss, blockSize,
                     |volume.location|);
    }
    return Windows(list);
  }
}
