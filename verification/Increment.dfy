/**
 From the comparison of two snapshots to an increment that restores: the windows found on
 a replica opened at the snapshot cover every byte that differs from the parent's view.
 */
module Increments {
  import opened Sectors
  import opened Layers
  import opened SnapshotStores
  import opened SnapshotRuns
  import opened Compare
  import opened Backups

  /** The windows as they are handed to the backup. */
  function RangesOf(list: seq<Window>): (ranges: seq<Range>)
    ensures |ranges| == |list|
    ensures forall i :: 0 <= i < |list| ==> ranges[i] == Range(list[i].offset, list[i].size)
  {
    seq(|list|, i requires 0 <= i < |list| => Range(list[i].offset, list[i].size))
  }

  /** The windows of a comparison cover all differences between the views of the snapshot and of its ancestor. */
  lemma {:induction false} ComparisonCovers(st: Store, path: seq<Name>, layers: seq<Layer>, location: seq<byte>, i: nat,
                                            to: nat, from: nat, blockSize: nat, list: seq<Window>, parent: seq<byte>,
                                            view: seq<byte>)
    requires Sound(st) && Path(st.disks, path) && layers == StackOf(st, path) && i < |path|
    requires to == i + Bottom(st) && from == |layers| - 1
    requires PreloadedTable(layers, Bottom(st), location)
    requires 0 < blockSize && Rem(blockSize, st.ss) == 0 &&
             Compare.Lists(list, location, to, from, st.ss, blockSize, |location|)
    requires |parent| <= |view| == Start(|location|, st.ss)
    requires Shows(st, path[|path| - 1], view) && Shows(st, path[i], parent)
    ensures Covers(RangesOf(list), parent, view)
  {
    forall o: nat | ByteAt(parent, o) != ByteAt(view, o)
      ensures InRange(RangesOf(list), o)
    {
      SectorFits(o, |location|, st.ss);
      WholeSectors(0, |location|, st.ss, o);
      CompareMissesNothing(st, path, layers, location, i, to, from, blockSize, list, o);
      var k :| 0 <= k < |list| && list[k].offset <= o < list[k].offset + list[k].size;
      assert RangesOf(list)[k] == Range(list[k].offset, list[k].size);
    }
  }

  /**
   The windows also fit on a volume of whole blocks, and where the last, partial block holds no changed sector.
   Then the increment restores the snapshot from its parent.
   */
  lemma {:induction false} IncrementRestores(st: Store, path: seq<Name>, layers: seq<Layer>, location: seq<byte>,
                                             i: nat, to: nat, from: nat, blockSize: nat, list: seq<Window>,
                                             parent: seq<byte>, view: seq<byte>, n: nat)
    requires Sound(st) && Path(st.disks, path) && layers == StackOf(st, path) && i < |path|
    requires to == i + Bottom(st) && from == |layers| - 1
    requires PreloadedTable(layers, Bottom(st), location)
    requires 0 < blockSize && Rem(blockSize, st.ss) == 0 &&
             Compare.Lists(list, location, to, from, st.ss, blockSize, |location|)
    requires |parent| <= |view| == Start(|location|, st.ss) <= n
    requires Rem(|view|, blockSize) == 0 ||
             forall s :: 0 <= s < |location| && |view| - Rem(|view|, blockSize) <= Start(s, st.ss) ==>
                 !Changed(location, to, from, s)
    requires Shows(st, path[|path| - 1], view) && Shows(st, path[i], parent)
    ensures Fits(RangesOf(list), |view|)
    ensures var (ranges, body) := CreateBackup(view, Differences(RangesOf(list)));
            Fits(ranges, n) && Applied(Pad(parent, n), ranges, body) == Pad(view, n)
  {
    WindowsFit(list, location, to, from, st.ss, blockSize, |view|);
    ComparisonCovers(st, path, layers, location, i, to, from, blockSize, list, parent, view);
    AppliedIsView(parent, view, Differences(RangesOf(list)), n);
  }
}
