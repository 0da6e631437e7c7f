/**
 Backup chains (cmd/weft-block/driver.go, pkg/reconcile/inproc_engine.go): what a full or
 incremental backup holds, the walk from a backup to its root, and the restore that applies
 the links root first.
 */
module Backups {
  import opened Sectors
  import opened Sequences
  import opened Layers

  type Url = string

  datatype Range = Range(offset: nat, size: nat)

  /** A backup's sidecar: its parent (none if empty), the ranges of an increment, and the bytes of its body. */
  datatype Meta = Meta(parent: Url, ranges: seq<Range>, plaintext: nat)

  const MAX_CHAIN: nat := 256

  // ---------------------------------------------------------------- the walk to the root

  /** A chain of backups, root first, each the parent of the next, that ends at `leaf`. */
  ghost predicate Rooted(metas: map<Url, Meta>, chain: seq<Url>, leaf: Url) {
    && chain != [] && chain[|chain| - 1] == leaf
    && (forall i :: 0 <= i < |chain| ==> chain[i] in metas && chain[i] != "")
    && metas[chain[0]].parent == ""
    && (forall i :: 0 < i < |chain| ==> ParentIs(metas, chain, i))
  }

  ghost predicate ParentIs(metas: map<Url, Meta>, chain: seq<Url>, i: int) {
    0 < i < |chain| && chain[i] in metas && metas[chain[i]].parent == chain[i - 1]
  }

  /** The links found so far, leaf first, and the link to look at next. */
  ghost predicate Walking(metas: map<Url, Meta>, leaf: Url, found: seq<Url>, current: Url) {
    && (forall i :: 0 <= i < |found| ==> found[i] in metas && found[i] != "")
    && (forall i :: 0 <= i < |found| ==> NextIs(metas, found, i, current))
    && (if found == [] then current == leaf else found[0] == leaf)
  }

  ghost predicate NextIs(metas: map<Url, Meta>, found: seq<Url>, i: int, current: Url) {
    0 <= i < |found| && found[i] in metas && metas[found[i]].parent == if i + 1 < |found| then found[i + 1] else current
  }

  /** A walk goes along any rooted chain of its leaf, from the back. */
  lemma {:induction false} WalkFollows(metas: map<Url, Meta>, leaf: Url, found: seq<Url>, current: Url, chain: seq<Url>,
                                       k: nat)
    requires Walking(metas, leaf, found, current) && Rooted(metas, chain, leaf) && k < |found|
    ensures k < |chain| && found[k] == chain[|chain| - 1 - k]
    ensures metas[found[k]].parent == if k + 1 < |chain| then chain[|chain| - 2 - k] else ""
    decreases k
  {
    if k > 0 {
      var j := k - 1;
      WalkFollows(metas, leaf, found, current, chain, j);
      assert NextIs(metas, found, j, current);
    }
    if k + 1 < |chain| {
      assert ParentIs(metas, chain, |chain| - 1 - k);
    }
  }

  /** A rooted chain has no repeats: the walk from a repeated link would never reach the root. */
  lemma {:induction false} RootedDistinct(metas: map<Url, Meta>, chain: seq<Url>, leaf: Url, i: nat, j: nat)
    requires Rooted(metas, chain, leaf) && i < j < |chain|
    ensures chain[i] != chain[j]
    decreases i
  {
    assert ParentIs(metas, chain, j);
    if i > 0 {
      assert ParentIs(metas, chain, i);
      RootedDistinct(metas, chain, leaf, i - 1, j - 1);
    }
  }

  /** A backup has one rooted chain: two of them agree from the back. */
  lemma {:induction false} RootedAgree(metas: map<Url, Meta>, c: seq<Url>, d: seq<Url>, leaf: Url, k: nat)
    requires Rooted(metas, c, leaf) && Rooted(metas, d, leaf) && k < |c|
    ensures k < |d| && c[|c| - 1 - k] == d[|d| - 1 - k]
    decreases k
  {
    if k > 0 {
      RootedAgree(metas, c, d, leaf, k - 1);
      assert ParentIs(metas, c, |c| - k);
      if k < |d| {
        assert ParentIs(metas, d, |d| - k);
      }
    }
  }

  lemma {:induction false} RootedUnique(metas: map<Url, Meta>, c: seq<Url>, d: seq<Url>, leaf: Url)
    requires Rooted(metas, c, leaf) && Rooted(metas, d, leaf)
    ensures c == d
  {
    RootedAgree(metas, c, d, leaf, |c| - 1);
    RootedAgree(metas, d, c, leaf, |d| - 1);
    forall i | 0 <= i < |c|
      ensures c[i] == d[i]
    {
      RootedAgree(metas, c, d, leaf, |c| - 1 - i);
    }
  }

  method Reverse<T>(s: seq<T>) returns (r: seq<T>)
    ensures r == Reversed(s)
  {
    r := s;
    var i, j := 0, |s| - 1;
    while i < j
      invariant |r| == |s| && 0 <= i && i + j == |s| - 1
      invariant forall k :: 0 <= k < |s| ==> r[k] == if k < i || k > j then Reversed(s)[k] else s[k]
      decreases j - i
    {
      assert Reversed(s)[i] == s[j] && Reversed(s)[j] == s[i];
      var x, y := r[i], r[j];
      r := r[i := y];
      r := r[j := x];
      i, j := i + 1, j - 1;
    }
  }

  /** A finished walk, reversed, is a rooted chain. */
  lemma {:induction false} WalkRooted(metas: map<Url, Meta>, leaf: Url, found: seq<Url>)
    requires Walking(metas, leaf, found, "") && found != []
    ensures Rooted(metas, Reversed(found), leaf)
  {
    var chain := Reversed(found);
    assert NextIs(metas, found, |found| - 1, "");
    forall i | 0 < i < |chain|
      ensures ParentIs(metas, chain, i)
    {
      assert NextIs(metas, found, |found| - 1 - i, "");
    }
  }

  /** A walk that is stuck, or has gone 256 links, shows that no rooted chain of fewer links exists. */
  lemma {:induction false} NoChain(metas: map<Url, Meta>, leaf: Url, found: seq<Url>, current: Url, chain: seq<Url>)
    requires Walking(metas, leaf, found, current) && Rooted(metas, chain, leaf)
    requires (current != "" && current !in metas) || |found| == MAX_CHAIN
    ensures |chain| >= MAX_CHAIN
  {
    if found != [] {
      WalkFollows(metas, leaf, found, current, chain, |found| - 1);
      assert NextIs(metas, found, |found| - 1, current);
    }
  }

  /** Collects the links from a backup to its root, root first. */
  method WalkBackupChain(metas: map<Url, Meta>, leaf: Url) returns (r: Option<seq<Url>>)
    ensures leaf == "" ==> r == Some([])
    ensures leaf != "" && r.Some? ==> Rooted(metas, r.value, leaf) && |r.value| < MAX_CHAIN
    ensures r.None? <==> leaf != "" && forall chain :: Rooted(metas, chain, leaf) ==> |chain| >= MAX_CHAIN
  {
    hide Rooted;
    var found: seq<Url>, current := [], leaf;
    var i := 0;
    while i < MAX_CHAIN
      invariant i == |found| <= MAX_CHAIN && Walking(metas, leaf, found, current)
      invariant found != [] ==> current != ""
    {
      if current == "" {
        break;
      }
      if current !in metas {
        forall chain | Rooted(metas, chain, leaf)
          ensures |chain| >= MAX_CHAIN
        {
          NoChain(metas, leaf, found, current, chain);
        }
        return None;
      }
      WalkNext(metas, leaf, found, current);
      found := found + [current];
      current := metas[current].parent;
      if current == "" {
        break;
      }
      i := i + 1;
    }
    if |found| == MAX_CHAIN {
      forall chain | Rooted(metas, chain, leaf)
        ensures |chain| >= MAX_CHAIN
      {
        NoChain(metas, leaf, found, current, chain);
      }
      return None;
    }
    if found != [] {
      WalkRooted(metas, leaf, found);
    }
    var chain := Reverse(found);
    return Some(chain);
  }

  lemma {:induction false} WalkNext(metas: map<Url, Meta>, leaf: Url, found: seq<Url>, current: Url)
    requires Walking(metas, leaf, found, current) && current != "" && current in metas
    ensures Walking(metas, leaf, found + [current], metas[current].parent)
  {
    var now, parent := found + [current], metas[current].parent;
    forall i | 0 <= i < |now|
      ensures NextIs(metas, now, i, parent)
    {
      if i < |found| {
        assert NextIs(metas, found, i, current);
      }
    }
  }

  // ---------------------------------------------------------------- what a backup holds

  /** A range lies in the volume; an empty one is never looked at. */
  predicate RangeFits(rg: Range, size: nat) {
    rg.size == 0 || rg.offset + rg.size <= size
  }

  ghost predicate Fits(ranges: seq<Range>, size: nat) {
    forall i :: 0 <= i < |ranges| ==> RangeFits(ranges[i], size)
  }

  /** The bytes of a range. */
  function Get(view: seq<byte>, rg: Range): (piece: seq<byte>)
    requires RangeFits(rg, |view|)
    ensures |piece| == rg.size
  {
    if rg.size == 0 then [] else view[rg.offset..rg.offset + rg.size]
  }

  /** The volume after a range of it was overwritten. */
  function Put(v: seq<byte>, rg: Range, piece: seq<byte>): (r: seq<byte>)
    requires RangeFits(rg, |v|) && |piece| == rg.size
    ensures |r| == |v|
  {
    if rg.size == 0 then v else Splice(v, rg.offset, piece)
  }

  function Total(ranges: seq<Range>): nat {
    if ranges == [] then 0 else ranges[0].size + Total(ranges[1..])
  }

  /** The bytes of the ranges, one after the other. */
  function Gather(view: seq<byte>, ranges: seq<Range>): (body: seq<byte>)
    requires Fits(ranges, |view|)
    ensures |body| == Total(ranges)
  {
    if ranges == [] then [] else Get(view, ranges[0]) + Gather(view, ranges[1..])
  }

  /** How the engine answers the question for the difference to the parent backup. */
  datatype Comparison = NoParent | Unsupported | Differences(ranges: seq<Range>)

  /**
   The ranges and the body of a new backup. Without a parent, or if snapshots cannot be compared, the backup is
   full; so is an increment without ranges, because a stream without ranges is the whole snapshot.
   */
  function CreateBackup(view: seq<byte>, c: Comparison): (seq<Range>, seq<byte>)
    requires c.Differences? ==> Fits(c.ranges, |view|)
  {
    if c.Differences? && c.ranges != [] then (c.ranges, Gather(view, c.ranges)) else ([], view)
  }

  /** A backup with differences is incremental: it records them and holds just their bytes, one after the other. */
  lemma {:induction false} IncrementHolds(view: seq<byte>, c: Comparison, i: nat)
    requires c.Differences? && Fits(c.ranges, |view|) && i < |c.ranges|
    ensures var (ranges, body) := CreateBackup(view, c);
            var at := Total(ranges[..i]);
            && ranges == c.ranges && |body| == Total(c.ranges) && at + ranges[i].size <= |body|
            && body[at..at + ranges[i].size] == Get(view, ranges[i])
  {
    GatheredAt(view, c.ranges, i);
  }

  lemma {:induction false} GatheredAt(view: seq<byte>, ranges: seq<Range>, i: nat)
    requires Fits(ranges, |view|) && i < |ranges|
    ensures Total(ranges[..i]) + ranges[i].size <= Total(ranges)
    ensures Gather(view, ranges)[Total(ranges[..i])..Total(ranges[..i]) + ranges[i].size] == Get(view, ranges[i])
    decreases i
  {
    hide Get;
    TotalSplit(ranges, i);
    var first, rest := Get(view, ranges[0]), Gather(view, ranges[1..]);
    assert Gather(view, ranges) == first + rest;
    if i == 0 {
      assert (first + rest)[0..ranges[0].size] == first;
    } else {
      GatheredAt(view, ranges[1..], i - 1);
      assert ranges[..i][1..] == ranges[1..][..i - 1];
      var at := Total(ranges[1..][..i - 1]);
      SliceBehind(first, rest, at, at + ranges[i].size);
    }
  }

  lemma {:induction false} SliceBehind(x: seq<byte>, y: seq<byte>, a: nat, b: nat)
    requires a <= b <= |y|
    ensures (x + y)[|x| + a..|x| + b] == y[a..b]
  {
  }

  /** The body placed into the volume, range by range. */
  function Place(v: seq<byte>, ranges: seq<Range>, body: seq<byte>): (r: seq<byte>)
    requires Fits(ranges, |v|) && |body| == Total(ranges)
    ensures |r| == |v|
    decreases |ranges|
  {
    if ranges == [] then v
    else Place(Put(v, ranges[0], body[..ranges[0].size]), ranges[1..], body[ranges[0].size..])
  }

  /** A volume of `n` bytes that begins with `view` and is zero after it. */
  function Pad(view: seq<byte>, n: nat): (r: seq<byte>)
    requires |view| <= n
    ensures |r| == n && forall o :: 0 <= o < n ==> r[o] == ByteAt(view, o)
  {
    view + Zeros(n - |view|)
  }

  function ByteAt(view: seq<byte>, o: nat): byte {
    if o < |view| then view[o] else 0
  }

  ghost predicate InRange(ranges: seq<Range>, o: nat) {
    exists i :: 0 <= i < |ranges| && ranges[i].offset <= o < ranges[i].offset + ranges[i].size
  }

  /** Placing what was gathered puts the view's bytes into the ranges and leaves the rest. */
  lemma {:induction false} PlaceGathered(v: seq<byte>, view: seq<byte>, ranges: seq<Range>, o: nat)
    requires |view| <= |v| && Fits(ranges, |view|) && o < |v|
    ensures Fits(ranges, |v|) && Place(v, ranges, Gather(view, ranges))[o] == if InRange(ranges, o) then ByteAt(view, o)
              else v[o]
    decreases |ranges|
  {
    if ranges != [] {
      var rg := ranges[0];
      var body := Gather(view, ranges);
      assert body[..rg.size] == Get(view, rg) && body[rg.size..] == Gather(view, ranges[1..]);
      PlaceGathered(Put(v, rg, body[..rg.size]), view, ranges[1..], o);
      InRangeSplit(ranges, o);
    }
  }

  lemma {:induction false} InRangeSplit(ranges: seq<Range>, o: nat)
    requires ranges != []
    ensures InRange(ranges, o) <==>
              (ranges[0].offset <= o < ranges[0].offset + ranges[0].size) || InRange(ranges[1..], o)
  {
    if InRange(ranges[1..], o) {
      var i :| 0 <= i < |ranges[1..]| && ranges[1..][i].offset <= o < ranges[1..][i].offset + ranges[1..][i].size;
      assert ranges[i + 1] == ranges[1..][i];
    }
    if InRange(ranges, o) && !(ranges[0].offset <= o < ranges[0].offset + ranges[0].size) {
      var i :| 0 <= i < |ranges| && ranges[i].offset <= o < ranges[i].offset + ranges[i].size;
      assert ranges[1..][i - 1] == ranges[i];
    }
  }

  /** The volume after one backup of a chain was applied to it. */
  function Applied(v: seq<byte>, ranges: seq<Range>, body: seq<byte>): (r: seq<byte>)
    requires Fits(ranges, |v|) && if ranges == [] then |body| <= |v| else |body| == Total(ranges)
    ensures |r| == |v|
  {
    if ranges == [] then Splice(v, 0, body) else Place(v, ranges, body)
  }

  /** The differences cover every byte in which the snapshot is not its parent. */
  ghost predicate Covers(ranges: seq<Range>, parent: seq<byte>, view: seq<byte>) {
    forall o: nat :: ByteAt(parent, o) != ByteAt(view, o) ==> InRange(ranges, o)
  }

  // ---------------------------------------------------------------- restoring a chain

  /** The backups of a chain can be applied to a volume of `n` bytes. */
  ghost predicate Restorable(n: nat, metas: map<Url, Meta>, bodies: map<Url, seq<byte>>, chain: seq<Url>) {
    forall i :: 0 <= i < |chain| ==> CanApply(n, metas, bodies, chain[i])
  }

  ghost predicate CanApply(n: nat, metas: map<Url, Meta>, bodies: map<Url, seq<byte>>, url: Url) {
    url in metas && url in bodies && CanImport(n, metas[url], bodies[url])
  }

  /** The body is as long as its sidecar says, and has a place in a volume of `n` bytes. */
  ghost predicate CanImport(n: nat, meta: Meta, body: seq<byte>) {
    HasRoom(n, meta) && meta.plaintext == |body| == Wanted(meta)
  }

  ghost predicate HasRoom(n: nat, meta: Meta) {
    if meta.ranges == [] then meta.plaintext <= n else Fits(meta.ranges, n)
  }

  /** How many bytes of the body a restore asks for. */
  function Wanted(meta: Meta): nat {
    if meta.ranges == [] then meta.plaintext else Total(meta.ranges)
  }

  ghost function Restored(v: seq<byte>, metas: map<Url, Meta>, bodies: map<Url, seq<byte>>,
                          chain: seq<Url>): (r: seq<byte>)
    requires Restorable(|v|, metas, bodies, chain)
    ensures |r| == |v|
    decreases |chain|
  {
    if chain == [] then v
    else
      var last := |chain| - 1;
      assert CanApply(|v|, metas, bodies, chain[last]);
      Applied(Restored(v, metas, bodies, chain[..last]), metas[chain[last]].ranges, bodies[chain[last]])
  }

  /** Each backup of the chain was made from its snapshot's view, compared with its parent's. */
  ghost predicate Faithful(metas: map<Url, Meta>, bodies: map<Url, seq<byte>>, views: map<Url, seq<byte>>,
                           cs: map<Url, Comparison>, chain: seq<Url>, n: nat) {
    forall i :: 0 <= i < |chain| ==> MadeFrom(metas, bodies, views, cs, chain, i, n)
  }

  ghost predicate MadeFrom(metas: map<Url, Meta>, bodies: map<Url, seq<byte>>, views: map<Url, seq<byte>>,
                           cs: map<Url, Comparison>, chain: seq<Url>, i: int, n: nat) {
    && 0 <= i < |chain| && chain[i] in metas && chain[i] in bodies && chain[i] in views && chain[i] in cs
    && |views[chain[i]]| <= n && (cs[chain[i]].Differences? ==> Fits(cs[chain[i]].ranges, |views[chain[i]]|))
    && (metas[chain[i]].ranges, bodies[chain[i]]) == CreateBackup(views[chain[i]], cs[chain[i]])
    && metas[chain[i]].plaintext == |bodies[chain[i]]|
    && (i == 0 ==> !cs[chain[i]].Differences?)
    && (i > 0 ==> chain[i - 1] in views && |views[chain[i - 1]]| <= |views[chain[i]]|)
    && (i > 0 && cs[chain[i]].Differences? ==> Covers(cs[chain[i]].ranges, views[chain[i - 1]], views[chain[i]]))
  }

  lemma {:induction false} FaithfulRestorable(metas: map<Url, Meta>, bodies: map<Url, seq<byte>>,
                                              views: map<Url, seq<byte>>, cs: map<Url, Comparison>, chain: seq<Url>,
                                              n: nat)
    requires Faithful(metas, bodies, views, cs, chain, n)
    ensures Restorable(n, metas, bodies, chain)
  {
    forall i | 0 <= i < |chain|
      ensures CanApply(n, metas, bodies, chain[i])
    {
      assert MadeFrom(metas, bodies, views, cs, chain, i, n);
    }
  }

  /** Applying a backup to its parent's bytes yields its own snapshot's bytes. */
  lemma {:induction false} AppliedIsView(parent: seq<byte>, view: seq<byte>, c: Comparison, n: nat)
    requires |parent| <= |view| <= n && (c.Differences? ==> Fits(c.ranges, |view|) && Covers(c.ranges, parent, view))
    ensures var (ranges, body) := CreateBackup(view, c);
            Fits(ranges, n) && Applied(Pad(parent, n), ranges, body) == Pad(view, n)
  {
    var (ranges, body) := CreateBackup(view, c);
    var r := Applied(Pad(parent, n), ranges, body);
    forall o | 0 <= o < n
      ensures r[o] == Pad(view, n)[o]
    {
      if ranges != [] {
        PlaceGathered(Pad(parent, n), view, ranges, o);
      }
    }
  }

  /** Restoring the chain of a backup onto an empty volume reproduces the backed-up snapshot, byte for byte. */
  lemma {:induction false} RestoreReproduces(metas: map<Url, Meta>, bodies: map<Url, seq<byte>>,
                                             views: map<Url, seq<byte>>, cs: map<Url, Comparison>, chain: seq<Url>,
                                             n: nat)
    requires Faithful(metas, bodies, views, cs, chain, n) && chain != []
    ensures Restorable(n, metas, bodies, chain)
    ensures chain[|chain| - 1] in views && |views[chain[|chain| - 1]]| <= n
    ensures Restored(Zeros(n), metas, bodies, chain) == Pad(views[chain[|chain| - 1]], n)
    decreases |chain|
  {
    hide Applied, Covers, Fits, Total, CreateBackup, Pad;
    FaithfulRestorable(metas, bodies, views, cs, chain, n);
    var last := |chain| - 1;
    assert MadeFrom(metas, bodies, views, cs, chain, last, n) && CanApply(n, metas, bodies, chain[last]);
    if last == 0 {
      PadNothing(n);
      assert chain[..last] == [];
      AppliedIsView([], views[chain[last]], cs[chain[last]], n);
    } else {
      FaithfulPrefix(metas, bodies, views, cs, chain, n, last);
      RestoreReproduces(metas, bodies, views, cs, chain[..last], n);
      AppliedIsView(views[chain[last - 1]], views[chain[last]], cs[chain[last]], n);
    }
  }

  lemma {:induction false} PadNothing(n: nat)
    ensures Pad([], n) == Zeros(n)
  {
  }

  lemma {:induction false} FaithfulPrefix(metas: map<Url, Meta>, bodies: map<Url, seq<byte>>,
                                          views: map<Url, seq<byte>>, cs: map<Url, Comparison>, chain: seq<Url>, n: nat,
                                          k: nat)
    requires Faithful(metas, bodies, views, cs, chain, n) && k <= |chain|
    ensures Faithful(metas, bodies, views, cs, chain[..k], n)
  {
    forall i | 0 <= i < k
      ensures MadeFrom(metas, bodies, views, cs, chain[..k], i, n)
    {
      assert MadeFrom(metas, bodies, views, cs, chain, i, n);
    }
  }

  // ---------------------------------------------------------------- the import loops

  /** A stream that hands out its bytes in pieces of any size. */
  class Source {
    var rest: seq<byte>

    constructor (bytes: seq<byte>)
      ensures rest == bytes
    {
      rest := bytes;
    }

    method Read(max: nat) returns (piece: seq<byte>, eof: bool)
      requires 0 < max
      modifies this
      ensures old(rest) == piece + rest && |piece| <= max
      ensures old(rest) != [] ==> piece != []
      ensures eof ==> rest == []
      ensures old(rest) == [] ==> eof
    {
      if rest == [] {
        return [], true;
      }
      var most := if max < |rest| then max else |rest|;
      var n :| 1 <= n <= most;
      piece := rest[..n];
      rest := rest[n..];
      var early: bool := *;
      eof := early && rest == [];
    }
  }

  /** The restored volume; a write inside it succeeds, or is a fault of the engine and leaves anything. */
  class Volume {
    var bytes: seq<byte>
    ghost var faults: nat

    constructor (size: nat)
      ensures bytes == Zeros(size)
    {
      bytes := Zeros(size);
    }

    method WriteAt(b: seq<byte>, off: nat) returns (ok: bool)
      modifies this
      ensures |bytes| == |old(bytes)|
      ensures ok <==> off + |b| <= |bytes| && faults == old(faults)
      ensures ok ==> bytes == Splice(old(bytes), off, b)
      ensures faults >= old(faults)
      ensures off + |b| > |bytes| ==> faults == old(faults) && bytes == old(bytes)
    {
      if off + |b| > |bytes| {
        return false;
      }
      if * {
        var junk: seq<byte> := *;
        bytes := if |junk| == |bytes| then junk else bytes;
        faults := faults + 1;
        return false;
      }
      bytes := Splice(bytes, off, b);
      return true;
    }
  }

  /** Reads until `n` bytes are there or the stream ends. */
  method ReadFull(src: Source, n: nat) returns (got: seq<byte>, eof: bool)
    modifies src
    ensures old(src.rest) == got + src.rest && |got| <= n
    ensures |got| < n ==> eof
    ensures eof ==> src.rest == []
  {
    got, eof := [], false;
    while |got| < n
      invariant old(src.rest) == got + src.rest && |got| <= n && !eof
      decreases n - |got|, |src.rest|
    {
      var piece;
      piece, eof := src.Read(n - |got|);
      got := got + piece;
      if eof {
        return;
      }
    }
  }

  const DEFAULT_BLOCK_SIZE: nat := 4 * 1024 * 1024

  /** Writes the first `total` bytes of the stream to the start of the volume, block by block. */
  method ImportBytes(vol: Volume, src: Source, blockSize: int, total: nat) returns (written: nat, ok: bool)
    modifies vol, src
    ensures |vol.bytes| == |old(vol.bytes)| && vol.faults >= old(vol.faults)
    ensures ok <==> total <= |vol.bytes| && total <= |old(src.rest)| && vol.faults == old(vol.faults)
    ensures ok ==> && written == total && src.rest == old(src.rest)[total..]
                   && vol.bytes == Splice(old(vol.bytes), 0, old(src.rest)[..total])
    ensures total > |vol.bytes| ==> src.rest == old(src.rest) && vol.bytes == old(vol.bytes)
    ensures Consumed(total <= |vol.bytes|, ok, old(vol.faults), vol.faults, src.rest)
  {
    hide Imported, Splice;
    var block: nat := if blockSize <= 0 then DEFAULT_BLOCK_SIZE else blockSize;
    if total > |vol.bytes| {
      return 0, false;
    }
    var off := 0;
    NoneImported(src.rest, vol.bytes);
    while off < total
      invariant off <= total && |vol.bytes| == |old(vol.bytes)| && vol.faults == old(vol.faults)
      invariant Imported(old(src.rest), old(vol.bytes), 0, off, off, src.rest, vol.bytes)
      decreases total - off, |src.rest|
    {
      ghost var before, rest := vol.bytes, src.rest;
      var got, eof := ReadFull(src, Min(block, total - off));
      if got != [] {
        var w := vol.WriteAt(got, off);
        if !w {
          return off, false;
        }
        ImportNext(old(src.rest), old(vol.bytes), 0, off, off, rest, before, got, src.rest, vol.bytes);
        off := off + |got|;
      }
      if eof {
        if off < total {
          StreamShort(old(src.rest), old(vol.bytes), 0, off, src.rest, vol.bytes, total);
          return off, false;
        }
        break;
      }
    }
    AllImported(old(src.rest), old(vol.bytes), off, src.rest, vol.bytes);
    return off, true;
  }

  lemma {:induction false} NoneImported(all: seq<byte>, start: seq<byte>)
    ensures Imported(all, start, 0, 0, 0, all, start)
  {
  }

  lemma {:induction false} AllImported(all: seq<byte>, start: seq<byte>, n: nat, rest: seq<byte>, now: seq<byte>)
    requires Imported(all, start, 0, n, n, rest, now)
    ensures n <= |all| && n <= |start| && now == Splice(start, 0, all[..n]) && rest == all[n..]
  {
  }

  /** If room was there and no write failed, a failed import used up the stream. */
  ghost predicate Consumed(room: bool, ok: bool, before: nat, faults: nat, rest: seq<byte>) {
    room && !ok && faults == before ==> rest == []
  }

  /** A stream that ended after `n` bytes has no more than those. */
  lemma {:induction false} StreamShort(all: seq<byte>, start: seq<byte>, at: nat, n: nat, rest: seq<byte>,
                                       now: seq<byte>, total: nat)
    requires Imported(all, start, at, n, n, rest, now) && rest == [] && n < total
    ensures |all| == n && total > |all|
  {
  }

  /** The first `n` bytes of `all` went to `at` and on; `pos` of them are used up. */
  ghost predicate Imported(all: seq<byte>, start: seq<byte>, at: nat, n: nat, pos: nat, rest: seq<byte>,
                           now: seq<byte>) {
    && n <= pos <= |all| && rest == all[pos..] && at + n <= |start|
    && now == Splice(start, at, all[pos - n..pos])
  }

  lemma {:induction false} ImportNext(all: seq<byte>, start: seq<byte>, at: nat, n: nat, pos: nat, rest: seq<byte>,
                                      now: seq<byte>, got: seq<byte>, rest': seq<byte>, now': seq<byte>)
    requires Imported(all, start, at, n, pos, rest, now) && rest == got + rest' && at + n + |got| <= |start| == |now|
    requires now' == Splice(now, at + n, got)
    ensures Imported(all, start, at, n + |got|, pos + |got|, rest', now')
  {
    var m := pos + |got|;
    assert got == all[pos..m];
    assert all[pos - n..m] == all[pos - n..pos] + all[pos..m];
    SpliceJoin(start, at, all[pos - n..pos], at + n, got, all[pos - n..m]);
  }

  /** The first `n` bytes of `all` went into a range; nothing was written yet if there are none. */
  ghost predicate Filled(all: seq<byte>, start: seq<byte>, rg: Range, n: nat, rest: seq<byte>, now: seq<byte>) {
    && n <= |all| && rest == all[n..] && |now| == |start|
    && if n == 0 then now == start else Imported(all, start, rg.offset, n, n, rest, now)
  }

  lemma {:induction false} FillNext(all: seq<byte>, start: seq<byte>, rg: Range, n: nat, rest: seq<byte>,
                                    now: seq<byte>, got: seq<byte>, rest': seq<byte>, now': seq<byte>)
    requires Filled(all, start, rg, n, rest, now) && rest == got + rest' && got != []
    requires rg.offset + n + |got| <= |now| && now' == Splice(now, rg.offset + n, got)
    ensures Filled(all, start, rg, n + |got|, rest', now')
  {
    ImportNext(all, start, rg.offset, n, n, rest, now, got, rest', now');
  }

  /** Writes the next bytes of the stream into one range of the volume. */
  method ImportRange(vol: Volume, src: Source, block: nat, rg: Range) returns (written: nat, ok: bool)
    requires 0 < block
    modifies vol, src
    ensures |vol.bytes| == |old(vol.bytes)| && vol.faults >= old(vol.faults)
    ensures ok <==> RangeFits(rg, |vol.bytes|) && rg.size <= |old(src.rest)| && vol.faults == old(vol.faults)
    ensures ok ==> && written == rg.size && src.rest == old(src.rest)[rg.size..]
                   && vol.bytes == Put(old(vol.bytes), rg, old(src.rest)[..rg.size])
    ensures Consumed(RangeFits(rg, |vol.bytes|), ok, old(vol.faults), vol.faults, src.rest)
  {
    hide Imported;
    var off: nat, remaining: nat := rg.offset, rg.size;
    written := 0;
    while remaining > 0
      invariant written + remaining == rg.size && off == rg.offset + written
      invariant |vol.bytes| == |old(vol.bytes)| && vol.faults == old(vol.faults)
      invariant written > 0 ==> off <= |vol.bytes|
      invariant Filled(old(src.rest), old(vol.bytes), rg, written, src.rest, vol.bytes)
      decreases remaining, |src.rest|
    {
      ghost var before, rest := vol.bytes, src.rest;
      var got, eof := ReadFull(src, Min(block, remaining));
      if got != [] {
        var w := vol.WriteAt(got, off);
        if !w {
          FilledSize(old(src.rest), old(vol.bytes), rg, written, rest, before);
          return written, false;
        }
        FillNext(old(src.rest), old(vol.bytes), rg, written, rest, before, got, src.rest, vol.bytes);
        off := off + |got|;
        written := written + |got|;
        remaining := remaining - |got|;
      }
      if eof && remaining > 0 {
        FilledShort(old(src.rest), old(vol.bytes), rg, written, src.rest, vol.bytes);
        return written, false;
      }
    }
    FilledAll(old(src.rest), old(vol.bytes), rg, src.rest, vol.bytes);
    return written, true;
  }

  lemma {:induction false} FilledSize(all: seq<byte>, start: seq<byte>, rg: Range, n: nat, rest: seq<byte>,
                                      now: seq<byte>)
    requires Filled(all, start, rg, n, rest, now)
    ensures |now| == |start|
  {
  }

  lemma {:induction false} FilledShort(all: seq<byte>, start: seq<byte>, rg: Range, n: nat, rest: seq<byte>,
                                       now: seq<byte>)
    requires Filled(all, start, rg, n, rest, now) && rest == []
    ensures |all| == n
  {
  }

  lemma {:induction false} FilledAll(all: seq<byte>, start: seq<byte>, rg: Range, rest: seq<byte>, now: seq<byte>)
    requires Filled(all, start, rg, rg.size, rest, now)
    ensures RangeFits(rg, |start|) && rg.size <= |all| && rest == all[rg.size..] &&
            now == Put(start, rg, all[..rg.size])
  {
  }

  /** Writes the stream into the ranges, one after the other. */
  method ImportBytesAtRanges(vol: Volume, src: Source, blockSize: int, ranges: seq<Range>)
    returns (total: nat, ok: bool)
    modifies vol, src
    ensures |vol.bytes| == |old(vol.bytes)| && vol.faults >= old(vol.faults)
    ensures ok <==> Fits(ranges, |vol.bytes|) && Total(ranges) <= |old(src.rest)| && vol.faults == old(vol.faults)
    ensures ok ==> && total == Total(ranges) && src.rest == old(src.rest)[total..]
                   && vol.bytes == Place(old(vol.bytes), ranges, old(src.rest)[..total])
    ensures Consumed(Fits(ranges, |vol.bytes|), ok, old(vol.faults), vol.faults, src.rest)
  {
    hide Place, Total, Fits;
    var block: nat := if blockSize <= 0 then DEFAULT_BLOCK_SIZE else blockSize;
    total := 0;
    NonePlaced(vol.bytes, ranges, src.rest);
    for i := 0 to |ranges|
      invariant |vol.bytes| == |old(vol.bytes)| && vol.faults == old(vol.faults)
      invariant PlacedUpTo(old(vol.bytes), ranges, i, old(src.rest), total, src.rest, vol.bytes)
    {
      ghost var before, rest := vol.bytes, src.rest;
      var n;
      n, ok := ImportRange(vol, src, block, ranges[i]);
      if !ok {
        PlaceStops(old(vol.bytes), ranges, i, old(src.rest), total, rest, before);
        return total + n, false;
      }
      PlaceNext(old(vol.bytes), ranges, i, old(src.rest), total, rest, before, src.rest, vol.bytes);
      total := total + n;
    }
    PlacedAll(old(vol.bytes), ranges, old(src.rest), total, src.rest, vol.bytes);
    ok := true;
  }

  lemma {:induction false} NonePlaced(start: seq<byte>, ranges: seq<Range>, all: seq<byte>)
    ensures PlacedUpTo(start, ranges, 0, all, 0, all, start)
  {
  }

  /** The first `i` ranges were filled from the first `n` bytes of `all`. */
  ghost predicate PlacedUpTo(start: seq<byte>, ranges: seq<Range>, i: nat, all: seq<byte>, n: nat, rest: seq<byte>,
                             now: seq<byte>) {
    && i <= |ranges| && Fits(ranges[..i], |start|) && n == Total(ranges[..i]) <= |all| && rest == all[n..]
    && now == Place(start, ranges[..i], all[..n])
  }

  /** Placing one more range at the end. */
  lemma {:induction false} PlaceSnoc(v: seq<byte>, ranges: seq<Range>, rg: Range, body: seq<byte>, more: seq<byte>)
    requires Fits(ranges, |v|) && RangeFits(rg, |v|) && |body| == Total(ranges) && |more| == rg.size
    ensures Fits(ranges + [rg], |v|) && Total(ranges + [rg]) == Total(ranges) + rg.size
    ensures Place(v, ranges + [rg], body + more) == Put(Place(v, ranges, body), rg, more)
    decreases |ranges|
  {
    if ranges == [] {
      assert ranges + [rg] == [rg] && [rg][1..] == [] && body + more == more && more[..rg.size] == more;
    } else {
      var k := ranges[0].size;
      assert (ranges + [rg])[1..] == ranges[1..] + [rg];
      assert (body + more)[..k] == body[..k] && (body + more)[k..] == body[k..] + more;
      PlaceSnoc(Put(v, ranges[0], body[..k]), ranges[1..], rg, body[k..], more);
    }
  }

  lemma {:induction false} PlaceNext(start: seq<byte>, ranges: seq<Range>, i: nat, all: seq<byte>, n: nat,
                                     rest: seq<byte>, now: seq<byte>, rest': seq<byte>, now': seq<byte>)
    requires i < |ranges| && PlacedUpTo(start, ranges, i, all, n, rest, now)
    requires RangeFits(ranges[i], |start|) && ranges[i].size <= |rest| && rest' == rest[ranges[i].size..]
    requires now' == Put(now, ranges[i], rest[..ranges[i].size])
    ensures PlacedUpTo(start, ranges, i + 1, all, n + ranges[i].size, rest', now')
  {
    hide Place, Total, Fits, Put;
    var k := ranges[i].size;
    assert ranges[..i + 1] == ranges[..i] + [ranges[i]];
    assert all[..n + k] == all[..n] + rest[..k];
    PlaceSnoc(start, ranges[..i], ranges[i], all[..n], rest[..k]);
  }

  lemma {:induction false} PlacedAll(start: seq<byte>, ranges: seq<Range>, all: seq<byte>, n: nat, rest: seq<byte>,
                                     now: seq<byte>)
    requires PlacedUpTo(start, ranges, |ranges|, all, n, rest, now)
    ensures Fits(ranges, |start|) && n == Total(ranges) <= |all| && now == Place(start, ranges, all[..n])
    ensures rest == all[n..]
  {
    assert ranges[..|ranges|] == ranges;
  }

  /** If the ranges fit and the stream is long enough for all of them, it is for the next one. */
  lemma {:induction false} PlaceStops(start: seq<byte>, ranges: seq<Range>, i: nat, all: seq<byte>, n: nat,
                                      rest: seq<byte>, now: seq<byte>)
    requires i < |ranges| && PlacedUpTo(start, ranges, i, all, n, rest, now)
    ensures Fits(ranges, |start|) ==> RangeFits(ranges[i], |start|)
    ensures Total(ranges) <= |all| ==> ranges[i].size <= |rest|
  {
    hide Place;
    TotalSplit(ranges, i);
  }

  lemma {:induction false} TotalSplit(ranges: seq<Range>, i: nat)
    requires i < |ranges|
    ensures Total(ranges[..i]) + ranges[i].size <= Total(ranges)
    decreases i
  {
    if i > 0 {
      TotalSplit(ranges[1..], i - 1);
      assert ranges[..i][1..] == ranges[1..][..i - 1];
    }
  }

  // ---------------------------------------------------------------- the restore

  /** How a restore ends; it hangs if it waits for a download that waits for a reader of its rest. */
  datatype Ending = Finished | Reported | Hung

  /**
   Applies one backup to the volume; the body may be anything. The restore reads as much of the body as it wants and
   then waits for the download, which ends only when all of the body was read.
   */
  method RestoreOneBackup(vol: Volume, meta: Meta, body: seq<byte>) returns (end: Ending)
    modifies vol
    ensures |vol.bytes| == |old(vol.bytes)| && vol.faults >= old(vol.faults)
    ensures end.Finished? <==> CanImport(|vol.bytes|, meta, body) && vol.faults == old(vol.faults)
    ensures end.Finished? ==> vol.bytes == Applied(old(vol.bytes), meta.ranges, body)
    ensures HasRoom(|vol.bytes|, meta) && vol.faults == old(vol.faults) ==> (end.Hung? <==> Wanted(meta) < |body|)
    ensures meta.ranges == [] && !HasRoom(|vol.bytes|, meta) ==>
              (end.Hung? <==> body != []) && vol.bytes == old(vol.bytes)
  {
    hide Fits, Total, Applied;
    var src := new Source(body);
    var written, ok := ImportBody(vol, src, meta);
    if src.rest != [] {
      return Hung;
    }
    if ok {
      AllRead(body, written);
    }
    if !ok || written != meta.plaintext {
      return Reported;
    }
    return Finished;
  }

  /** Imports a full image or the ranges of an increment, according to the sidecar. */
  method ImportBody(vol: Volume, src: Source, meta: Meta) returns (written: nat, ok: bool)
    modifies vol, src
    ensures |vol.bytes| == |old(vol.bytes)| && vol.faults >= old(vol.faults)
    ensures ok <==>
              HasRoom(|vol.bytes|, meta) && Wanted(meta) <= |old(src.rest)| && vol.faults == old(vol.faults)
    ensures ok ==> && written == Wanted(meta) && src.rest == old(src.rest)[written..] && Fits(meta.ranges, |vol.bytes|)
                   && vol.bytes == Applied(old(vol.bytes), meta.ranges, old(src.rest)[..written])
    ensures Consumed(HasRoom(|vol.bytes|, meta), ok, old(vol.faults), vol.faults, src.rest)
    ensures meta.ranges == [] && !HasRoom(|vol.bytes|, meta) ==>
              src.rest == old(src.rest) && vol.bytes == old(vol.bytes)
  {
    hide Fits, Total, Place, Splice;
    NothingFits(|vol.bytes|);
    if meta.ranges != [] {
      written, ok := ImportBytesAtRanges(vol, src, DEFAULT_BLOCK_SIZE, meta.ranges);
    } else {
      written, ok := ImportBytes(vol, src, DEFAULT_BLOCK_SIZE, meta.plaintext);
    }
  }

  lemma {:induction false} AllRead(body: seq<byte>, n: nat)
    requires n <= |body| && body[n..] == []
    ensures n == |body| && body[..n] == body
  {
    assert |body[n..]| == |body| - n;
  }

  lemma {:induction false} NothingFits(size: nat)
    ensures Fits([], size)
  {
  }

  /** The chain of the backup is short enough to be walked. */
  ghost predicate Walkable(metas: map<Url, Meta>, chain: seq<Url>, leaf: Url) {
    Rooted(metas, chain, leaf) && |chain| < MAX_CHAIN
  }

  /** The chain can be walked, its root is a full backup, and all its backups can be applied. */
  ghost predicate CanRestore(n: nat, metas: map<Url, Meta>, bodies: map<Url, seq<byte>>, chain: seq<Url>, leaf: Url) {
    Walkable(metas, chain, leaf) && metas[chain[0]].ranges == [] && Restorable(n, metas, bodies, chain)
  }

  /**
   Restores a backup: walks to the root of its chain and applies the links, root first. It succeeds exactly if the chain
   is short enough, its root is full, every body is there, as long as its sidecar says and has room, and the engine
   faults no write. From an empty volume and backups that were made from snapshots, it reproduces the snapshot.
   */
  method RestoreBackup(vol: Volume, metas: map<Url, Meta>, bodies: map<Url, seq<byte>>, leaf: Url)
    returns (end: Ending, chain: seq<Url>)
    modifies vol
    ensures |vol.bytes| == |old(vol.bytes)|
    ensures end.Finished? <==>
              vol.faults == old(vol.faults) && exists c :: CanRestore(|vol.bytes|, metas, bodies, c, leaf)
    ensures end.Finished? ==> && CanRestore(|vol.bytes|, metas, bodies, chain, leaf)
                              && vol.bytes == Restored(old(vol.bytes), metas, bodies, chain)
    ensures (forall c :: Walkable(metas, c, leaf) ==> metas[c[0]].ranges != []) ==>
              end.Reported? && vol.bytes == old(vol.bytes)
    ensures end.Finished? && old(vol.bytes) == Zeros(|old(vol.bytes)|) ==>
              forall views, cs :: Faithful(metas, bodies, views, cs, chain, |vol.bytes|) ==>
                leaf in views && |views[leaf]| <= |vol.bytes| && vol.bytes == Pad(views[leaf], |vol.bytes|)
    ensures vol.faults == old(vol.faults) ==>
              forall c, views, cs :: Walkable(metas, c, leaf) && Faithful(metas, bodies, views, cs, c, |vol.bytes|) ==>
                end.Finished?
  {
    hide Restorable, Restored, Rooted, Faithful, Applied, CanImport, Zeros, Pad;
    OnlyChain(metas, leaf);
    FaithfulAll(metas, bodies, leaf, |vol.bytes|);
    chain := [];
    if leaf == "" {
      return Reported, [];
    }
    var walked := WalkBackupChain(metas, leaf);
    if walked.None? {
      return Reported, [];
    }
    chain := walked.value;
    assert Walkable(metas, chain, leaf);
    RootedFacts(metas, chain, leaf);
    if metas[chain[0]].ranges != [] {
      return Reported, chain;
    }
    NoneRestored(vol.bytes, metas, bodies, chain);
    for i := 0 to |chain|
      invariant |vol.bytes| == |old(vol.bytes)| && vol.faults == old(vol.faults)
      invariant RestoredUpTo(old(vol.bytes), metas, bodies, chain, i, vol.bytes)
    {
      RestorableAt(|vol.bytes|, metas, bodies, chain, i);
      if chain[i] !in bodies {
        return Reported, chain;
      }
      ghost var before := vol.bytes;
      end := RestoreOneBackup(vol, metas[chain[i]], bodies[chain[i]]);
      if !end.Finished? {
        return end, chain;
      }
      RestoredNext(old(vol.bytes), metas, bodies, chain, i, before, vol.bytes);
    }
    assert chain[..|chain|] == chain;
    assert CanRestore(|vol.bytes|, metas, bodies, chain, leaf);
    forall views, cs | old(vol.bytes) == Zeros(|old(vol.bytes)|) &&
        Faithful(metas, bodies, views, cs, chain, |vol.bytes|)
      ensures leaf in views && |views[leaf]| <= |vol.bytes| && vol.bytes == Pad(views[leaf], |vol.bytes|)
    {
      RestoreReproduces(metas, bodies, views, cs, chain, |vol.bytes|);
    }
    end := Finished;
  }

  /** A leaf without a name has no chain, and any other at most one. */
  lemma {:induction false} OnlyChain(metas: map<Url, Meta>, leaf: Url)
    ensures forall c, d :: Walkable(metas, c, leaf) && Walkable(metas, d, leaf) ==> c == d
    ensures forall c :: Walkable(metas, c, leaf) ==> leaf != "" && c != [] && c[0] in metas
  {
    forall c, d | Walkable(metas, c, leaf) && Walkable(metas, d, leaf)
      ensures c == d
    {
      RootedUnique(metas, c, d, leaf);
    }
  }

  /** Backups that were made from snapshots have a full root and can be restored. */
  lemma {:induction false} FaithfulAll(metas: map<Url, Meta>, bodies: map<Url, seq<byte>>, leaf: Url, n: nat)
    ensures forall c, views, cs :: Walkable(metas, c, leaf) && Faithful(metas, bodies, views, cs, c, n) ==>
              CanRestore(n, metas, bodies, c, leaf)
  {
    hide Restorable;
    forall c, views, cs | Walkable(metas, c, leaf) && Faithful(metas, bodies, views, cs, c, n)
      ensures CanRestore(n, metas, bodies, c, leaf)
    {
      assert MadeFrom(metas, bodies, views, cs, c, 0, n);
      FaithfulRestorable(metas, bodies, views, cs, c, n);
    }
  }

  lemma {:induction false} RestorableAt(n: nat, metas: map<Url, Meta>, bodies: map<Url, seq<byte>>, chain: seq<Url>,
                                        i: nat)
    requires i < |chain|
    ensures Restorable(n, metas, bodies, chain) ==> CanApply(n, metas, bodies, chain[i])
  {
  }

  lemma {:induction false} RootedFacts(metas: map<Url, Meta>, chain: seq<Url>, leaf: Url)
    requires Rooted(metas, chain, leaf)
    ensures chain != [] && chain[|chain| - 1] == leaf && forall i :: 0 <= i < |chain| ==> chain[i] in metas
  {
  }

  /** The first `i` links of the chain were applied. */
  ghost predicate RestoredUpTo(v: seq<byte>, metas: map<Url, Meta>, bodies: map<Url, seq<byte>>, chain: seq<Url>,
                               i: nat, now: seq<byte>) {
    && i <= |chain| && Restorable(|v|, metas, bodies, chain[..i])
    && now == Restored(v, metas, bodies, chain[..i])
  }

  lemma {:induction false} NoneRestored(v: seq<byte>, metas: map<Url, Meta>, bodies: map<Url, seq<byte>>,
                                        chain: seq<Url>)
    ensures RestoredUpTo(v, metas, bodies, chain, 0, v)
  {
  }

  lemma {:induction false} RestoredNext(v: seq<byte>, metas: map<Url, Meta>, bodies: map<Url, seq<byte>>,
                                        chain: seq<Url>, i: nat, before: seq<byte>, now: seq<byte>)
    requires i < |chain| && RestoredUpTo(v, metas, bodies, chain, i, before) && |before| == |v|
    requires CanApply(|v|, metas, bodies, chain[i])
    requires now == Applied(before, metas[chain[i]].ranges, bodies[chain[i]])
    ensures RestoredUpTo(v, metas, bodies, chain, i + 1, now)
  {
    var next := chain[..i + 1];
    assert next[..i] == chain[..i];
    forall k | 0 <= k < |next|
      ensures CanApply(|v|, metas, bodies, next[k])
    {
      assert k < i ==> chain[..i][k] == next[k];
    }
  }
}
