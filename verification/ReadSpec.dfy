/**
 What reads of a copy-on-write volume return (pkg/replica/diff_disk.go): the
 location table, run-merged reads, and reads that start or end inside a sector.
 */
module ReadSpec {
  import opened Sectors
  import opened Layers

  datatype Status = Ok | Unaligned | UnexpectedEOF | WriteFailed

  /**
   The table agrees with the uncached search: an entry is 0 (unknown) or names
   the topmost layer from index 2 up that holds the sector, or 1 if none does.
   */
  ghost predicate CacheAgrees(location: seq<byte>, layers: seq<Layer>)
    requires 2 <= |layers|
  {
    forall s :: 0 <= s < |location| && location[s] != 0 ==> location[s] == Owner(layers, |layers| - 1, s)
  }

  /** A fresh empty layer on top changes no owner. */
  lemma {:induction false} PushAgrees(location: seq<byte>, layers: seq<Layer>, f: Layer)
    requires 2 <= |layers| && f.alloc == {}
    requires CacheAgrees(location, layers)
    ensures CacheAgrees(location, layers + [f])
  {
    var after := layers + [f];
    forall s | 0 <= s < |location| && location[s] != 0
      ensures location[s] == Owner(after, |after| - 1, s)
    {
      OwnerIs(after, |after| - 1, s, Owner(layers, |layers| - 1, s));
    }
  }

  /** What removing layer `index` makes of a table entry. */
  function Dropped(entry: byte, index: nat): (e: byte)
    requires 0 < index
  {
    if entry == index then 0 else if entry > index then entry - 1 else entry
  }

  /** The open files and the table after entry `j` of the stack was dropped; nothing if there is no such entry. */
  ghost predicate Shifted(files: seq<Layer>, location: seq<byte>, j: nat, now: seq<Layer>, table: seq<byte>)
    requires 0 < j
  {
    if j < |files| then
      && now == files[..j] + files[j + 1..]
      && |table| == |location| && forall s :: 0 <= s < |table| ==> table[s] == Dropped(location[s], j)
    else now == files && table == location
  }

  /** Dropping a layer and shifting the entries above it keeps the table in agreement, at any index. */
  lemma {:induction false} DropAgrees(location: seq<byte>, now: seq<byte>, layers: seq<Layer>, index: nat)
    requires 3 <= |layers| && 1 <= index < |layers|
    requires CacheAgrees(location, layers)
    requires |now| == |location| && forall s :: 0 <= s < |now| ==> now[s] == Dropped(location[s], index)
    ensures CacheAgrees(now, layers[..index] + layers[index + 1..])
  {
    var after := layers[..index] + layers[index + 1..];
    forall s | 0 <= s < |now| && now[s] != 0
      ensures now[s] == Owner(after, |after| - 1, s)
    {
      assert location[s] == Owner(layers, |layers| - 1, s);
      OwnerIs(after, |after| - 1, s, now[s]);
    }
  }

  /** Replacing a layer's file keeps the table in agreement if no entry's owner changes. */
  lemma {:induction false} ReplaceAgrees(location: seq<byte>, layers: seq<Layer>, index: nat, f: Layer)
    requires 2 <= |layers| && 1 <= index < |layers|
    requires CacheAgrees(location, layers)
    requires forall s :: 0 <= s < |location| && location[s] != 0 && index != 1 ==>
               (s in f.alloc <==> s in layers[index].alloc) || index < location[s]
    ensures CacheAgrees(location, layers[index := f])
  {
    var after := layers[index := f];
    forall s | 0 <= s < |location| && location[s] != 0
      ensures location[s] == Owner(after, |after| - 1, s)
    {
      OwnerIs(after, |after| - 1, s, location[s]);
    }
  }

  /** Where sector `s` is read from; sectors past the table go to the top layer. */
  function Target(layers: seq<Layer>, tableSize: nat, s: nat): (t: nat)
    requires 2 <= |layers|
    ensures 1 <= t < |layers|
  {
    if s < tableSize then Owner(layers, |layers| - 1, s) else |layers| - 1
  }

  /** What a read leaves at volume offset `o` of a buffer that held `stale` there. */
  function Overlay(layers: seq<Layer>, tableSize: nat, ss: nat, stale: byte, o: nat): byte
    requires 2 <= |layers| && 0 < ss
  {
    var l := layers[Target(layers, tableSize, Sec(o, ss))];
    if o < |l.bytes| then l.bytes[o] else stale
  }

  /** A read at `offset` of the bytes `a` to `b` of a buffer turned `before` into `now`. */
  ghost predicate Served(layers: seq<Layer>, tableSize: nat, ss: nat, offset: nat,
                         a: nat, b: nat, before: seq<byte>, now: seq<byte>)
    requires 2 <= |layers| && 0 < ss
  {
    && |now| == |before|
    && forall k :: 0 <= k < |now| ==>
         now[k] == if a <= k < b then Overlay(layers, tableSize, ss, before[k], offset + k) else before[k]
  }

  lemma {:induction false} ServedJoin(layers: seq<Layer>, tableSize: nat, ss: nat, offset: nat,
                                      a: nat, b: nat, x: seq<byte>, y: seq<byte>, z: seq<byte>)
    requires 2 <= |layers| && 0 < ss && a <= b
    requires Served(layers, tableSize, ss, offset, 0, a, x, y)
    requires Served(layers, tableSize, ss, offset, a, b, y, z)
    ensures Served(layers, tableSize, ss, offset, 0, b, x, z)
  {
  }

  function ReadStatus(len: nat, offset: nat, ss: nat, size: nat): Status
    requires 0 < ss
  {
    if Rem(len, ss) != 0 || Rem(offset, ss) != 0 then Unaligned
    else if len == 0 || offset + len <= size then Ok
    else UnexpectedEOF
  }

  /** The sectors `a` up to `b`, counted from `base`, are all read from `target`. */
  ghost predicate Uniform(layers: seq<Layer>, tableSize: nat, base: nat, a: nat, b: nat, target: nat)
    requires 2 <= |layers|
  {
    forall s :: base + a <= s < base + b ==> Target(layers, tableSize, s) == target
  }

  lemma {:induction false} OneUniform(layers: seq<Layer>, tableSize: nat, base: nat, target: nat)
    requires 2 <= |layers| && target == Target(layers, tableSize, base)
    ensures Uniform(layers, tableSize, base, 0, 1, target) && 1 <= target < |layers|
  {
  }

  lemma {:induction false} UniformLast(layers: seq<Layer>, tableSize: nat, base: nat, a: nat, b: nat, target: nat)
    requires 2 <= |layers| && Uniform(layers, tableSize, base, a, b, target) && a < b
    ensures Target(layers, tableSize, base + b - 1) == target
  {
  }

  lemma {:induction false} ServedSize(layers: seq<Layer>, tableSize: nat, ss: nat, offset: nat, a: nat, b: nat,
                                      before: seq<byte>, now: seq<byte>)
    requires 2 <= |layers| && 0 < ss && Served(layers, tableSize, ss, offset, a, b, before, now)
    ensures |now| == |before|
  {
  }

  lemma {:induction false} NoneServed(layers: seq<Layer>, tableSize: nat, ss: nat, offset: nat, buf: seq<byte>)
    requires 2 <= |layers| && 0 < ss
    ensures Start(0, ss) == 0 && Served(layers, tableSize, ss, offset, 0, 0, buf, buf)
  {
  }

  /** The next sector joins the run if it has the same target, and starts a run of its own anyway. */
  lemma {:induction false} UniformExtend(layers: seq<Layer>, tableSize: nat, base: nat, a: nat, b: nat, target: nat,
                                         next: nat)
    requires 2 <= |layers|
    requires Uniform(layers, tableSize, base, a, b, target)
    requires Target(layers, tableSize, base + b) == next
    ensures Uniform(layers, tableSize, base, b, b + 1, next)
    ensures next == target ==> Uniform(layers, tableSize, base, a, b + 1, target)
  {
  }

  /** Sectors of a run that share a target serve every byte of the run from it. */
  lemma {:induction false} RunTarget(layers: seq<Layer>, tableSize: nat, ss: nat, offset: nat, a: nat, b: nat,
                                     target: nat)
    requires 2 <= |layers| && 0 < ss && a <= b
    requires Rem(offset, ss) == 0
    requires Uniform(layers, tableSize, Sec(offset, ss), a, b, target)
    ensures forall o :: offset + Start(a, ss) <= o < offset + Start(b, ss) ==>
              Target(layers, tableSize, Sec(o, ss)) == target
  {
    forall o | offset + Start(a, ss) <= o < offset + Start(b, ss)
      ensures Target(layers, tableSize, Sec(o, ss)) == target
    {
      var x := o - offset;
      AlignedAdd(offset, x, ss);
      StartAdd(a, b - a, ss);
      WholeSectors(a, b - a, ss, x);
    }
  }

  /** A buffer after `len` bytes of a file at `start` were read to position `at`; past the file's end nothing is. */
  function Copied(bytes: seq<byte>, buf: seq<byte>, start: nat, at: nat, len: nat): (r: seq<byte>)
    requires at + len <= |buf|
    ensures |r| == |buf|
    ensures forall k :: 0 <= k < |buf| ==>
              r[k] == if at <= k < at + len && k - at + start < |bytes| then bytes[k - at + start] else buf[k]
  {
    if start < |bytes| then Splice(buf, at, bytes[start..start + Min(len, |bytes| - start)]) else buf
  }

  lemma {:induction false} RunServed(layers: seq<Layer>, tableSize: nat, ss: nat, offset: nat, a: nat, b: nat,
                                     target: nat, buf: seq<byte>, start: nat, at: nat, len: nat)
    requires 2 <= |layers| && 0 < ss && a <= b && 1 <= target < |layers|
    requires Rem(offset, ss) == 0
    requires Uniform(layers, tableSize, Sec(offset, ss), a, b, target)
    requires at == Start(a, ss) && at + len == Start(b, ss) <= |buf| && start == offset + at
    ensures Served(layers, tableSize, ss, offset, Start(a, ss), Start(b, ss), buf,
                   Copied(layers[target].bytes, buf, start, at, len))
  {
    RunTarget(layers, tableSize, ss, offset, a, b, target);
    var out := Copied(layers[target].bytes, buf, start, at, len);
    forall k | 0 <= k < |out|
      ensures out[k] == if Start(a, ss) <= k < Start(b, ss) then Overlay(layers, tableSize, ss, buf[k], offset + k)
                else buf[k]
    {
      var o := offset + k;
      if at <= k < at + len {
        assert Target(layers, tableSize, Sec(o, ss)) == target;
        assert k - at + start == o;
      }
    }
  }

  /** Two neighbouring sectors with different targets are both inside the volume. */
  lemma {:induction false} TargetChangeFits(layers: seq<Layer>, tableSize: nat, ss: nat, offset: nat, i: nat,
                                            target: nat)
    requires 2 <= |layers| && 0 < ss && 0 < i
    requires Rem(offset, ss) == 0
    requires Target(layers, tableSize, Sec(offset, ss) + i - 1) == target
    requires Target(layers, tableSize, Sec(offset, ss) + i) != target
    ensures offset + Start(i, ss) <= Start(tableSize, ss)
  {
    StartAdd(Sec(offset, ss), i, ss);
    StartMono(Sec(offset, ss) + i, tableSize, ss);
  }

  /** A read that leaves the volume ends in a sector served by the top layer. */
  lemma {:induction false} LastRunStatus(layers: seq<Layer>, tableSize: nat, ss: nat, offset: nat, sectors: nat)
    requires 2 <= |layers| && 0 < ss && 0 < sectors
    requires Rem(offset, ss) == 0
    ensures offset + Start(sectors, ss) > Start(tableSize, ss) ==>
              Target(layers, tableSize, Sec(offset, ss) + sectors - 1) == |layers| - 1
  {
    StartAdd(Sec(offset, ss), sectors, ss);
    if Sec(offset, ss) + sectors <= tableSize {
      StartMono(Sec(offset, ss) + sectors, tableSize, ss);
    }
  }

  /** What a whole-sector read at `offset` makes of the buffer `before`. */
  function Fetch(layers: seq<Layer>, tableSize: nat, ss: nat, offset: nat, before: seq<byte>): (r: seq<byte>)
    requires 2 <= |layers| && 0 < ss
    ensures |r| == |before|
  {
    if before == [] then []
    else
      var k := |before| - 1;
      Fetch(layers, tableSize, ss, offset, before[..k]) + [Overlay(layers, tableSize, ss, before[k], offset + k)]
  }

  lemma {:induction false} FetchAt(layers: seq<Layer>, tableSize: nat, ss: nat, offset: nat, before: seq<byte>, k: nat,
                                   o: nat)
    requires 2 <= |layers| && 0 < ss
    requires k < |before| && o == offset + k
    ensures Fetch(layers, tableSize, ss, offset, before)[k] == Overlay(layers, tableSize, ss, before[k], o)
    decreases |before|
  {
    if k < |before| - 1 {
      FetchAt(layers, tableSize, ss, offset, before[..|before| - 1], k, o);
    }
  }

  lemma {:induction false} ServedAll(layers: seq<Layer>, tableSize: nat, ss: nat, offset: nat, x: seq<byte>,
                                     y: seq<byte>)
    requires 2 <= |layers| && 0 < ss
    requires Served(layers, tableSize, ss, offset, 0, |x|, x, y)
    ensures y == Fetch(layers, tableSize, ss, offset, x)
  {
    forall k | 0 <= k < |x|
      ensures y[k] == Fetch(layers, tableSize, ss, offset, x)[k]
    {
      FetchAt(layers, tableSize, ss, offset, x, k, offset + k);
    }
  }

  /**
   The byte that position `k` of a read at `offset` holds before its file is consulted.
   An unaligned read goes through a sector buffer that starts zeroed, serves the first
   sector, and is then reused, uncleared, for the last one.
   */
  function Stale(layers: seq<Layer>, tableSize: nat, ss: nat, before: seq<byte>, offset: nat, k: nat): byte
    requires 2 <= |layers| && 0 < ss
    requires k < |before|
  {
    var first := offset - Rem(offset, ss);
    var end := offset + |before|;
    var tail := end - Rem(end, ss);
    var o := offset + k;
    if Rem(offset, ss) == 0 && Rem(end, ss) == 0 then before[k]
    else if o < first + ss then 0
    else if o < tail then before[k]
    else Overlay(layers, tableSize, ss, 0, first + (o - tail))
  }

  /** Exactly what a read at any `offset` leaves in byte `k` of the buffer `before`. */
  function ReadByte(layers: seq<Layer>, tableSize: nat, ss: nat, before: seq<byte>, offset: nat, k: nat): byte
    requires 2 <= |layers| && 0 < ss
    requires k < |before|
  {
    Overlay(layers, tableSize, ss, Stale(layers, tableSize, ss, before, offset, k), offset + k)
  }

  ghost predicate IsRead(layers: seq<Layer>, tableSize: nat, ss: nat, before: seq<byte>, offset: nat, out: seq<byte>)
    requires 2 <= |layers| && 0 < ss
  {
    && |out| == |before|
    && forall k :: 0 <= k < |out| ==> out[k] == ReadByte(layers, tableSize, ss, before, offset, k)
  }

  lemma {:induction false} AlignedRead(layers: seq<Layer>, tableSize: nat, ss: nat, before: seq<byte>, offset: nat)
    requires 2 <= |layers| && 0 < ss
    requires Rem(offset, ss) == 0 && Rem(offset + |before|, ss) == 0
    ensures IsRead(layers, tableSize, ss, before, offset, Fetch(layers, tableSize, ss, offset, before))
  {
    var out := Fetch(layers, tableSize, ss, offset, before);
    forall k | 0 <= k < |out|
      ensures out[k] == ReadByte(layers, tableSize, ss, before, offset, k)
    {
      FetchAt(layers, tableSize, ss, offset, before, k, offset + k);
    }
  }

  lemma {:induction false} HeadRead(layers: seq<Layer>, tableSize: nat, ss: nat, before: seq<byte>, offset: nat,
                                    first: nat)
    requires 2 <= |layers| && 0 < ss
    requires !(Rem(offset, ss) == 0 && Rem(offset + |before|, ss) == 0)
    requires first + Rem(offset, ss) == offset
    requires Rem(offset, ss) + |before| <= ss
    ensures IsRead(layers, tableSize, ss, before, offset,
                   Fetch(layers, tableSize, ss, first, Zeros(ss))[Rem(offset, ss)..Rem(offset, ss) + |before|])
  {
    hide Fetch, Overlay, Target;
    var r := Rem(offset, ss);
    var sectorBuf := Fetch(layers, tableSize, ss, first, Zeros(ss));
    forall k | 0 <= k < |before|
      ensures sectorBuf[r + k] == ReadByte(layers, tableSize, ss, before, offset, k)
    {
      FetchAt(layers, tableSize, ss, first, Zeros(ss), r + k, offset + k);
    }
  }

  /** The bytes of an unaligned read past its first sector, cut at `head` and `tail`. */
  function FetchRest(layers: seq<Layer>, tableSize: nat, ss: nat, before: seq<byte>, sectorBuf: seq<byte>,
                     cut: nat, stop: nat, head: nat, tail: nat): (r: seq<byte>)
    requires 2 <= |layers| && 0 < ss
    requires cut <= stop <= |before| && |before| - stop <= |sectorBuf|
  {
    Fetch(layers, tableSize, ss, head, before[cut..stop]) +
    (if stop < |before| then Fetch(layers, tableSize, ss, tail, sectorBuf)[..|before| - stop] else [])
  }

  /** The cut points of an unaligned read of `len` bytes that goes past its first sector. */
  ghost predicate Cuts(ss: nat, offset: nat, len: nat, first: nat, cut: nat, stop: nat)
    requires 0 < ss
  {
    && !(Rem(offset, ss) == 0 && Rem(offset + len, ss) == 0)
    && first + Rem(offset, ss) == offset && Rem(offset, ss) + cut == ss
    && cut <= stop && stop + Rem(offset + len, ss) == len
  }

  lemma {:induction false} ReadByteCases(layers: seq<Layer>, tableSize: nat, ss: nat, before: seq<byte>, offset: nat,
                                         first: nat, cut: nat, stop: nat, k: nat, o: nat, j: nat)
    requires 2 <= |layers| && 0 < ss && k < |before|
    requires Cuts(ss, offset, |before|, first, cut, stop)
    requires o == offset + k
    ensures k < cut ==> ReadByte(layers, tableSize, ss, before, offset, k) == Overlay(layers, tableSize, ss, 0, o)
    ensures cut <= k < stop ==>
              ReadByte(layers, tableSize, ss, before, offset, k) == Overlay(layers, tableSize, ss, before[k], o)
    ensures stop <= k && j == first + (k - stop) ==>
              ReadByte(layers, tableSize, ss, before, offset, k) ==
              Overlay(layers, tableSize, ss, Overlay(layers, tableSize, ss, 0, j), o)
  {
    var end := offset + |before|;
    var tail := end - Rem(end, ss);
    if stop <= k && j == first + (k - stop) {
      assert offset - Rem(offset, ss) == first;
      assert first + (offset + k - tail) == j;
    }
  }

  lemma {:induction false} RestRead(layers: seq<Layer>, tableSize: nat, ss: nat, before: seq<byte>, offset: nat,
                                    r: nat, first: nat, cut: nat, stop: nat, head: nat, tail: nat)
    requires 2 <= |layers| && 0 < ss
    requires Cuts(ss, offset, |before|, first, cut, stop)
    requires head == offset + cut && tail == offset + stop && r + cut == ss
    ensures var sectorBuf := Fetch(layers, tableSize, ss, first, Zeros(ss));
            IsRead(layers, tableSize, ss, before, offset,
                   sectorBuf[r..] + FetchRest(layers, tableSize, ss, before, sectorBuf, cut, stop, head, tail))
  {
    var sectorBuf := Fetch(layers, tableSize, ss, first, Zeros(ss));
    var rest := FetchRest(layers, tableSize, ss, before, sectorBuf, cut, stop, head, tail);
    forall k | 0 <= k < |before|
      ensures (sectorBuf[r..] + rest)[k] == ReadByte(layers, tableSize, ss, before, offset, k)
    {
      var o := offset + k;
      if k < cut {
        ReadByteCases(layers, tableSize, ss, before, offset, first, cut, stop, k, o, 0);
        FetchAt(layers, tableSize, ss, first, Zeros(ss), r + k, o);
      } else {
        RestReadAt(layers, tableSize, ss, before, offset, first, cut, stop, head, tail, k, o);
      }
    }
  }

  lemma {:induction false} RestReadAt(layers: seq<Layer>, tableSize: nat, ss: nat, before: seq<byte>, offset: nat,
                                      first: nat, cut: nat, stop: nat, head: nat, tail: nat, k: nat, o: nat)
    requires 2 <= |layers| && 0 < ss && cut <= k < |before|
    requires Cuts(ss, offset, |before|, first, cut, stop)
    requires head == offset + cut && tail == offset + stop && o == offset + k
    ensures var sectorBuf := Fetch(layers, tableSize, ss, first, Zeros(ss));
            var rest := FetchRest(layers, tableSize, ss, before, sectorBuf, cut, stop, head, tail);
            |rest| == |before| - cut && rest[k - cut] == ReadByte(layers, tableSize, ss, before, offset, k)
  {
    hide Fetch, ReadByte, Overlay, Zeros;
    var sectorBuf := Fetch(layers, tableSize, ss, first, Zeros(ss));
    var rest := FetchRest(layers, tableSize, ss, before, sectorBuf, cut, stop, head, tail);
    if k < stop {
      assert rest[k - cut] == Fetch(layers, tableSize, ss, head, before[cut..stop])[k - cut];
      ReadByteCases(layers, tableSize, ss, before, offset, first, cut, stop, k, o, 0);
      FetchAt(layers, tableSize, ss, head, before[cut..stop], k - cut, o);
    } else {
      var mid, tailBuf := Fetch(layers, tableSize, ss, head, before[cut..stop]),
          Fetch(layers, tableSize, ss, tail, sectorBuf);
      assert rest == mid + tailBuf[..|before| - stop];
      assert rest[k - cut] == tailBuf[k - stop];
      TailReadAt(layers, tableSize, ss, before, offset, first, cut, stop, tail, k, o);
    }
  }

  lemma {:induction false} TailReadAt(layers: seq<Layer>, tableSize: nat, ss: nat, before: seq<byte>, offset: nat,
                                      first: nat, cut: nat, stop: nat, tail: nat, k: nat, o: nat)
    requires 2 <= |layers| && 0 < ss && stop <= k < |before|
    requires Cuts(ss, offset, |before|, first, cut, stop)
    requires tail == offset + stop && o == offset + k
    ensures Fetch(layers, tableSize, ss, tail, Fetch(layers, tableSize, ss, first, Zeros(ss)))[k - stop] ==
            ReadByte(layers, tableSize, ss, before, offset, k)
  {
    var sectorBuf := Fetch(layers, tableSize, ss, first, Zeros(ss));
    var j := first + (k - stop);
    ReadByteCases(layers, tableSize, ss, before, offset, first, cut, stop, k, o, j);
    FetchAt(layers, tableSize, ss, tail, sectorBuf, k - stop, o);
    FetchAt(layers, tableSize, ss, first, Zeros(ss), k - stop, j);
  }

  /** The first sector of an unaligned read is inside the volume exactly when its offset is. */
  lemma {:induction false} HeadStatus(offset: nat, first: nat, t: nat, ss: nat)
    requires 0 < ss
    requires first + Rem(offset, ss) == offset
    ensures ReadStatus(ss, first, ss, Start(t, ss)) == if offset < Start(t, ss) then Ok else UnexpectedEOF
  {
    StartAligned(Sec(offset, ss), ss);
    StartAligned(1, ss);
    SectorFits(offset, t, ss);
  }

  lemma {:induction false} RestStatus(offset: nat, len: nat, t: nat, ss: nat, cut: nat, stop: int, head: nat, tail: int)
    requires 0 < ss
    requires cut == ss - Rem(offset, ss) < len && stop + Rem(offset + len, ss) == len
    requires head == offset + cut <= Start(t, ss) && tail == offset + stop
    ensures cut <= stop <= len
    ensures ReadStatus(stop - cut, head, ss, Start(t, ss)) == if tail <= Start(t, ss) then Ok else UnexpectedEOF
    ensures stop < len ==>
              ReadStatus(ss, tail, ss, Start(t, ss)) == if offset + len <= Start(t, ss) then Ok else UnexpectedEOF
  {
    CutPoints(offset, len, ss);
    assert tail - head == stop - cut;
    if stop < len {
      TailStatus(offset + len, tail, t, ss);
    }
  }

  lemma {:induction false} TailStatus(end: nat, tail: nat, t: nat, ss: nat)
    requires 0 < ss
    requires tail + Rem(end, ss) == end && tail < end
    ensures ReadStatus(ss, tail, ss, Start(t, ss)) == if end <= Start(t, ss) then Ok else UnexpectedEOF
  {
    SecAt(end - 1, Sec(end, ss), ss);
    HeadStatus(end - 1, tail, t, ss);
  }

  /** A zeroed sector buffer is filled with the view. */
  lemma {:induction false} FetchIsView(layers: seq<Layer>, t: nat, ss: nat, at: nat, len: nat)
    requires 2 <= |layers| && 0 < ss
    requires at + len <= Start(t, ss)
    ensures Fetch(layers, t, ss, at, Zeros(len)) == View(layers, ss, Start(t, ss))[at..at + len]
  {
    var v := View(layers, ss, Start(t, ss));
    forall k | 0 <= k < len
      ensures Fetch(layers, t, ss, at, Zeros(len))[k] == v[at..at + len][k]
    {
      var o := at + k;
      FetchAt(layers, t, ss, at, Zeros(len), k, o);
      WholeSectors(0, t, ss, o);
      assert v[o] == ViewByte(layers, |layers| - 1, ss, o);
    }
  }

  // ---------------------------------------------------------------- reads and the flat view

  /** The file that owns the sector of byte `o` reaches that byte. */
  ghost predicate Reached(layers: seq<Layer>, ss: nat, o: nat)
    requires 2 <= |layers| && 0 < ss
  {
    o < |layers[Owner(layers, |layers| - 1, Sec(o, ss))].bytes|
  }

  /**
   A read inside the volume returns the flat view exactly when every byte past the end of
   its owner's file was read into a zero: the caller's buffer for aligned and middle
   sectors, and for the last partial sector the byte of the first sector at that position.
   */
  lemma {:induction false} ReadIsView(layers: seq<Layer>, t: nat, ss: nat, before: seq<byte>, offset: nat,
                                      out: seq<byte>)
    requires 2 <= |layers| && 0 < ss
    requires offset + |before| <= Start(t, ss)
    requires IsRead(layers, t, ss, before, offset, out)
    ensures out == View(layers, ss, Start(t, ss))[offset..offset + |before|] <==>
            forall k :: 0 <= k < |before| && !Reached(layers, ss, offset + k) ==>
                Stale(layers, t, ss, before, offset, k) == 0
  {
    var view := View(layers, ss, Start(t, ss))[offset..offset + |before|];
    forall k | 0 <= k < |before|
      ensures out[k] == view[k] <==> (Reached(layers, ss, offset + k) || Stale(layers, t, ss, before, offset, k) == 0)
    {
      WholeSectors(0, t, ss, offset + k);
    }
    if out == view {
      forall k | 0 <= k < |before| && !Reached(layers, ss, offset + k)
        ensures Stale(layers, t, ss, before, offset, k) == 0
      {
        assert out[k] == view[k];
      }
    }
  }

  /** Reads are right for any buffer when every file reaches the end of the range ... */
  lemma {:induction false} LongFilesReadRight(layers: seq<Layer>, t: nat, ss: nat, before: seq<byte>, offset: nat,
                                              out: seq<byte>)
    requires 2 <= |layers| && 0 < ss
    requires offset + |before| <= Start(t, ss)
    requires IsRead(layers, t, ss, before, offset, out)
    requires forall i :: 1 <= i < |layers| ==> offset + |before| <= |layers[i].bytes|
    ensures out == View(layers, ss, Start(t, ss))[offset..offset + |before|]
  {
    ReadIsView(layers, t, ss, before, offset, out);
  }

  /** An aligned read goes straight into the caller's buffer. */
  lemma {:induction false} AlignedStale(layers: seq<Layer>, t: nat, ss: nat, before: seq<byte>, offset: nat, k: nat)
    requires 2 <= |layers| && 0 < ss && k < |before| && Rem(offset, ss) == 0 && Rem(offset + |before|, ss) == 0
    ensures Stale(layers, t, ss, before, offset, k) == before[k]
  {
  }

  /** ... and aligned reads are right for zeroed buffers whatever the files' sizes. */
  lemma {:induction false} ZeroedReadRight(layers: seq<Layer>, t: nat, ss: nat, len: nat, offset: nat, out: seq<byte>)
    requires 2 <= |layers| && 0 < ss
    requires offset + len <= Start(t, ss) && Rem(offset, ss) == 0 && Rem(offset + len, ss) == 0
    requires IsRead(layers, t, ss, Zeros(len), offset, out)
    ensures out == View(layers, ss, Start(t, ss))[offset..offset + len]
  {
    hide Stale, Reached, View, IsRead;
    var before := Zeros(len);
    forall k | 0 <= k < |before|
      ensures Stale(layers, t, ss, before, offset, k) == 0
    {
      AlignedStale(layers, t, ss, before, offset, k);
    }
    ReadIsView(layers, t, ss, before, offset, out);
  }

  lemma {:induction false} StaleByteShows(layers: seq<Layer>, t: nat, ss: nat, before: seq<byte>, offset: nat,
                                          out: seq<byte>, k: nat, o: nat)
    requires 2 <= |layers| && 0 < ss
    requires offset + |before| <= Start(t, ss) && k < |before| && o == offset + k
    requires IsRead(layers, t, ss, before, offset, out)
    requires !Reached(layers, ss, o) && Stale(layers, t, ss, before, offset, k) != 0
    ensures out != View(layers, ss, Start(t, ss))[offset..offset + |before|]
  {
    ReadIsView(layers, t, ss, before, offset, out);
  }

  /**
   The reused sector buffer shows. On a two-sector volume whose head is empty and whose base
   is one sector that starts with a non-zero byte, reading one sector's worth at offset 1
   ends with a copy of that byte where the view has a zero.
   */
  lemma {:induction false} StaleTailExample(layers: seq<Layer>, ss: nat, before: seq<byte>, out: seq<byte>)
    requires 2 <= ss == |before| && |layers| == 3 && layers[2].alloc == {}
    requires |layers[1].bytes| == ss && layers[1].bytes[0] != 0
    requires IsRead(layers, 2, ss, before, 1, out)
    ensures Start(2, ss) == ss + ss
    ensures out != View(layers, ss, Start(2, ss))[1..1 + ss]
    ensures out[ss - 1] == layers[1].bytes[0]
  {
    var k, o := ss - 1, ss;
    SecAt(0, 0, ss);
    SecAt(1, 0, ss);
    SecAt(o, 1, ss);
    SecAt(1 + ss, 1, ss);
    OwnerIs(layers, 2, 0, 1);
    OwnerIs(layers, 2, 1, 1);
    ReadByteCases(layers, 2, ss, before, 1, 0, ss - 1, ss - 1, k, o, 0);
    StaleByteShows(layers, 2, ss, before, 1, out, k, o);
  }
}
