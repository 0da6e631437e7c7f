/**
 The copy-on-write volume of one replica (pkg/replica/diff_disk.go): a stack of
 open files and a byte-per-sector table that caches which file owns a sector.
 */
module DiffDisks {
  import opened Sectors
  import opened Layers
  import opened ReadSpec
  import opened WriteSpec
  import opened Extents

  const NIL_FILE_INDEX: byte := 0
  const BACKING_FILE_INDEX: byte := 1

  /** The table entry after preloading the layers `first` to `upto`: the topmost of them that holds the sector. */
  function Preloaded(layers: seq<Layer>, first: nat, upto: nat, initial: byte, s: nat): (e: byte)
    requires 1 <= first <= upto <= |layers| <= 256
    ensures e != initial ==> first <= e < upto && s in layers[e].alloc
    ensures forall i :: first <= i < upto && s in layers[i].alloc ==> i <= e
    decreases upto
  {
    if first == upto then initial
    else if s in layers[upto - 1].alloc then upto - 1
    else Preloaded(layers, first, upto - 1, initial, s)
  }

  /** A preloaded table agrees with the search; only sectors that no probed layer holds keep the initial entry. */
  lemma {:induction false} PreloadedAgrees(layers: seq<Layer>, first: nat, initial: byte, location: seq<byte>)
    requires 2 <= |layers| <= 256 && 1 <= first <= 2 && initial <= 1
    requires forall s :: 0 <= s < |location| ==> location[s] == Preloaded(layers, first, |layers|, initial, s)
    ensures CacheAgrees(location, layers)
  {
    forall s | 0 <= s < |location| && location[s] != 0
      ensures location[s] == Owner(layers, |layers| - 1, s)
    {
      OwnerIs(layers, |layers| - 1, s, location[s]);
    }
  }

  class DiffDisk {
    const ss: nat
    var location: seq<byte>
    var files: seq<Layer>
    var size: nat

    ghost predicate Valid()
      reads this
    {
      && 0 < ss
      && 2 <= |files| <= 256
      && size == Start(|location|, ss)
      && |files[|files| - 1].bytes| <= size
      && CacheAgrees(location, files)
    }

    /** A volume opened for writing has a head file of the volume's size. */
    ghost predicate Writable()
      reads this
    {
      Valid() && |files[|files| - 1].bytes| == size
    }

    ghost function Contents(): (v: seq<byte>)
      requires Valid()
      reads this
    {
      View(files, ss, size)
    }

    /** A volume whose table knows nothing yet. */
    constructor (ss: nat, files: seq<Layer>, size: nat)
      requires 0 < ss && 2 <= |files| <= 256
      requires Rem(size, ss) == 0 && |files[|files| - 1].bytes| <= size
      ensures Valid()
      ensures this.ss == ss && this.files == files && this.size == size
    {
      this.ss := ss;
      this.files := files;
      this.size := size;
      this.location := Zeros(Sec(size, ss));
    }

    /** Opens a new, empty head on top of the stack. */
    method Push(f: Layer)
      requires Valid() && |files| < 256
      requires f.alloc == {} && |f.bytes| == size
      modifies this`files
      ensures Writable() && files == old(files) + [f]
      ensures Contents() == old(Contents())
    {
      PushAgrees(location, files, f);
      PushView(files, f, ss, size);
      files := files + [f];
    }

    /** Drops a layer below the head and shifts the table entries above it. */
    method RemoveIndex(index: nat)
      requires Valid()
      requires 1 <= index < |files| - 1
      modifies this`location, this`files
      ensures Valid()
      ensures Shifted(old(files), old(location), index, files, location)
      ensures forall s :: 0 <= s < |location| && old(location)[s] !in {0, index} ==> location[s] != 0
    {
      var table: seq<byte> := location;
      for i := 0 to |location|
        invariant |table| == |location|
        invariant forall s :: 0 <= s < |table| ==>
                    table[s] == if s < i then Dropped(location[s], index) else location[s]
      {
        if table[i] == index {
          table := table[i := 0];
        } else if table[i] > index {
          table := table[i := table[i] - 1];
        }
      }
      DropAgrees(location, table, files, index);
      location := table;
      files := files[..index] + files[index + 1..];
    }

    /** Grows the volume to the size of its new head; the new sectors are unknown to the table. */
    method Expand(newSize: nat)
      requires 0 < ss && 2 <= |files| <= 256
      requires size == Start(|location|, ss) && CacheAgrees(location, files)
      requires size <= newSize == |files[|files| - 1].bytes| && Rem(newSize, ss) == 0
      modifies this`location, this`size
      ensures Writable() && size == newSize
      ensures old(location) <= location && |location| == Sec(newSize, ss)
      ensures forall s :: |old(location)| <= s < |location| ==> location[s] == 0
    {
      var newLocationSize := Sec(newSize, ss);
      if Rem(newSize, ss) != 0 {
        newLocationSize := newLocationSize + 1;
      }
      SecMono(size, newSize, ss);
      StartAligned(|location|, ss);
      location := location + Zeros(newLocationSize - |location|);
      size := newSize;
    }

    /** Finds the layer of a sector and memoises it. */
    method Lookup(sector: nat) returns (target: byte)
      requires Valid()
      modifies this`location
      ensures Valid()
      ensures |location| == old(|location|)
      ensures target == Target(files, |location|, sector)
      ensures location == if sector < |location| then old(location)[sector := target] else old(location)
    {
      if sector >= |location| {
        return |files| - 1;
      }
      if location[sector] == 0 {
        var i := |files| - 1;
        while i > 1
          invariant 1 <= i < |files|
          invariant forall j :: i < j < |files| ==> sector !in files[j].alloc
        {
          if sector in files[i].alloc {
            break;
          }
          i := i - 1;
        }
        OwnerIs(files, |files| - 1, sector, i);
        location := location[sector := i];
      }
      target := location[sector];
    }

    /** Reads a run of sectors that all live in one file; the tail past its end is left alone. */
    method Read(target: byte, buf: seq<byte>, offset: nat, startSector: nat, sectors: nat)
      returns (n: int, out: seq<byte>, status: Status)
      requires Valid()
      requires 1 <= target < |files|
      requires Start(startSector + sectors, ss) <= |buf|
      requires Rem(offset, ss) == 0
      requires Uniform(files, |location|, Sec(offset, ss), startSector, startSector + sectors, target)
      ensures var start := offset + Start(startSector, ss);
              var end := offset + Start(startSector + sectors, ss);
              && status == (if end <= Max(|files[target].bytes|, size) then Ok else UnexpectedEOF)
              && n == (if status.Ok? then end - start else size - start)
      ensures Served(files, |location|, ss, offset, Start(startSector, ss), Start(startSector + sectors, ss), buf, out)
    {
      StartAdd(startSector, sectors, ss);
      var bufStart := Start(startSector, ss);
      var bufLength := Start(sectors, ss);
      var start := offset + bufStart;
      var end := start + bufLength;
      var diskSize := |files[target].bytes|;
      out := Copied(files[target].bytes, buf, start, bufStart, bufLength);
      RunServed(files, |location|, ss, offset, startSector, startSector + sectors, target, buf, start, bufStart,
          bufLength);
      var count := if start < diskSize then Min(bufLength, diskSize - start) else 0;
      if end <= diskSize {
        return count, out, Ok;
      }
      if end <= size {
        return count + (end - Max(diskSize, start)), out, Ok;
      }
      return count + (size - Max(diskSize, start)), out, UnexpectedEOF;
    }

    /** Reads the run of sectors `a` to `b` into a buffer that is already served up to `a`. */
    method FlushRun(target: byte, buf: seq<byte>, offset: nat, a: nat, b: nat, ghost before: seq<byte>)
      returns (n: int, out: seq<byte>, status: Status)
      requires Valid()
      requires 1 <= target < |files| && a <= b && Start(b, ss) <= |buf|
      requires Rem(offset, ss) == 0
      requires Uniform(files, |location|, Sec(offset, ss), a, b, target)
      requires Served(files, |location|, ss, offset, 0, Start(a, ss), before, buf)
      ensures var start := offset + Start(a, ss);
              var end := offset + Start(b, ss);
              && status == (if end <= Max(|files[target].bytes|, size) then Ok else UnexpectedEOF)
              && n == (if status.Ok? then end - start else size - start)
      ensures Served(files, |location|, ss, offset, 0, Start(b, ss), before, out)
    {
      n, out, status := Read(target, buf, offset, a, b - a);
      StartMono(a, b, ss);
      ServedJoin(files, |location|, ss, offset, Start(a, ss), Start(b, ss), before, buf, out);
    }

    /** The loop of a non-empty aligned read: neighbours that live in the same file become one file read. */
    method ReadRuns(buf: seq<byte>, offset: nat) returns (n: int, out: seq<byte>, status: Status)
      requires Valid()
      requires 0 < |buf| && Rem(|buf|, ss) == 0 && Rem(offset, ss) == 0
      modifies this`location
      ensures Valid() && |location| == old(|location|)
      ensures status == if offset + |buf| <= size then Ok else UnexpectedEOF
      ensures n == if status.Ok? then |buf| else size - offset
      ensures Served(files, |location|, ss, offset, 0, |buf|, buf, out)
    {
      var sectors := Sec(|buf|, ss);
      var target, readSectors, c;
      n, out, target, readSectors := MergeRuns(buf, offset, sectors);
      LastRunStatus(files, |location|, ss, offset, sectors);
      c, out, status := FlushRun(target, out, offset, sectors - readSectors, sectors, buf);
      n := n + c;
    }

    /** Looks up every sector and reads all runs but the last, which is left for the caller. */
    method MergeRuns(buf: seq<byte>, offset: nat, sectors: nat)
      returns (n: int, out: seq<byte>, target: byte, readSectors: nat)
      requires Valid()
      requires 0 < sectors && Start(sectors, ss) <= |buf| && Rem(offset, ss) == 0
      modifies this`location
      ensures Valid() && |location| == old(|location|)
      ensures 1 <= readSectors <= sectors && 1 <= target < |files|
      ensures n == Start(sectors - readSectors, ss)
      ensures Uniform(files, |location|, Sec(offset, ss), sectors - readSectors, sectors, target)
      ensures Served(files, |location|, ss, offset, 0, Start(sectors - readSectors, ss), buf, out)
    {
      hide Served, Uniform, CacheAgrees, Target, Start;
      n, out := 0, buf;
      readSectors := 1;
      ghost var from := 0;
      var startSector := Sec(offset, ss);
      target := Lookup(startSector);
      NoneServed(files, |location|, ss, offset, buf);
      OneUniform(files, |location|, startSector, target);
      var i := 1;
      while i < sectors
        invariant 0 <= from < i <= sectors && from + readSectors == i
        invariant Valid() && |location| == old(|location|)
        invariant n == Start(from, ss)
        invariant 1 <= target < |files|
        invariant Uniform(files, |location|, startSector, from, i, target)
        invariant Served(files, |location|, ss, offset, 0, Start(from, ss), buf, out)
      {
        var newTarget := Lookup(startSector + i);
        UniformExtend(files, |location|, startSector, from, i, target, newTarget);
        if newTarget == target {
          readSectors := readSectors + 1;
        } else {
          assert i - readSectors == from;
          StartMono(i, sectors, ss);
          UniformLast(files, |location|, startSector, from, i, target);
          ServedSize(files, |location|, ss, offset, 0, Start(from, ss), buf, out);
          TargetChangeFits(files, |location|, ss, offset, i, target);
          var c, status;
          c, out, status := FlushRun(target, out, offset, i - readSectors, i, buf);
          assert status == Ok;
          n := n + c;
          readSectors := 1;
          from := i;
          target := newTarget;
        }
        i := i + 1;
      }
    }

    /** Reads whole sectors. */
    method FullReadAt(buf: seq<byte>, offset: nat) returns (n: int, out: seq<byte>, status: Status)
      requires Valid()
      modifies this`location
      ensures Valid() && |location| == old(|location|)
      ensures status == ReadStatus(|buf|, offset, ss, size)
      ensures n == (if status.Ok? then |buf| else if status.Unaligned? then 0 else size - offset)
      ensures out == if status.Unaligned? then buf else Fetch(files, |location|, ss, offset, buf)
    {
      out := buf;
      if Rem(|buf|, ss) != 0 || Rem(offset, ss) != 0 {
        return 0, out, Unaligned;
      }
      if |buf| == 0 {
        return 0, out, Ok;
      }
      n, out, status := ReadRuns(buf, offset);
      ServedAll(files, |location|, ss, offset, buf, out);
    }

    /** Reads any range; partial first and last sectors go through a sector buffer. */
    method ReadAt(buf: seq<byte>, offset: nat) returns (n: int, out: seq<byte>, status: Status)
      requires Valid()
      modifies this`location
      ensures Valid() && |location| == old(|location|)
      ensures status == if |buf| == 0 || offset + |buf| <= size then Ok else UnexpectedEOF
      ensures !status.Ok? ==> n == if Rem(offset, ss) == 0 && Rem(offset + |buf|, ss) == 0 then size - offset else 0
      ensures status.Ok? ==> n == |buf| && IsRead(files, |location|, ss, buf, offset, out)
    {
      var startOffset := Rem(offset, ss);
      var startCut := ss - startOffset;
      var endOffset := Rem(offset + |buf|, ss);
      if |buf| == 0 {
        return 0, buf, Ok;
      }
      if startOffset == 0 && endOffset == 0 {
        AlignedAdd(offset, |buf|, ss);
        n, out, status := FullReadAt(buf, offset);
        AlignedRead(files, |location|, ss, buf, offset);
        return;
      }
      n, out, status := ReadUnaligned(buf, offset);
    }

    /** A read whose first or last sector is partial. */
    method ReadUnaligned(buf: seq<byte>, offset: nat) returns (n: int, out: seq<byte>, status: Status)
      requires Valid()
      requires 0 < |buf| && !(Rem(offset, ss) == 0 && Rem(offset + |buf|, ss) == 0)
      modifies this`location
      ensures Valid() && |location| == old(|location|)
      ensures status == if offset + |buf| <= size then Ok else UnexpectedEOF
      ensures !status.Ok? ==> n == 0
      ensures status.Ok? ==> n == |buf| && IsRead(files, |location|, ss, buf, offset, out)
    {
      var startOffset := Rem(offset, ss);
      var startCut := ss - startOffset;
      var readBuf;
      var first := offset - startOffset;
      HeadStatus(offset, first, |location|, ss);
      n, readBuf, status := FullReadAt(Zeros(ss), first);
      if status != Ok {
        return 0, buf, status;
      }
      if startCut >= |buf| {
        HeadRead(files, |location|, ss, buf, offset, first);
        return |buf|, readBuf[startOffset..startOffset + |buf|], Ok;
      }
      n, out, status := ReadPastHead(buf, offset, first, startOffset, startCut, readBuf);
    }

    /** The second half of an unaligned read that does not end in its first sector. */
    method ReadPastHead(buf: seq<byte>, offset: nat, first: nat, startOffset: nat, startCut: nat, readBuf: seq<byte>)
      returns (n: int, out: seq<byte>, status: Status)
      requires Valid()
      requires !(Rem(offset, ss) == 0 && Rem(offset + |buf|, ss) == 0)
      requires startOffset == Rem(offset, ss) && startOffset + startCut == ss && startCut < |buf|
      requires first + startOffset == offset && first + ss <= size
      requires readBuf == Fetch(files, |location|, ss, first, Zeros(ss))
      modifies this`location
      ensures Valid() && |location| == old(|location|)
      ensures status == if offset + |buf| <= size then Ok else UnexpectedEOF
      ensures !status.Ok? ==> n == 0
      ensures status.Ok? ==> n == |buf| && IsRead(files, |location|, ss, buf, offset, out)
    {
      var stop := |buf| - Rem(offset + |buf|, ss);
      var head, tail := offset + startCut, offset + stop;
      RestStatus(offset, |buf|, |location|, ss, startCut, stop, head, tail);
      var rest;
      rest, status := ReadRest(buf, readBuf, startCut, stop, head, tail);
      if status != Ok {
        return 0, buf, status;
      }
      RestRead(files, |location|, ss, buf, offset, startOffset, first, startCut, stop, head, tail);
      return |buf|, readBuf[startOffset..] + rest, Ok;
    }

    /** The rest of an unaligned read that goes past its first sector. */
    method ReadRest(buf: seq<byte>, sectorBuf: seq<byte>, cut: nat, stop: nat, head: nat, tail: nat)
      returns (out: seq<byte>, status: Status)
      requires Valid()
      requires cut <= stop <= |buf| && |buf| - stop <= |sectorBuf|
      requires !ReadStatus(stop - cut, head, ss, size).Unaligned?
      requires stop < |buf| ==> !ReadStatus(|sectorBuf|, tail, ss, size).Unaligned?
      modifies this`location
      ensures Valid() && |location| == old(|location|)
      ensures var mid := ReadStatus(stop - cut, head, ss, size);
              status == if mid.Ok? && stop < |buf| then ReadStatus(|sectorBuf|, tail, ss, size) else mid
      ensures status.Ok? ==> out == FetchRest(files, |location|, ss, buf, sectorBuf, cut, stop, head, tail)
    {
      var n, tailBuf;
      n, out, status := FullReadAt(buf[cut..stop], head);
      if status != Ok {
        return;
      }
      if stop < |buf| {
        n, tailBuf, status := FullReadAt(sectorBuf, tail);
        if status != Ok {
          return;
        }
        out := out + tailBuf[..|buf| - stop];
      }
    }

    /**
     Writes whole sectors to the head file. `stop` is where the device runs into an
     error, if it does; the table is marked for the whole range either way.
     */
    method FullWriteAt(buf: seq<byte>, offset: nat, stop: Option<nat>) returns (n: nat, status: Status)
      requires Writable()
      requires offset + |buf| <= size
      modifies this`location, this`files
      ensures OnlyHead(old(files), files)
      ensures Rem(|buf|, ss) != 0 || Rem(offset, ss) != 0 ==>
                n == 0 && status == Unaligned && files == old(files) && location == old(location)
      ensures Rem(|buf|, ss) == 0 && Rem(offset, ss) == 0 ==>
                && n == Applied(offset, |buf|, stop)
                && status == (if n == |buf| then Ok else WriteFailed)
                && files == Written(old(files), offset, buf[..n], ss)
                && Marked(old(location), location, Sec(offset, ss), Sec(|buf|, ss), |old(files)| - 1)
      ensures status.Ok? ==> Writable() && Spliced(Contents(), old(Contents()), offset, buf)
      ensures status.Ok? ==> !Hits(stop, offset, |buf|, ss)
      ensures status.WriteFailed? ==>
                && Hits(stop, offset, |buf|, ss)
                && Partial(files, old(files[|files| - 1]), old(Contents()), ss, offset, buf, n, stop)
      ensures KeptFrom(old(files), files, offset + |buf|)
    {
      hide CacheAgrees, Start, Sec, Partial, Marked, Splice, View, KeptFrom, OnlyHead, Hits, Range;
      if Rem(|buf|, ss) != 0 || Rem(offset, ss) != 0 {
        NothingWritten(files, offset + |buf|);
        return 0, Unaligned;
      }
      var target := |files| - 1;
      n := Applied(offset, |buf|, stop);
      var table := Mark(Sec(offset, ss), Sec(|buf|, ss), target, offset, |buf|);
      AlignedPartial(files, Contents(), ss, offset, buf, n, stop);
      WrittenKeeps(files, offset, buf[..n], ss);
      KeptMore(files, Written(files, offset, buf[..n], ss), offset + n, offset + |buf|);
      MarkedSize(location, table, Sec(offset, ss), Sec(|buf|, ss), target);
      if n == |buf| {
        assert buf[..n] == buf;
        MarkedAgrees(location, table, files, target, offset, buf, ss);
        AlignedWriteContents(files, offset, buf, ss, size);
      }
      files := Written(files, offset, buf[..n], ss);
      location := table;
      status := if n == |buf| then Ok else WriteFailed;
    }

    /** The location table with a written range of sectors marked. */
    method Mark(startSector: nat, sectors: nat, target: byte, ghost offset: nat, ghost len: nat)
      returns (table: seq<byte>)
      requires Valid()
      requires Rem(offset, ss) == 0 && Rem(len, ss) == 0 && offset + len <= size
      requires startSector == Sec(offset, ss) && sectors == Sec(len, ss)
      ensures Marked(location, table, startSector, sectors, target)
    {
      TableCovers(offset, len, |location|, ss);
      table := location;
      for i := 0 to sectors
        invariant Marked(location, table, startSector, i, target)
      {
        table := table[startSector + i := target];
      }
    }

    /** The sector around a small write, read and patched. */
    method PatchSector(buf: seq<byte>, offset: nat) returns (readOffset: nat, data: seq<byte>)
      requires Writable()
      requires 0 < |buf| && Rem(offset, ss) + |buf| <= ss && offset + |buf| <= size
      modifies this`location
      ensures Writable()
      ensures |data| == ss && readOffset + Rem(offset, ss) == offset && readOffset + ss <= size
      ensures Splice(Contents(), readOffset, data) == Splice(Contents(), offset, buf)
    {
      hide CacheAgrees, Start, Sec, Splice, View, Fetch;
      readOffset := offset - Rem(offset, ss);
      HeadStatus(offset, readOffset, |location|, ss);
      var c, readBuf, status := FullReadAt(Zeros(ss), readOffset);
      assert status == Ok;
      data := PatchedBuffer(files, |location|, ss, readOffset, Rem(offset, ss), buf, offset, size, readBuf);
    }

    /** Writes part of one sector by reading it, patching it and writing it back. */
    method ReadModifyWrite(buf: seq<byte>, offset: nat, stop: Option<nat>) returns (n: nat, status: Status)
      requires Writable()
      requires Rem(offset, ss) + |buf| <= ss && offset + |buf| <= size
      modifies this`location, this`files
      ensures OnlyHead(old(files), files)
      ensures status.Ok? <==> !Hits(stop, offset, |buf|, ss)
      ensures status.Ok? ==> Writable() && n == |buf| && Spliced(Contents(), old(Contents()), offset, buf)
      ensures KeptFrom(old(files), files, offset - Rem(offset, ss) + ss)
      ensures !status.Ok? ==> Partial(files, old(files[|files| - 1]), old(Contents()), ss, offset, buf, n, stop)
    {
      hide CacheAgrees, Start, Partial, Marked, Splice, View, KeptFrom, OnlyHead, Hits, Range, Written;
      NothingWritten(files, offset - Rem(offset, ss) + ss);
      if |buf| == 0 {
        NothingSpliced(Contents(), offset, buf, stop, ss);
        return 0, Ok;
      }
      ghost var view, top := Contents(), files[|files| - 1];
      var readOffset, data := PatchSector(buf, offset);
      SectorAligned(readOffset, offset, |buf|, stop, ss);
      n, status := FullWriteAt(data, readOffset, stop);
      if status != Ok {
        var nominal := NominalWrittenBytes(|buf|, n, offset, readOffset);
        SectorPartial(files, top, view, ss, readOffset, data, offset, buf, n, nominal, stop);
        return nominal, status;
      }
      n := |buf|;
    }

    /** Writes any range: whole sectors directly, partial ones by read-modify-write. */
    method WriteAt(buf: seq<byte>, offset: nat, stop: Option<nat>) returns (n: nat, status: Status)
      requires Writable()
      requires offset + |buf| <= size
      modifies this`location, this`files
      ensures OnlyHead(old(files), files)
      ensures status.Ok? <==> !Hits(stop, offset, |buf|, ss)
      ensures status.Ok? ==> Writable() && n == |buf| && Contents() == Splice(old(Contents()), offset, buf)
      ensures !status.Ok? ==> Partial(files, old(files[|files| - 1]), old(Contents()), ss, offset, buf, n, stop)
    {
      hide CacheAgrees, Start, Partial, Marked, Splice, View, KeptFrom, OnlyHead, Hits, Range, Written;
      var startOffset := Rem(offset, ss);
      var startCut := ss - startOffset;
      var endOffset := Rem(offset + |buf|, ss);
      if |buf| == 0 {
        NothingSpliced(Contents(), offset, buf, stop, ss);
        NothingWritten(files, offset);
        return 0, Ok;
      }
      if startOffset == 0 && endOffset == 0 {
        AlignedAdd(offset, |buf|, ss);
        n, status := FullWriteAt(buf, offset, stop);
        return;
      }
      if startCut >= |buf| {
        n, status := ReadModifyWrite(buf, offset, stop);
        return;
      }
      var m := |buf| - startCut - endOffset;
      var head := offset + startCut;
      var tail := head + m;
      PiecesAligned(offset, |buf|, ss, startCut, m, endOffset, head, tail);
      PiecesHit(offset, |buf|, ss, startCut, m, endOffset, head, tail, stop);
      n, status := WritePieces(buf, offset, stop, startCut, m, endOffset, head, tail);
    }

    /** A write that spans several sectors and starts or ends inside one. */
    method WritePieces(buf: seq<byte>, offset: nat, stop: Option<nat>, cut: nat, m: nat, t: nat, head: nat, tail: nat)
      returns (n: nat, status: Status)
      requires Writable()
      requires offset + |buf| <= size
      requires cut + m + t == |buf| && head == offset + cut && tail == head + m
      requires Rem(offset, ss) + cut == ss && t <= ss
      requires Rem(head, ss) == 0 && Rem(m, ss) == 0 && Rem(tail, ss) == 0
      requires Hits(stop, offset, cut, ss) ==> stop.value < head
      requires Hits(stop, head, m, ss) ==> head <= stop.value < tail
      requires Hits(stop, tail, t, ss) ==> tail <= stop.value
      modifies this`location, this`files
      ensures OnlyHead(old(files), files)
      ensures status.Ok? <==> !Hits(stop, offset, cut, ss) && !Hits(stop, head, m, ss) && !Hits(stop, tail, t, ss)
      ensures status.Ok? ==> Writable() && n == |buf| && Spliced(Contents(), old(Contents()), offset, buf)
      ensures !status.Ok? ==> Partial(files, old(files[|files| - 1]), old(Contents()), ss, offset, buf, n, stop)
    {
      hide CacheAgrees, Start, Partial, Splice, View, KeptFrom, OnlyHead, Hits, Spliced;
      ghost var view, before := Contents(), files;
      n, status := ReadModifyWrite(buf[..cut], offset, stop);
      HeadTwice(before, files);
      if status != Ok {
        PartialStops(files, before[|before| - 1], view, ss, offset, buf[..cut], n, stop);
        PartialPrefix(files, before[|before| - 1], view, ss, offset, cut, buf, n, stop);
        return;
      }
      ghost var done, now := Contents(), files;
      var k;
      k, status := WriteBody(buf[cut..], head, stop, m, t, tail);
      HeadJoins(before, now, files);
      if status != Ok {
        PartialStops(files, now[|now| - 1], done, ss, head, buf[cut..], k, stop);
        PartialAfter(files, before, now, view, done, ss, offset, cut, head, buf, k, n + k, stop);
        return n + k, status;
      }
      SplicedJoin(view, done, Contents(), offset, cut, head, buf);
      n := |buf|;
    }

    /** The whole sectors of a write and the partial sector after them. */
    method WriteBody(rest: seq<byte>, head: nat, stop: Option<nat>, m: nat, t: nat, tail: nat)
      returns (n: nat, status: Status)
      requires Writable()
      requires head + |rest| <= size && m + t == |rest| && tail == head + m
      requires Rem(head, ss) == 0 && Rem(m, ss) == 0 && Rem(tail, ss) == 0 && t <= ss
      requires Hits(stop, head, m, ss) ==> head <= stop.value < tail
      requires Hits(stop, tail, t, ss) ==> tail <= stop.value
      modifies this`location, this`files
      ensures OnlyHead(old(files), files)
      ensures status.Ok? <==> !Hits(stop, head, m, ss) && !Hits(stop, tail, t, ss)
      ensures status.Ok? ==> Writable() && n == |rest| && Spliced(Contents(), old(Contents()), head, rest)
      ensures !status.Ok? ==> Partial(files, old(files[|files| - 1]), old(Contents()), ss, head, rest, n, stop)
    {
      hide CacheAgrees, Start, Partial, Marked, Splice, View, KeptFrom, OnlyHead, Hits, Spliced, Written, Range;
      ghost var view, before := Contents(), files;
      n, status := FullWriteAt(rest[..m], head, stop);
      HeadTwice(before, files);
      if status != Ok {
        PartialStops(files, before[|before| - 1], view, ss, head, rest[..m], n, stop);
        PartialPrefix(files, before[|before| - 1], view, ss, head, m, rest, n, stop);
        return;
      }
      ghost var done, now := Contents(), files;
      var k;
      k, status := ReadModifyWrite(rest[m..], tail, stop);
      HeadJoins(before, now, files);
      if status != Ok {
        PartialStops(files, now[|now| - 1], done, ss, tail, rest[m..], k, stop);
        PartialAfter(files, before, now, view, done, ss, head, m, tail, rest, k, n + k, stop);
        return n + k, status;
      }
      SplicedJoin(view, done, Contents(), head, m, tail, rest);
      n := |rest|;
    }

    /** Fills the table from the files' extents, bottom layer first. The backing file, if any, is not probed. */
    method Preload(includeBackingFileLayer: bool, isThereBackingFile: bool, extents: seq<seq<Extent>>)
      requires 0 < ss && 2 <= |files| <= 256 && |extents| == |files|
      requires forall i :: 1 <= i < |files| ==> Describes(extents[i], files[i].alloc, ss)
      requires forall i, s :: 1 <= i < |files| && s in files[i].alloc ==> s < |location|
      modifies this`location, this`size
      ensures CacheAgrees(location, files) && |location| == old(|location|)
      ensures var first := if isThereBackingFile then 2 else 1;
              var initial := if includeBackingFileLayer && isThereBackingFile then BACKING_FILE_INDEX
                  else NIL_FILE_INDEX;
              forall s :: 0 <= s < |location| ==> location[s] == Preloaded(files, first, |files|, initial, s)
      ensures includeBackingFileLayer && isThereBackingFile ==> forall s :: 0 <= s < |location| ==> location[s] != 0
      ensures size == |files[|files| - 1].bytes|
    {
      var initial := if includeBackingFileLayer && isThereBackingFile then BACKING_FILE_INDEX else NIL_FILE_INDEX;
      var first := if isThereBackingFile then 2 else 1;
      var table: seq<byte> := seq(|location|, i => initial);
      for i := first to |files|
        invariant |table| == |location|
        invariant forall s :: 0 <= s < |table| ==> table[s] == Preloaded(files, first, i, initial, s)
        modifies {}
      {
        var before := table;
        forall k | 0 <= k < |extents[i]|
          ensures Sec(extents[i][k].logical, ss) + Sec(extents[i][k].length, ss) <= |table|
        {
          LayoutFits(extents[i], files[i].alloc, ss, |table|, k);
        }
        table := LoadDiffDiskLocationList(table, extents[i], ss, i);
        forall s | 0 <= s < |table|
          ensures table[s] == Preloaded(files, first, i + 1, initial, s)
        {
          MarkedAlloc(extents[i], files[i].alloc, ss, i, before, table, s);
        }
      }
      PreloadedAgrees(files, first, initial, table);
      location := table;
      size := |files[|files| - 1].bytes|;
    }
  }
}
