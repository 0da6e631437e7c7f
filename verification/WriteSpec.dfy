/**
 What writes to a copy-on-write volume do (pkg/replica/diff_disk.go): whole-sector
 writes, read-modify-write at the edges, and writes that a device error cuts short.
 */
module WriteSpec {
  import opened Sectors
  import opened Layers
  import opened ReadSpec

  /** How much of a write of `len` bytes at `off` a device that fails at volume offset `stop` applies. */
  function Applied(off: nat, len: nat, stop: Option<nat>): (n: nat)
    ensures n <= len
  {
    if stop.Some? && off <= stop.value < off + len then stop.value - off else len
  }

  /** `buf` bytes that a write of the sector around it got done, when `written` bytes of the sector were written. */
  function NominalWrittenBytes(bufSize: nat, writtenBytes: nat, offset: nat, readOffset: nat): (n: nat)
    ensures readOffset <= offset ==> n == Max(0, Min(bufSize, readOffset + writtenBytes - offset))
  {
    if offset < readOffset then 0
    else
      var nominal := writtenBytes - (offset - readOffset);
      if nominal < 0 then 0 else if nominal > bufSize then bufSize else nominal
  }

  /** A stack whose top layer took a write. */
  function Written(layers: seq<Layer>, off: nat, b: seq<byte>, ss: nat): (after: seq<Layer>)
    requires 2 <= |layers| && 0 < ss
    requires off + |b| <= |layers[|layers| - 1].bytes|
    ensures |after| == |layers| && |after[|after| - 1].bytes| == |layers[|layers| - 1].bytes|
  {
    layers[|layers| - 1 := WriteLayer(layers[|layers| - 1], off, b, ss)]
  }

  /** Only the top layer of the stack changed: it kept its length and lost no sector. */
  ghost predicate OnlyHead(before: seq<Layer>, now: seq<Layer>) {
    && 2 <= |before| == |now|
    && |now[|now| - 1].bytes| == |before[|before| - 1].bytes|
    && before[|before| - 1].alloc <= now[|now| - 1].alloc
    && forall i :: 0 <= i < |now| - 1 ==> now[i] == before[i]
  }

  lemma {:induction false} TableCovers(off: nat, len: nat, t: nat, ss: nat)
    requires 0 < ss
    requires Rem(off, ss) == 0 && Rem(len, ss) == 0 && off + len <= Start(t, ss)
    ensures Sec(off, ss) + Sec(len, ss) <= t || len == 0
  {
    if 0 < len {
      LastSector(off, len, ss);
      WholeSectors(0, t, ss, off + len - 1);
    }
  }

  /** Aligned writes touch whole sectors. */
  lemma {:induction false} TouchedWhole(off: nat, len: nat, ss: nat)
    requires 0 < ss
    requires Rem(off, ss) == 0 && Rem(len, ss) == 0
    ensures Touched(off, len, ss) == Range(Sec(off, ss), Sec(off, ss) + Sec(len, ss))
  {
    if 0 < len {
      LastSector(off, len, ss);
    } else {
      StartAligned(0, ss);
    }
  }

  /** The table after the `n` sectors from `a` on were marked as living in layer `t`. */
  ghost predicate Marked(before: seq<byte>, now: seq<byte>, a: nat, n: nat, t: nat)
  {
    && |now| == |before|
    && forall s :: 0 <= s < |now| ==> now[s] == if a <= s < a + n then t else before[s]
  }

  /** Writing whole sectors into the top layer and marking them keeps the table in agreement. */
  lemma {:induction false} MarkedAgrees(before: seq<byte>, now: seq<byte>, layers: seq<Layer>, top: nat,
                                        offset: nat, buf: seq<byte>, ss: nat)
    requires 2 <= |layers| == top + 1 && 0 < ss
    requires CacheAgrees(before, layers)
    requires Rem(offset, ss) == 0 && Rem(|buf|, ss) == 0 && offset + |buf| <= |layers[top].bytes|
    requires Marked(before, now, Sec(offset, ss), Sec(|buf|, ss), top)
    ensures CacheAgrees(now, layers[top := WriteLayer(layers[top], offset, buf, ss)])
  {
    var after := layers[top := WriteLayer(layers[top], offset, buf, ss)];
    TouchedWhole(offset, |buf|, ss);
    forall s | 0 <= s < |now| && now[s] != 0
      ensures now[s] == Owner(after, top, s)
    {
      OwnerIs(after, top, s, if s in Touched(offset, |buf|, ss) then top else Owner(layers, top, s));
    }
  }

  /** `now` is `before` with `b` written at `off`. */
  ghost predicate Spliced(now: seq<byte>, before: seq<byte>, off: nat, b: seq<byte>)
    requires off + |b| <= |before|
  {
    now == Splice(before, off, b)
  }

  /** The device error hits a write exactly when it lies in a sector the write touches. */
  ghost predicate Hits(stop: Option<nat>, off: nat, len: nat, ss: nat)
    requires 0 < ss
  {
    stop.Some? && Sec(stop.value, ss) in Touched(off, len, ss)
  }

  /**
   The layers after the device stopped at `stop` on the way from `view` to `want`: before `stop` they show `want` and
   after it `view`, but a sector that was cut in two shows the old `head` file after `stop`.
   */
  ghost predicate CutAt(layers: seq<Layer>, head: Layer, view: seq<byte>, want: seq<byte>, ss: nat, stop: nat)
    requires 0 < ss && |want| == |view|
  {
    2 <= |layers| && forall o :: 0 <= o < |view| ==>
      ViewByte(layers, |layers| - 1, ss, o) == CutByte(head, view, want, ss, stop, o)
  }

  ghost function CutByte(head: Layer, view: seq<byte>, want: seq<byte>, ss: nat, stop: nat, o: nat): byte
    requires 0 < ss && o < |view| == |want|
  {
    if o < stop then want[o]
    else if Rem(stop, ss) != 0 && Sec(o, ss) == Sec(stop, ss) then FileByte(head, o)
    else view[o]
  }

  /**
   What a write that ran into a device error at `stop` leaves behind: it reports the bytes of the buffer before `stop`,
   and the layers were cut there. `head` is the head file from before.
   */
  ghost predicate Partial(layers: seq<Layer>, head: Layer, view: seq<byte>, ss: nat, off: nat, buf: seq<byte>, n: nat,
                          stop: Option<nat>)
    requires 0 < ss && off + |buf| <= |view|
  {
    && stop.Some?
    && n == Max(0, Min(|buf|, stop.value - off))
    && CutAt(layers, head, view, Splice(view, off, buf), ss, stop.value)
  }

  /** If the device stopped at a sector boundary, exactly the reported bytes are in the layers. */
  lemma {:induction false} BoundaryStop(layers: seq<Layer>, head: Layer, view: seq<byte>, ss: nat, off: nat,
                                        buf: seq<byte>, n: nat, stop: Option<nat>)
    requires 0 < ss && off + |buf| <= |view| && Partial(layers, head, view, ss, off, buf, n, stop)
    requires Rem(stop.value, ss) == 0
    ensures 2 <= |layers| && View(layers, ss, |view|) == Splice(view, off, buf[..n])
  {
    var now, want := View(layers, ss, |view|), Splice(view, off, buf[..n]);
    forall o | 0 <= o < |view|
      ensures now[o] == want[o]
    {
      assert ViewByte(layers, |layers| - 1, ss, o) == CutByte(head, view, Splice(view, off, buf), ss, stop.value, o);
    }
  }

  lemma {:induction false} AlignedPartial(layers: seq<Layer>, view: seq<byte>, ss: nat, off: nat, buf: seq<byte>,
                                          n: nat, stop: Option<nat>)
    requires 2 <= |layers| && 0 < ss && off + |buf| <= |layers[|layers| - 1].bytes| == |view|
    requires Rem(off, ss) == 0 && Rem(|buf|, ss) == 0
    requires view == View(layers, ss, |view|)
    requires n == Applied(off, |buf|, stop)
    ensures n == |buf| <==> !Hits(stop, off, |buf|, ss)
    ensures n < |buf| ==>
              Partial(Written(layers, off, buf[..n], ss), layers[|layers| - 1], view, ss, off, buf, n, stop)
  {
    hide Written, CutByte, ViewByte, View, Splice;
    if stop.Some? {
      AlignedTouch(off, |buf|, ss, stop.value);
    }
    if n < |buf| {
      var top, after, want, at := |layers| - 1, Written(layers, off, buf[..n], ss), Splice(view, off, buf), stop.value;
      var head := layers[top];
      forall o | 0 <= o < |view|
        ensures ViewByte(after, top, ss, o) == CutByte(head, view, want, ss, at, o)
      {
        PartialByte(layers, view, ss, off, buf, n, at, o);
      }
    }
  }

  lemma {:induction false} PartialByte(layers: seq<Layer>, view: seq<byte>, ss: nat, off: nat, buf: seq<byte>, n: nat,
                                       at: nat, o: nat)
    requires 2 <= |layers| && 0 < ss && off + |buf| <= |layers[|layers| - 1].bytes| == |view|
    requires Rem(off, ss) == 0 && n < |buf| && at == off + n && view == View(layers, ss, |view|) && o < |view|
    ensures ViewByte(Written(layers, off, buf[..n], ss), |layers| - 1, ss, o) ==
            CutByte(layers[|layers| - 1], view, Splice(view, off, buf), ss, at, o)
  {
    hide Written, ViewByte, View, Touched, FileByte;
    WrittenByte(layers, off, buf[..n], ss, o);
    PrefixTouched(off, n, at, ss, o);
    assert view[o] == ViewByte(layers, |layers| - 1, ss, o);
  }

  /** A sector is touched by a prefix up to `stop` if it begins in it. */
  lemma {:induction false} PrefixTouched(off: nat, n: nat, stop: nat, ss: nat, o: nat)
    requires 0 < ss && Rem(off, ss) == 0 && stop == off + n
    ensures off <= o < stop ==> Sec(o, ss) in Touched(off, n, ss)
    ensures o < off ==> Sec(o, ss) !in Touched(off, n, ss)
    ensures stop <= o ==> (Sec(o, ss) in Touched(off, n, ss) <==> Rem(stop, ss) != 0 && Sec(o, ss) == Sec(stop, ss))
  {
    var a, b := Sec(off, ss), Sec(stop, ss);
    if n > 0 {
      TouchedUpTo(off, n, ss, stop, a, b);
    }
    if o < off {
      SecMono(o, off, ss);
      WholeSectors(0, a, ss, o);
    } else if o < stop {
      SecMono(off, o, ss);
      SecMono(o, stop, ss);
      WholeSectors(0, b, ss, o);
    } else {
      SecMono(stop, o, ss);
    }
  }

  /** What the layers show after a write to the head: where a sector was touched, the head file. */
  lemma {:induction false} WrittenByte(layers: seq<Layer>, off: nat, b: seq<byte>, ss: nat, o: nat)
    requires 2 <= |layers| && 0 < ss && off + |b| <= |layers[|layers| - 1].bytes|
    ensures ViewByte(Written(layers, off, b, ss), |layers| - 1, ss, o) ==
            if off <= o < off + |b| then b[o - off]
            else if Sec(o, ss) in Touched(off, |b|, ss) then FileByte(layers[|layers| - 1], o)
            else ViewByte(layers, |layers| - 1, ss, o)
  {
    var top := |layers| - 1;
    var after := Written(layers, off, b, ss);
    var s := Sec(o, ss);
    if off <= o < off + |b| {
      SecMono(off, o, ss);
      SecMono(o, off + |b| - 1, ss);
    }
    OwnerIs(after, top, s, if s in Touched(off, |b|, ss) then top else Owner(layers, top, s));
  }

  /** A sector buffer read at `first` and patched with `buf`; writing it back splices `buf` into the view. */
  function PatchedBuffer(ghost layers: seq<Layer>, ghost t: nat, ghost ss: nat, ghost first: nat, r: nat,
                         buf: seq<byte>, ghost off: nat, ghost size: nat, readBuf: seq<byte>): (data: seq<byte>)
    requires 2 <= |layers| && 0 < ss && size == Start(t, ss)
    requires first + ss <= size && r + |buf| <= ss && off == first + r
    requires readBuf == Fetch(layers, t, ss, first, Zeros(ss))
    ensures |data| == ss
    ensures Splice(View(layers, ss, size), first, data) == Splice(View(layers, ss, size), off, buf)
  {
    FetchIsView(layers, t, ss, first, ss);
    SplicePatched(View(layers, ss, size), first, readBuf, r, buf, off);
    Splice(readBuf, r, buf)
  }

  /** The sector around a small write is aligned, and an error hits the one exactly when it hits the other. */
  lemma {:induction false} SectorAligned(first: nat, off: nat, len: nat, stop: Option<nat>, ss: nat)
    requires 0 < ss && 0 < len
    requires first + Rem(off, ss) == off && Rem(off, ss) + len <= ss
    ensures Rem(first, ss) == 0 && Rem(ss, ss) == 0
    ensures Hits(stop, first, ss, ss) <==> Hits(stop, off, len, ss)
  {
    StartAligned(Sec(off, ss), ss);
    StartAligned(1, ss);
    SecAt(off + len - 1, Sec(off, ss), ss);
    SecAt(first + ss - 1, Sec(off, ss), ss);
  }

  /** What a device error inside the sector at `first` means for a smaller write in that sector. */
  lemma {:induction false} SectorPartial(after: seq<Layer>, head: Layer, view: seq<byte>, ss: nat, first: nat,
                                         data: seq<byte>, off: nat, buf: seq<byte>, n: nat, nominal: nat,
                                         stop: Option<nat>)
    requires 0 < ss && 0 < |buf|
    requires first + Rem(off, ss) == off && Rem(off, ss) + |buf| <= ss == |data|
    requires first + ss <= |view| && off + |buf| <= |view|
    requires Splice(view, first, data) == Splice(view, off, buf) && Hits(stop, off, |buf|, ss)
    requires Partial(after, head, view, ss, first, data, n, stop)
    requires nominal == NominalWrittenBytes(|buf|, n, off, first)
    ensures Partial(after, head, view, ss, off, buf, nominal, stop)
  {
    hide CutAt, Splice;
    SecAt(off + |buf| - 1, Sec(off, ss), ss);
  }

  /** An unaligned write of `len` bytes at `off`: a head up to `head`, whole sectors up to `tail`, and a tail. */
  ghost predicate Pieces(off: nat, len: nat, ss: nat, cut: nat, m: int, t: nat, head: nat, tail: int)
    requires 0 < ss
  {
    && cut == ss - Rem(off, ss) < len && t == Rem(off + len, ss) && cut + m + t == len
    && head == off + cut && tail == head + m
  }

  lemma {:induction false} PiecesAligned(off: nat, len: nat, ss: nat, cut: nat, m: int, t: nat, head: nat, tail: int)
    requires 0 < ss
    requires Pieces(off, len, ss, cut, m, t, head, tail)
    ensures 0 <= m && head <= tail
    ensures head == Start(Sec(off, ss) + 1, ss) && tail == Start(Sec(off + len, ss), ss)
    ensures Rem(head, ss) == 0 && Rem(m, ss) == 0 && Rem(tail, ss) == 0
  {
    CutPoints(off, len, ss);
    assert tail - head == m;
  }

  lemma {:induction false} MiddleTouched(head: nat, m: nat, ss: nat, a: nat, b: nat)
    requires 0 < ss
    requires Rem(head, ss) == 0 && Rem(m, ss) == 0
    requires head == Start(a, ss) && head + m == Start(b, ss)
    ensures Touched(head, m, ss) == Range(a, b)
  {
    TouchedWhole(head, m, ss);
    StartAligned(a, ss);
    StartAligned(b, ss);
    AlignedAdd(head, m, ss);
  }

  /** A non-empty extent that ends at `end` touches the sectors up to the one of its last byte. */
  lemma {:induction false} TouchedUpTo(off: nat, len: nat, ss: nat, end: nat, a: nat, b: nat)
    requires 0 < ss && 0 < len && end == off + len
    requires a == Sec(off, ss) && b == Sec(end, ss)
    ensures a <= b
    ensures Touched(off, len, ss) == if 0 < Rem(end, ss) then Range(a, b + 1) else Range(a, b)
  {
    SecMono(off, end, ss);
    assert end - 1 == off + len - 1;
    if 0 < Rem(end, ss) {
      SecAt(end - 1, b, ss);
    } else {
      SecAt(end - 1, b - 1, ss);
    }
  }

  lemma {:induction false} NothingTouched(off: nat, ss: nat)
    requires 0 < ss
    ensures Touched(off, 0, ss) == {}
  {
  }

  /** The sectors of the pieces are the sectors of the whole write, in order. */
  lemma {:induction false} PiecesTouched(off: nat, len: nat, ss: nat, cut: nat, m: nat, t: nat, head: nat, tail: nat,
                                         a: nat, b: nat)
    requires 0 < ss
    requires Pieces(off, len, ss, cut, m, t, head, tail)
    requires a == Sec(off, ss) && b == Sec(off + len, ss)
    ensures a < b && head == Start(a + 1, ss) && tail == Start(b, ss)
    ensures Touched(off, cut, ss) == Range(a, a + 1)
    ensures Touched(head, m, ss) == Range(a + 1, b)
    ensures Touched(tail, t, ss) == if 0 < t then Range(b, b + 1) else {}
    ensures Touched(off, len, ss) == if 0 < t then Range(a, b + 1) else Range(a, b)
  {
    hide Touched;
    var end := off + len;
    PiecesAligned(off, len, ss, cut, m, t, head, tail);
    StartAligned(a + 1, ss);
    StartAligned(b, ss);
    SecMono(head, tail, ss);
    TouchedUpTo(off, len, ss, end, a, b);
    TouchedUpTo(off, cut, ss, head, a, a + 1);
    MiddleTouched(head, m, ss, a + 1, b);
    NothingTouched(tail, ss);
    if 0 < t {
      TouchedUpTo(tail, t, ss, end, b, b);
    }
  }

  /** A device error hits an unaligned write in exactly one of its pieces. */
  lemma {:induction false} PiecesHit(off: nat, len: nat, ss: nat, cut: nat, m: nat, t: nat, head: nat, tail: nat,
                                     stop: Option<nat>)
    requires 0 < ss
    requires Pieces(off, len, ss, cut, m, t, head, tail)
    ensures Hits(stop, off, len, ss) <==> Hits(stop, off, cut, ss) || Hits(stop, head, m, ss) || Hits(stop, tail, t, ss)
    ensures Hits(stop, off, cut, ss) ==> stop.value < head
    ensures Hits(stop, head, m, ss) ==> head <= stop.value < tail
    ensures Hits(stop, tail, t, ss) ==> tail <= stop.value
  {
    hide Touched;
    var a, b := Sec(off, ss), Sec(off + len, ss);
    PiecesTouched(off, len, ss, cut, m, t, head, tail, a, b);
    if stop.Some? {
      WholeSectors(0, a + 1, ss, stop.value);
      WholeSectors(0, b, ss, stop.value);
    }
  }

  /** The head file kept its bytes from `from` on. */
  ghost predicate KeptFrom(before: seq<Layer>, now: seq<Layer>, from: nat) {
    1 <= |before| && 1 <= |now| && forall o: nat :: from <= o ==> TopByte(now, o) == TopByte(before, o)
  }

  function TopByte(layers: seq<Layer>, o: nat): byte
    requires 1 <= |layers|
  {
    FileByte(layers[|layers| - 1], o)
  }

  lemma {:induction false} WrittenKeeps(layers: seq<Layer>, off: nat, b: seq<byte>, ss: nat)
    requires 2 <= |layers| && 0 < ss && off + |b| <= |layers[|layers| - 1].bytes|
    ensures KeptFrom(layers, Written(layers, off, b, ss), off + |b|)
    ensures OnlyHead(layers, Written(layers, off, b, ss))
  {
  }

  lemma {:induction false} NothingWritten(layers: seq<Layer>, from: nat)
    requires 2 <= |layers|
    ensures OnlyHead(layers, layers) && KeptFrom(layers, layers, from)
  {
  }

  lemma {:induction false} KeptMore(before: seq<Layer>, now: seq<Layer>, from: nat, more: nat)
    requires KeptFrom(before, now, from) && from <= more
    ensures KeptFrom(before, now, more)
  {
  }

  /** Two writes to the head are writes to the head. */
  lemma {:induction false} HeadJoins(a: seq<Layer>, b: seq<Layer>, c: seq<Layer>)
    requires OnlyHead(a, b) && OnlyHead(b, c)
    ensures OnlyHead(a, c) && 2 <= |a| == |b| == |c|
  {
  }

  lemma {:induction false} HeadTwice(a: seq<Layer>, b: seq<Layer>)
    requires OnlyHead(a, b)
    ensures 2 <= |a| == |b|
  {
  }

  lemma {:induction false} MarkedSize(before: seq<byte>, now: seq<byte>, a: nat, n: nat, t: nat)
    requires Marked(before, now, a, n, t)
    ensures |now| == |before|
  {
  }

  /** An empty write does nothing, and no error hits it. */
  lemma {:induction false} NothingSpliced(view: seq<byte>, off: nat, buf: seq<byte>, stop: Option<nat>, ss: nat)
    requires off + |buf| <= |view| && buf == [] && 0 < ss
    ensures Splice(view, off, buf) == view && !Hits(stop, off, |buf|, ss)
  {
  }

  lemma {:induction false} PartialStops(layers: seq<Layer>, head: Layer, view: seq<byte>, ss: nat, off: nat,
                                        buf: seq<byte>, n: nat, stop: Option<nat>)
    requires 0 < ss && off + |buf| <= |view| && Partial(layers, head, view, ss, off, buf, n, stop)
    ensures stop.Some?
  {
  }

  /** A failure after the first `cut` bytes of a write got done. */
  lemma {:induction false} PartialAfter(layers: seq<Layer>, before: seq<Layer>, now: seq<Layer>, view: seq<byte>,
                                        done: seq<byte>, ss: nat, off: nat, cut: nat, mid: nat, buf: seq<byte>, n: nat,
                                        total: nat, stop: Option<nat>)
    requires 0 < ss && off + |buf| <= |view| && cut <= |buf| && mid == off + cut && total == cut + n
    requires stop.Some? && mid <= stop.value && KeptFrom(before, now, mid)
    requires Spliced(done, view, off, buf[..cut])
    requires Partial(layers, now[|now| - 1], done, ss, mid, buf[cut..], n, stop)
    ensures Partial(layers, before[|before| - 1], view, ss, off, buf, total, stop)
  {
    SpliceJoin(view, off, buf[..cut], mid, buf[cut..], buf);
    var x, y := before[|before| - 1], now[|now| - 1];
    var want := Splice(view, off, buf);
    assert |done| == |view| && Splice(done, mid, buf[cut..]) == want;
    forall o | 0 <= o < |view|
      ensures CutByte(x, view, want, ss, stop.value, o) == CutByte(y, done, want, ss, stop.value, o)
    {
      if mid <= o {
        assert TopByte(now, o) == TopByte(before, o);
      }
    }
  }

  /** A failure in the first `cut` bytes of a write. */
  lemma {:induction false} PartialPrefix(layers: seq<Layer>, head: Layer, view: seq<byte>, ss: nat, off: nat, cut: nat,
                                         buf: seq<byte>, n: nat, stop: Option<nat>)
    requires 0 < ss && off + |buf| <= |view| && cut <= |buf|
    requires stop.Some? && stop.value < off + cut
    requires Partial(layers, head, view, ss, off, buf[..cut], n, stop)
    ensures Partial(layers, head, view, ss, off, buf, n, stop)
  {
    forall o | 0 <= o < |view|
      ensures CutByte(head, view, Splice(view, off, buf), ss, stop.value, o) ==
              CutByte(head, view, Splice(view, off, buf[..cut]), ss, stop.value, o)
    {
    }
  }

  /** The two parts of a write, one after the other. */
  lemma {:induction false} SplicedJoin(view: seq<byte>, done: seq<byte>, now: seq<byte>, off: nat, cut: nat, mid: nat,
                                       buf: seq<byte>)
    requires off + |buf| <= |view| && cut <= |buf| && mid == off + cut
    requires Spliced(done, view, off, buf[..cut])
    requires Spliced(now, done, mid, buf[cut..])
    ensures Spliced(now, view, off, buf)
  {
    SpliceJoin(view, off, buf[..cut], mid, buf[cut..], buf);
  }

  /**
   A write that fails still marks its whole range, so the table survives the failure exactly
   when the head already held every sector that the device did not reach. (On a stack of one
   file there is nothing to choose between.)
   */
  lemma {:induction false} FailedWriteCache(before: seq<byte>, now: seq<byte>, layers: seq<Layer>, top: nat,
                                            off: nat, buf: seq<byte>, n: nat, ss: nat)
    requires 2 <= |layers| == top + 1 && 0 < ss && n <= |buf|
    requires CacheAgrees(before, layers)
    requires Rem(off, ss) == 0 && Rem(|buf|, ss) == 0 && off + |buf| <= |layers[top].bytes|
    requires off + |buf| <= Start(|before|, ss)
    requires Marked(before, now, Sec(off, ss), Sec(|buf|, ss), top)
    ensures CacheAgrees(now, Written(layers, off, buf[..n], ss)) <==>
            top == 1 || Touched(off, |buf|, ss) - Touched(off, n, ss) <= layers[top].alloc
  {
    var after := Written(layers, off, buf[..n], ss);
    var touched, done := Touched(off, |buf|, ss), Touched(off, n, ss);
    TouchedWhole(off, |buf|, ss);
    TableCovers(off, |buf|, |before|, ss);
    if CacheAgrees(now, after) && top != 1 {
      forall s | s in touched - done
        ensures s in layers[top].alloc
      {
        assert now[s] == top == Owner(after, top, s);
      }
    }
    if top == 1 || touched - done <= layers[top].alloc {
      forall s | 0 <= s < |now| && now[s] != 0
        ensures now[s] == Owner(after, top, s)
      {
        TouchedPrefix(off, n, |buf|, ss);
        OwnerIs(after, top, s, if s in touched then top else Owner(layers, top, s));
      }
    }
  }

  /**
   A write of one sector over a snapshot that fails at once: the table sends the sector to the head, which is empty.
   */
  lemma {:induction false} FailedWriteExample(snapshot: Layer, ss: nat, buf: seq<byte>)
    requires 0 < ss && |buf| == ss
    ensures var layers := [Layer([], {}), snapshot, Layer(Zeros(ss), {})];
            && CacheAgrees([0], layers) && Marked([0], [2], Sec(0, ss), Sec(ss, ss), 2)
            && !CacheAgrees([2], Written(layers, 0, buf[..0], ss))
  {
    var layers := [Layer([], {}), snapshot, Layer(Zeros(ss), {})];
    SecAt(0, 0, ss);
    SecAt(ss, 1, ss);
    TouchedWhole(0, ss, ss);
    assert 0 in Touched(0, ss, ss) && Touched(0, 0, ss) == {};
    FailedWriteCache([0], [2], layers, 2, 0, buf, 0, ss);
  }

  lemma {:induction false} TouchedPrefix(off: nat, n: nat, len: nat, ss: nat)
    requires 0 < ss && n <= len
    ensures Touched(off, n, ss) <= Touched(off, len, ss)
  {
    if 0 < n {
      SecMono(off + n - 1, off + len - 1, ss);
    }
  }
}
