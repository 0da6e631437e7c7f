/**
 Filling the location table from the extent lists of the files
 (pkg/replica/extents.go and the preload loop of pkg/replica/diff_disk.go).
 */
module Extents {
  import opened Sectors
  import opened Layers

  /** One allocated stretch of a file, in bytes; `last` is the file system's end-of-file flag. */
  datatype Extent = Extent(logical: nat, length: nat, last: bool)

  const MAX_EXTENTS_BUFFER: nat := 1024

  function End(e: Extent): nat { e.logical + e.length }

  ghost predicate Covers(e: Extent, ss: nat, s: nat)
    requires 0 < ss
  {
    Sec(e.logical, ss) <= s < Sec(e.logical, ss) + Sec(e.length, ss)
  }

  /** A file's extents: whole sectors, in order, disjoint, with the end flag on the last one only. */
  ghost predicate Layout(extents: seq<Extent>, ss: nat)
    requires 0 < ss
  {
    && (forall i :: 0 <= i < |extents| ==>
          && 0 < extents[i].length
          && Rem(extents[i].logical, ss) == 0 && Rem(extents[i].length, ss) == 0
          && (extents[i].last <==> i == |extents| - 1))
    && (forall i, j :: 0 <= i < j < |extents| ==> End(extents[i]) <= extents[j].logical)
  }

  /** The extents describe exactly the sectors that hold data. */
  ghost predicate Describes(extents: seq<Extent>, alloc: set<nat>, ss: nat)
    requires 0 < ss
  {
    && Layout(extents, ss)
    && forall s :: s in alloc <==> exists i :: 0 <= i < |extents| && Covers(extents[i], ss, s)
  }

  /** The first `max` extents of a file that reach past `start`, as the kernel reports them. */
  function Fiemap(extents: seq<Extent>, start: nat, max: nat): seq<Extent>
  {
    if extents == [] || max == 0 then []
    else if start < End(extents[0]) then [extents[0]] + Fiemap(extents[1..], start, max - 1)
    else Fiemap(extents[1..], start, max)
  }

  /** Once the first `p` extents are behind `start`, the next page is the extents `p` to `q`. */
  lemma {:induction false} FiemapPage(extents: seq<Extent>, ss: nat, start: nat, max: nat, p: nat, q: nat)
    requires 0 < ss && Layout(extents, ss)
    requires p <= q <= |extents| && q == Min(p + max, |extents|)
    requires Between(extents, p, start)
    ensures Fiemap(extents, start, max) == extents[p..q]
  {
    if extents != [] && max != 0 {
      LayoutTail(extents, ss, p, start);
      if p == 0 {
        FiemapPage(extents[1..], ss, start, max - 1, 0, q - 1);
        FirstSlice(extents, q);
      } else {
        FiemapPage(extents[1..], ss, start, max, p - 1, q - 1);
        TailSlice(extents, p, q);
      }
    }
  }

  /** `start` lies between extent `p - 1` and extent `p`. */
  ghost predicate Between(extents: seq<Extent>, p: nat, start: nat)
  {
    && (forall i :: 0 <= i < p <= |extents| ==> End(extents[i]) <= start)
    && (forall i :: p <= i < |extents| ==> start <= extents[i].logical)
  }

  lemma {:induction false} BetweenNext(extents: seq<Extent>, ss: nat, q: nat)
    requires 0 < ss && Layout(extents, ss) && 0 < q <= |extents|
    ensures Between(extents, q, End(extents[q - 1]))
  {
  }

  lemma {:induction false} LayoutTail(extents: seq<Extent>, ss: nat, p: nat, start: nat)
    requires 0 < ss && Layout(extents, ss) && extents != [] && p <= |extents| && Between(extents, p, start)
    ensures Layout(extents[1..], ss) && Between(extents[1..], if p == 0 then 0 else p - 1, start)
  {
  }

  lemma {:induction false} FirstSlice<T>(s: seq<T>, q: nat)
    requires 0 < q <= |s|
    ensures s[0..q] == [s[0]] + s[1..][0..q - 1]
  {
  }

  lemma {:induction false} TailSlice<T>(s: seq<T>, p: nat, q: nat)
    requires 0 < p <= q <= |s|
    ensures s[p..q] == s[1..][p - 1..q - 1]
  {
    forall i | 0 <= i < q - p
      ensures s[p..q][i] == s[1..][p - 1..q - 1][i]
    {
      assert s[p..q][i] == s[p + i] == s[1..][p - 1 + i];
    }
  }

  /** Marks the sectors of one extent. */
  method MarkExtent(table: seq<byte>, e: Extent, ss: nat, index: byte) returns (now: seq<byte>)
    requires 0 < ss
    requires Rem(e.logical, ss) == 0 && Rem(e.length, ss) == 0
    requires Sec(e.logical, ss) + Sec(e.length, ss) <= |table|
    ensures |now| == |table|
    ensures forall s :: 0 <= s < |now| ==> now[s] == if Covers(e, ss, s) then index else table[s]
  {
    now := table;
    var i, k := 0, 0;
    while i < e.length
      invariant i == Start(k, ss) && 0 <= k <= Sec(e.length, ss) && |now| == |table|
      invariant forall s :: 0 <= s < |now| ==>
                  now[s] == if Sec(e.logical, ss) <= s < Sec(e.logical, ss) + k then index else table[s]
      decreases Sec(e.length, ss) - k
    {
      AlignedAdd(e.logical, i, ss);
      StartAligned(k, ss);
      now := now[Sec(e.logical + i, ss) := index];
      i := i + ss;
      k := k + 1;
    }
    if k < Sec(e.length, ss) {
      StartMono(k, Sec(e.length, ss), ss);
    }
  }

  ghost predicate CoveredBy(extents: seq<Extent>, p: nat, ss: nat, s: nat)
    requires 0 < ss && p <= |extents|
  {
    exists i :: 0 <= i < p && Covers(extents[i], ss, s)
  }

  /** The table with the sectors of the first `p` extents marked. */
  ghost predicate MarkedUpTo(extents: seq<Extent>, p: nat, ss: nat, index: byte, table: seq<byte>, now: seq<byte>)
    requires 0 < ss && p <= |extents|
  {
    |now| == |table| &&
    forall s :: 0 <= s < |now| ==> now[s] == if CoveredBy(extents, p, ss, s) then index else table[s]
  }

  /** Marks one page of extents, the ones from `p` on; `done` if the page held the file's last extent. */
  method MarkPage(now: seq<byte>, page: seq<Extent>, ss: nat, index: byte, ghost extents: seq<Extent>, ghost p: nat,
                  ghost table: seq<byte>) returns (next: seq<byte>, done: bool)
    requires 0 < ss && Layout(extents, ss)
    requires forall i :: 0 <= i < |extents| ==> Sec(extents[i].logical, ss) + Sec(extents[i].length, ss) <= |table|
    requires p + |page| <= |extents| && page == extents[p..p + |page|] && page != []
    requires MarkedUpTo(extents, p, ss, index, table, now)
    ensures MarkedUpTo(extents, p + |page|, ss, index, table, next)
    ensures done <==> page[|page| - 1].last
    ensures done ==> p + |page| == |extents|
  {
    next, done := now, false;
    for j := 0 to |page|
      invariant MarkedUpTo(extents, p + j, ss, index, table, next)
      invariant !done && forall k :: 0 <= k < j ==> !page[k].last
    {
      assert page[j] == extents[p + j];
      ghost var before := next;
      next := MarkExtent(next, page[j], ss, index);
      MarkNext(extents, p + j, ss, index, table, before, next);
      if page[j].last {
        done := true;
        return;
      }
    }
  }

  /** Marks every allocated sector of a file, reading its extents page by page. */
  method LoadDiffDiskLocationList(table: seq<byte>, extents: seq<Extent>, ss: nat, index: byte) returns (now: seq<byte>)
    requires 0 < ss && Layout(extents, ss)
    requires forall i :: 0 <= i < |extents| ==> Sec(extents[i].logical, ss) + Sec(extents[i].length, ss) <= |table|
    ensures MarkedUpTo(extents, |extents|, ss, index, table, now)
  {
    now := table;
    var start: nat := 0;
    ghost var p := 0;
    var done;
    while true
      invariant 0 <= p <= |extents|
      invariant MarkedUpTo(extents, p, ss, index, table, now)
      invariant Between(extents, p, start)
      decreases |extents| - p
    {
      var page := Fiemap(extents, start, MAX_EXTENTS_BUFFER);
      FiemapPage(extents, ss, start, MAX_EXTENTS_BUFFER, p, Min(p + MAX_EXTENTS_BUFFER, |extents|));
      if |page| == 0 {
        return;
      }
      now, done := MarkPage(now, page, ss, index, extents, p, table);
      p := p + |page|;
      if done {
        return;
      }
      BetweenNext(extents, ss, p);
      start := End(page[|page| - 1]);
    }
  }

  lemma {:induction false} MarkNext(extents: seq<Extent>, p: nat, ss: nat, index: byte, table: seq<byte>,
                                    before: seq<byte>, now: seq<byte>)
    requires 0 < ss && p < |extents| && |now| == |table|
    requires MarkedUpTo(extents, p, ss, index, table, before)
    requires forall s :: 0 <= s < |now| ==> now[s] == if Covers(extents[p], ss, s) then index else before[s]
    ensures MarkedUpTo(extents, p + 1, ss, index, table, now)
  {
    forall s | 0 <= s < |now|
      ensures now[s] == if CoveredBy(extents, p + 1, ss, s) then index else table[s]
    {
      assert CoveredBy(extents, p + 1, ss, s) <==> CoveredBy(extents, p, ss, s) || Covers(extents[p], ss, s);
    }
  }

  /** For a described file, marking its extents marks its allocated sectors. */
  lemma {:induction false} MarkedAlloc(extents: seq<Extent>, alloc: set<nat>, ss: nat, index: byte, table: seq<byte>,
                                       now: seq<byte>, s: nat)
    requires 0 < ss && Describes(extents, alloc, ss)
    requires MarkedUpTo(extents, |extents|, ss, index, table, now) && s < |now|
    ensures now[s] == if s in alloc then index else table[s]
  {
    assert s in alloc <==> CoveredBy(extents, |extents|, ss, s);
  }

  /** Extents of a file whose data fits the table stay inside the table. */
  lemma {:induction false} LayoutFits(extents: seq<Extent>, alloc: set<nat>, ss: nat, t: nat, i: nat)
    requires 0 < ss && Describes(extents, alloc, ss) && i < |extents|
    requires forall s :: s in alloc ==> s < t
    ensures Sec(extents[i].logical, ss) + Sec(extents[i].length, ss) <= t
  {
    var e := extents[i];
    var last := Sec(e.logical, ss) + Sec(e.length, ss) - 1;
    assert Covers(e, ss, last);
    assert last in alloc;
  }
}
