/**
 One write or read of the replicated engine as a step over the replicas' modes and
 contents (pkg/controller/control.go, replicator.go, multi_writer_at.go), and why the
 replicas that stay read-write after any run hold the same bytes.
 */
module EngineSpec {
  import opened Sectors
  import opened Layers

  type Addr = string

  datatype Mode = RW | WO | ERR

  /** What a replica did with a write: all of it, a prefix until its disk was full, or anything. */
  datatype Result = Done | NoSpace(written: nat) | Fault(left: seq<byte>)

  datatype Failure = OutOfRange | NoBackend | NoSpaceLeft | ReadFailed | WriteFailed

  /** The bytes of a replica after a write of `p` at `off` that ended with `r`. */
  function After(d: seq<byte>, off: nat, p: seq<byte>, r: Result): seq<byte>
    requires off + |p| <= |d|
  {
    match r
    case Done => Splice(d, off, p)
    case NoSpace(n) => Splice(d, off, p[..Min(n, |p|)])
    case Fault(left) => left
  }

  function InMode(modes: map<Addr, Mode>, m: Mode): set<Addr> {
    set a | a in modes && modes[a] == m
  }

  /** The modes after the replicas `bad` were set to ERR. */
  function Demote(modes: map<Addr, Mode>, bad: set<Addr>): (r: map<Addr, Mode>)
    ensures r.Keys == modes.Keys
    ensures forall a :: a in r ==> r[a] == if a in bad then ERR else modes[a]
  {
    map a | a in modes :: if a in bad then ERR else modes[a]
  }

  // ---------------------------------------------------------------- who stays when every disk is full

  /** The replicas that wrote exactly `w` bytes. */
  function Class(wb: map<Addr, nat>, w: nat): set<Addr> {
    set a | a in wb && wb[a] == w
  }

  /** `w` is the written count of the largest class, the larger count among equally large ones. */
  ghost predicate Best(wb: map<Addr, nat>, w: nat) {
    && Class(wb, w) != {}
    && forall v: nat :: Class(wb, v) != {} ==>
        |Class(wb, v)| < |Class(wb, w)| || (|Class(wb, v)| == |Class(wb, w)| && v <= w)
  }

  /** There is one best class, so the retained replicas do not depend on the order of any iteration. */
  lemma {:induction false} BestUnique(wb: map<Addr, nat>, v: nat, w: nat)
    requires Best(wb, v) && Best(wb, w)
    ensures v == w
  {
    assert Class(wb, v) != {} && Class(wb, w) != {};
  }

  /** The written bytes of the replicas among `some`. */
  function Only(wb: map<Addr, nat>, some: set<Addr>): map<Addr, nat> {
    map a | a in wb && a in some :: wb[a]
  }

  // ---------------------------------------------------------------- handling the errors of an operation

  /** Every replica that is read-write after the faulty ones are gone ran out of space. */
  ghost predicate AllFull(modes: map<Addr, Mode>, faulty: set<Addr>, wb: map<Addr, nat>) {
    wb.Keys != {} && InMode(Demote(modes, faulty), RW) <= wb.Keys
  }

  /** `now` are the modes after faults at `faulty` and full disks at the replicas of `wb` were handled. */
  ghost predicate Handled(modes: map<Addr, Mode>, faulty: set<Addr>, wb: map<Addr, nat>, now: map<Addr, Mode>) {
    var left := Demote(modes, faulty);
    var rw := InMode(left, RW);
    if AllFull(modes, faulty, wb) && rw != {} then
      exists w :: Best(Only(wb, rw), w) && now == Demote(left, wb.Keys - Class(Only(wb, rw), w))
    else now == Demote(left, wb.Keys)
  }

  /** A replica that is still read-write was read-write before, and did not fault. */
  lemma {:induction false} Survivor(modes: map<Addr, Mode>, faulty: set<Addr>, wb: map<Addr, nat>, now: map<Addr, Mode>,
                                    a: Addr)
    requires Handled(modes, faulty, wb, now) && a in now && now[a] == RW
    ensures a in modes && modes[a] == RW && a !in faulty
    ensures a in wb <==> AllFull(modes, faulty, wb)
  {
    var left := Demote(modes, faulty);
    assert a in left && left[a] == RW;
    assert a in InMode(left, RW);
  }

  /** A replica that neither faulted nor filled up keeps its mode. */
  lemma {:induction false} HealthyStays(modes: map<Addr, Mode>, faulty: set<Addr>, wb: map<Addr, nat>,
                                        now: map<Addr, Mode>, a: Addr)
    requires Handled(modes, faulty, wb, now) && a in modes && a !in faulty && a !in wb
    ensures a in now && now[a] == modes[a]
  {
  }

  /** The survivors of full disks everywhere are a largest class of equal written bytes, the one with the most bytes. */
  lemma {:induction false} SurvivorsLargest(modes: map<Addr, Mode>, faulty: set<Addr>, wb: map<Addr, nat>,
                                            now: map<Addr, Mode>, w: nat)
    requires Handled(modes, faulty, wb, now) && AllFull(modes, faulty, wb)
    requires Best(Only(wb, InMode(Demote(modes, faulty), RW)), w)
    ensures InMode(now, RW) == Class(Only(wb, InMode(Demote(modes, faulty), RW)), w)
  {
    var left := Demote(modes, faulty);
    var rw := InMode(left, RW);
    assert Class(Only(wb, rw), w) != {};
    var v :| Best(Only(wb, rw), v) && now == Demote(left, wb.Keys - Class(Only(wb, rw), v));
    BestUnique(Only(wb, rw), v, w);
  }

  /** Counted out: the survivors wrote equally much, and no other such group is larger, or as large with more. */
  lemma {:induction false} SurvivorsMost(modes: map<Addr, Mode>, faulty: set<Addr>, wb: map<Addr, nat>,
                                         now: map<Addr, Mode>, v: nat)
    requires Handled(modes, faulty, wb, now) && AllFull(modes, faulty, wb)
    requires exists a :: a in modes && modes[a] == RW && a !in faulty
    ensures var full := set a | a in wb && a in modes && modes[a] == RW && a !in faulty;
            var others := set a | a in full && wb[a] == v;
            && InMode(now, RW) != {} && InMode(now, RW) <= full && |others| <= |InMode(now, RW)|
            && (forall a :: a in InMode(now, RW) ==> |others| == |InMode(now, RW)| ==> v <= wb[a])
            && (forall a, b :: a in InMode(now, RW) && b in InMode(now, RW) ==> wb[a] == wb[b])
  {
    var left := Demote(modes, faulty);
    var rw := InMode(left, RW);
    var a :| a in modes && modes[a] == RW && a !in faulty;
    assert a in rw;
    var w :| Best(Only(wb, rw), w) && now == Demote(left, wb.Keys - Class(Only(wb, rw), w));
    SurvivorsLargest(modes, faulty, wb, now, w);
    var full := set a | a in wb && a in modes && modes[a] == RW && a !in faulty;
    assert (set a | a in full && wb[a] == v) == Class(Only(wb, rw), v);
  }

  /** If every failure was a full disk and a replica was read-write, one stays read-write. */
  lemma {:induction false} SomeoneStays(modes: map<Addr, Mode>, wb: map<Addr, nat>, now: map<Addr, Mode>)
    requires Handled(modes, {}, wb, now) && InMode(modes, RW) != {}
    ensures InMode(now, RW) != {}
  {
    var left := Demote(modes, {});
    var rw := InMode(left, RW);
    assert rw == InMode(modes, RW);
    if AllFull(modes, {}, wb) {
      var w :| Best(Only(wb, rw), w) && now == Demote(left, wb.Keys - Class(Only(wb, rw), w));
      var a :| a in Class(Only(wb, rw), w);
      assert a in InMode(now, RW);
    } else if wb.Keys != {} {
      var a :| a in rw && a !in wb;
      assert a in InMode(now, RW);
    } else {
      var a :| a in rw;
      assert a in InMode(now, RW);
    }
  }

  // ---------------------------------------------------------------- a write

  /** The non-ERR replicas all took part in the write. */
  ghost predicate Answered(modes: map<Addr, Mode>, results: map<Addr, Result>) {
    forall a :: a in modes && modes[a] != ERR ==> a in results
  }

  function Faulty(modes: map<Addr, Mode>, results: map<Addr, Result>): set<Addr> {
    set a | a in modes && modes[a] != ERR && a in results && results[a].Fault?
  }

  function FullAt(modes: map<Addr, Mode>, results: map<Addr, Result>): map<Addr, nat> {
    map a | a in modes && modes[a] != ERR && a in results && results[a].NoSpace? :: results[a].written
  }

  /** The contents of the replicas after a write. */
  function Contents(modes: map<Addr, Mode>, data: map<Addr, seq<byte>>, off: nat, p: seq<byte>,
                    results: map<Addr, Result>): map<Addr, seq<byte>>
    requires forall a :: a in data ==> off + |p| <= |data[a]|
  {
    map a | a in data ::
        if a in modes && modes[a] != ERR && a in results then After(data[a], off, p, results[a]) else data[a]
  }

  /** Every read-write replica holds the bytes `d`. */
  ghost predicate Agree(modes: map<Addr, Mode>, data: map<Addr, seq<byte>>, d: seq<byte>) {
    forall a :: a in modes && modes[a] == RW ==> a in data && data[a] == d
  }

  /** What a write did to the flat disk: all of it, or with every disk full a prefix of it. */
  ghost predicate FlatWrite(d: seq<byte>, off: nat, p: seq<byte>, full: bool, d': seq<byte>)
    requires off + |p| <= |d|
  {
    if full then exists n :: 0 <= n <= |p| && d' == Splice(d, off, p[..n]) else d' == Splice(d, off, p)
  }

  /** The survivors of a write that filled every disk wrote the same number of bytes. */
  lemma {:induction false} SurvivorsEqual(modes: map<Addr, Mode>, faulty: set<Addr>, wb: map<Addr, nat>,
                                          now: map<Addr, Mode>, a: Addr, b: Addr)
    requires Handled(modes, faulty, wb, now) && AllFull(modes, faulty, wb)
    requires a in now && now[a] == RW && b in now && now[b] == RW
    ensures a in wb && b in wb && wb[a] == wb[b]
  {
    Survivor(modes, faulty, wb, now, a);
    Survivor(modes, faulty, wb, now, b);
    var left := Demote(modes, faulty);
    var rw := InMode(left, RW);
    assert a in rw && b in rw;
    var w :| Best(Only(wb, rw), w) && now == Demote(left, wb.Keys - Class(Only(wb, rw), w));
  }

  /** The read-write replicas agree after a write if they agreed before, whatever each of them did. */
  lemma {:induction false} WriteAgrees(modes: map<Addr, Mode>, data: map<Addr, seq<byte>>, d: seq<byte>, off: nat,
                                       p: seq<byte>, results: map<Addr, Result>, now: map<Addr, Mode>)
    returns (d': seq<byte>)
    requires Agree(modes, data, d) && (forall a :: a in data ==> |data[a]| == |d|) && off + |p| <= |d|
    requires Answered(modes, results) && Handled(modes, Faulty(modes, results), FullAt(modes, results), now)
    ensures |d'| == |d| && FlatWrite(d, off, p, AllFull(modes, Faulty(modes, results), FullAt(modes, results)), d')
    ensures Agree(now, Contents(modes, data, off, p, results), d')
  {
    var faulty, wb := Faulty(modes, results), FullAt(modes, results);
    if !AllFull(modes, faulty, wb) {
      d' := Splice(d, off, p);
      forall a | a in now && now[a] == RW
        ensures a in data && Contents(modes, data, off, p, results)[a] == d'
      {
        Survivor(modes, faulty, wb, now, a);
      }
    } else if a :| a in now && now[a] == RW {
      Survivor(modes, faulty, wb, now, a);
      var n := Min(results[a].written, |p|);
      d' := Splice(d, off, p[..n]);
      forall b | b in now && now[b] == RW
        ensures b in data && Contents(modes, data, off, p, results)[b] == d'
      {
        Survivor(modes, faulty, wb, now, b);
        SurvivorsEqual(modes, faulty, wb, now, a, b);
      }
    } else {
      d' := Splice(d, off, p[..0]);
    }
  }

  /** Handling the faults first and the full disks after them handles all errors. */
  lemma {:induction false} HandledInTurn(modes: map<Addr, Mode>, faulty: set<Addr>, wb: map<Addr, nat>,
                                         left: map<Addr, Mode>, now: map<Addr, Mode>)
    requires left == Demote(modes, faulty) && Handled(left, {}, wb, now)
    ensures Handled(modes, faulty, wb, now)
    ensures AllFull(left, {}, wb) <==> AllFull(modes, faulty, wb)
  {
    assert Demote(left, {}) == left;
  }

  // ---------------------------------------------------------------- what a caller of the engine sees

  /** How a write that reached the replicas ends: who is demoted, and what the caller is told. */
  ghost predicate WriteHandled(modes: map<Addr, Mode>, results: map<Addr, Result>, err: Option<Failure>,
                               now: map<Addr, Mode>) {
    if InMode(modes, RW) == {} then err == Some(NoBackend) && now == modes
    else
      && Handled(modes, Faulty(modes, results), FullAt(modes, results), now)
      && err == if AllFull(modes, Faulty(modes, results), FullAt(modes, results)) then Some(NoSpaceLeft)
                else if InMode(now, RW) != {} then None else Some(WriteFailed)
  }

  /** A replica took the whole write. */
  ghost predicate SomeDone(modes: map<Addr, Mode>, results: map<Addr, Result>) {
    exists a :: a in modes && modes[a] != ERR && a in results && results[a].Done?
  }

  /** The write went out, and a replica took all of it. */
  ghost predicate Taken(modes: map<Addr, Mode>, results: map<Addr, Result>) {
    InMode(modes, RW) != {} && SomeDone(modes, results)
  }

  /** An acknowledged write is complete on a replica. */
  lemma {:induction false} AcknowledgedDone(modes: map<Addr, Mode>, results: map<Addr, Result>, now: map<Addr, Mode>)
    requires WriteHandled(modes, results, None, now) && Answered(modes, results)
    ensures SomeDone(modes, results)
  {
    var a :| a in InMode(now, RW);
    Survivor(modes, Faulty(modes, results), FullAt(modes, results), now, a);
  }

  /** What the flat disk holds after a write that was answered with `err`. */
  ghost predicate WriteOutcome(d: seq<byte>, off: nat, b: seq<byte>, err: Option<Failure>, d': seq<byte>, lost: bool)
    requires off + |b| <= |d|
  {
    match err
    case None => d' == Splice(d, off, b)
    case Some(NoSpaceLeft) => exists n :: 0 <= n <= |b| && d' == Splice(d, off, b[..n])
    case Some(WriteFailed) => lost
    case Some(_) => d' == d
  }

  /**
   If the read-write replicas held the bytes of one flat disk before a write, they hold those of one flat disk
   after it, and the answer tells which: all of the write, a prefix of it, or none of it.
   Only when no replica is left read-write does the answer tell nothing.
   */
  ghost predicate WriteIsFlat(modes: map<Addr, Mode>, data: map<Addr, seq<byte>>, off: nat, b: seq<byte>,
                              err: Option<Failure>, now: map<Addr, Mode>, after: map<Addr, seq<byte>>, size: nat) {
    forall d: seq<byte> :: |d| == size && off + |b| <= size && Agree(modes, data, d) ==>
      exists d' :: |d'| == size && WriteOutcome(d, off, b, err, d', InMode(now, RW) == {}) && Agree(now, after, d')
  }

  // ---------------------------------------------------------------- the steps of an engine

  datatype EngineState = EngineState(modes: map<Addr, Mode>, data: map<Addr, seq<byte>>)

  /**
   What can happen to an engine: writes with whatever each replica did, demotions after failed reads or by hand,
   replicas that join write-only, are reloaded when their files were copied, are promoted, and leave.
   */
  datatype EngineStep =
    | Wrote(off: nat, b: seq<byte>, results: map<Addr, Result>, err: Option<Failure>)
    | Demoted(bad: set<Addr>)
    | Joined(a: Addr, content: seq<byte>)
    | Reloaded(a: Addr, content: seq<byte>)
    | Promoted(a: Addr)
    | Left(a: Addr)

  /** Every replica holds a volume's worth of bytes. */
  ghost predicate Held(modes: map<Addr, Mode>, data: map<Addr, seq<byte>>, size: nat) {
    data.Keys == modes.Keys && forall a :: a in data ==> |data[a]| == size
  }

  /** Faulty replicas keep a volume's worth of bytes. */
  ghost predicate Sized(results: map<Addr, Result>, size: nat) {
    forall a :: a in results && results[a].Fault? ==> |results[a].left| == size
  }

  /** Replica `a` answers a read of `len` bytes at `off` with `buf`. */
  ghost predicate ServedBy(data: map<Addr, seq<byte>>, a: Addr, off: nat, len: nat, buf: seq<byte>) {
    a in data && off + len <= |data[a]| && buf == data[a][off..off + len]
  }

  /**
   The bytes `p` went to every replica that is not in ERR, each did as `results` says, and the errors were handled.
   */
  ghost predicate FannedOut(s: EngineState, off: nat, p: seq<byte>, results: map<Addr, Result>, err: Option<Failure>,
                            s': EngineState, size: nat)
    requires Held(s.modes, s.data, size)
  {
    && off + |p| <= size && Answered(s.modes, results) && Sized(results, size)
    && WriteHandled(s.modes, results, err, s'.modes)
    && s'.data == if err == Some(NoBackend) then s.data else Contents(s.modes, s.data, off, p, results)
  }

  /** A write that goes to the replicas as it is: no replica is write-only, or it consists of whole sectors. */
  ghost predicate Direct(modes: map<Addr, Mode>, off: nat, len: nat, ss: nat)
    requires 0 < ss
  {
    InMode(modes, WO) == {} || len == 0 || (Rem(off, ss) == 0 && Rem(len, ss) == 0)
  }

  /** Whole sectors around `b`, read from a read-write replica. */
  ghost predicate Around(s: EngineState, start: nat, window: seq<byte>, off: nat, b: seq<byte>, ss: nat, size: nat)
    requires 0 < ss
  {
    && Rem(start, ss) == 0 && Rem(|window|, ss) == 0
    && start <= off && off + |b| <= start + |window| <= size
    && exists a :: a in InMode(s.modes, RW) && ServedBy(s.data, a, start, |window|, window)
  }

  /** Instead of `b`, the whole sectors around it were written, patched with `b`. */
  ghost predicate PatchedOut(s: EngineState, start: nat, window: seq<byte>, off: nat, b: seq<byte>,
                             results: map<Addr, Result>, err: Option<Failure>, s': EngineState, ss: nat, size: nat)
    requires 0 < ss && Held(s.modes, s.data, size)
  {
    Around(s, start, window, off, b, ss, size) &&
        FannedOut(s, start, Splice(window, off - start, b), results, err, s', size)
  }

  /** A write of the engine: refused, sent out as it is, or as whole sectors. */
  ghost predicate WriteStep(s: EngineState, off: nat, b: seq<byte>, results: map<Addr, Result>, err: Option<Failure>,
                            s': EngineState, ss: nat, size: nat)
    requires 0 < ss && Held(s.modes, s.data, size)
  {
    if off + |b| > size then err == Some(OutOfRange) && s' == s
    else if Direct(s.modes, off, |b|, ss) then FannedOut(s, off, b, results, err, s', size)
    else
      || (err == Some(ReadFailed) && s' == s)
      || exists start: nat, window :: PatchedOut(s, start, window, off, b, results, err, s', ss, size)
  }

  ghost predicate Stepped(s: EngineState, step: EngineStep, s': EngineState, ss: nat, size: nat)
    requires 0 < ss && Held(s.modes, s.data, size)
  {
    match step
    case Wrote(off, b, results, err) => WriteStep(s, off, b, results, err, s', ss, size)
    case Demoted(bad) => s' == s.(modes := Demote(s.modes, bad))
    case Joined(a, content) =>
      && a !in s.modes && InMode(s.modes, WO) == {} && |content| == size
      && s' == EngineState(s.modes[a := WO], s.data[a := content])
    case Reloaded(a, content) =>
      a in InMode(s.modes, WO) && |content| == size && s' == s.(data := s.data[a := content])
    case Promoted(a) =>
      && a in InMode(s.modes, WO) && s' == s.(modes := s.modes[a := RW])
      && exists r :: r in InMode(s.modes, RW) && s.data[r] == s.data[a]
    case Left(a) => s' == EngineState(s.modes - {a}, s.data - {a})
  }

  // ---------------------------------------------------------------- a step is a step of a flat disk

  /** A write that was fanned out is a write of the flat disk, whatever each replica did. */
  lemma {:induction false} FanOutFlat(s: EngineState, off: nat, p: seq<byte>, results: map<Addr, Result>,
                                      err: Option<Failure>, s': EngineState, size: nat, d: seq<byte>)
    returns (d': seq<byte>)
    requires Held(s.modes, s.data, size) && FannedOut(s, off, p, results, err, s', size)
    requires |d| == size && Agree(s.modes, s.data, d)
    ensures |d'| == size && Agree(s'.modes, s'.data, d')
    ensures WriteOutcome(d, off, p, err, d', InMode(s'.modes, RW) == {})
  {
    if InMode(s.modes, RW) == {} {
      d' := d;
    } else {
      d' := WriteAgrees(s.modes, s.data, d, off, p, results, s'.modes);
    }
  }

  /** Writing back a patched window is the write of the patch, also when the disks filled up on the way. */
  lemma {:induction false} PatchedOutcome(d: seq<byte>, start: nat, window: seq<byte>, off: nat, b: seq<byte>,
                                          err: Option<Failure>, d': seq<byte>, lost: bool)
    requires start + |window| <= |d| && window == d[start..start + |window|]
    requires start <= off && off + |b| <= start + |window|
    requires WriteOutcome(d, start, Splice(window, off - start, b), err, d', lost)
    ensures WriteOutcome(d, off, b, err, d', lost)
  {
    var cut := off - start;
    var patched := Splice(window, cut, b);
    if err.None? {
      SplicePatched(d, start, window, cut, b, off);
    } else if err == Some(NoSpaceLeft) {
      var n :| 0 <= n <= |patched| && d' == Splice(d, start, patched[..n]);
      PatchedPrefix(d, start, window, off, b, cut, patched, n);
    }
  }

  /** A prefix of a patched window is a prefix of the patch. */
  lemma {:induction false} PatchedPrefix(d: seq<byte>, start: nat, window: seq<byte>, off: nat, b: seq<byte>, cut: nat,
                                         patched: seq<byte>, n: nat)
    requires start + |window| <= |d| && window == d[start..start + |window|]
    requires off == start + cut && cut + |b| <= |window|
    requires patched == Splice(window, cut, b) && n <= |patched|
    ensures exists m :: 0 <= m <= |b| && Splice(d, start, patched[..n]) == Splice(d, off, b[..m])
  {
    var m := if n < cut then 0 else if n - cut < |b| then n - cut else |b|;
    assert Splice(d, start, patched[..n]) == Splice(d, off, b[..m]);
  }

  /** A write of patched whole sectors is the write of the patch. */
  lemma {:induction false} PatchedOutFlat(s: EngineState, start: nat, window: seq<byte>, off: nat, b: seq<byte>,
                                          results: map<Addr, Result>, err: Option<Failure>, s': EngineState, ss: nat,
                                          size: nat, d: seq<byte>) returns (d': seq<byte>)
    requires 0 < ss && Held(s.modes, s.data, size) && off + |b| <= size
    requires PatchedOut(s, start, window, off, b, results, err, s', ss, size)
    requires |d| == size && Agree(s.modes, s.data, d)
    ensures |d'| == size && Agree(s'.modes, s'.data, d')
    ensures WriteOutcome(d, off, b, err, d', InMode(s'.modes, RW) == {})
  {
    hide Splice, WriteHandled, Contents, Answered, Sized, WriteOutcome;
    var a :| a in InMode(s.modes, RW) && ServedBy(s.data, a, start, |window|, window);
    assert window == d[start..start + |window|];
    d' := FanOutFlat(s, start, Splice(window, off - start, b), results, err, s', size, d);
    PatchedOutcome(d, start, window, off, b, err, d', InMode(s'.modes, RW) == {});
  }

  /** A write of the engine is a write of the flat disk. */
  lemma {:induction false} WriteFlat(s: EngineState, off: nat, b: seq<byte>, results: map<Addr, Result>,
                                     err: Option<Failure>, s': EngineState, ss: nat, size: nat, d: seq<byte>)
    returns (d': seq<byte>)
    requires 0 < ss && Held(s.modes, s.data, size) && WriteStep(s, off, b, results, err, s', ss, size)
    requires |d| == size && Agree(s.modes, s.data, d) && off + |b| <= size
    ensures |d'| == size && Agree(s'.modes, s'.data, d')
    ensures WriteOutcome(d, off, b, err, d', InMode(s'.modes, RW) == {})
  {
    hide Splice, WriteHandled, Contents, Answered, Sized, WriteOutcome;
    if Direct(s.modes, off, |b|, ss) {
      d' := FanOutFlat(s, off, b, results, err, s', size, d);
    } else if err == Some(ReadFailed) && s' == s {
      d' := d;
      RefusedOutcome(d, off, b, InMode(s'.modes, RW) == {});
    } else {
      var start: nat, window :| PatchedOut(s, start, window, off, b, results, err, s', ss, size);
      d' := PatchedOutFlat(s, start, window, off, b, results, err, s', ss, size, d);
    }
  }

  lemma {:induction false} RefusedOutcome(d: seq<byte>, off: nat, b: seq<byte>, lost: bool)
    requires off + |b| <= |d|
    ensures WriteOutcome(d, off, b, Some(ReadFailed), d, lost)
  {
  }

  /** ... for every disk that the read-write replicas may hold. */
  lemma {:induction false} WriteStepFlat(s: EngineState, off: nat, b: seq<byte>, results: map<Addr, Result>,
                                         err: Option<Failure>, s': EngineState, ss: nat, size: nat)
    requires 0 < ss && Held(s.modes, s.data, size) && WriteStep(s, off, b, results, err, s', ss, size)
    ensures WriteIsFlat(s.modes, s.data, off, b, err, s'.modes, s'.data, size)
  {
    hide WriteStep, WriteOutcome, Agree;
    forall d: seq<byte> | |d| == size && off + |b| <= size && Agree(s.modes, s.data, d)
      ensures exists d' ::
                |d'| == size && WriteOutcome(d, off, b, err, d', InMode(s'.modes, RW) == {}) &&
                Agree(s'.modes, s'.data, d')
    {
      var d' := WriteFlat(s, off, b, results, err, s', ss, size, d);
    }
  }

  /** How the flat disk goes along with a step; once no replica is left read-write, it is lost. */
  ghost predicate FlatStep(d: seq<byte>, step: EngineStep, d': seq<byte>, lost: bool) {
    match step
    case Wrote(off, b, _, err) => if off + |b| <= |d| then WriteOutcome(d, off, b, err, d', lost) else d' == d
    case _ => d' == d
  }

  /** One step of the engine is one step of the flat disk that its read-write replicas hold. */
  lemma {:induction false} StepFlat(s: EngineState, step: EngineStep, s': EngineState, ss: nat, size: nat, d: seq<byte>)
    returns (d': seq<byte>)
    requires 0 < ss && Held(s.modes, s.data, size) && Stepped(s, step, s', ss, size)
    requires |d| == size && Agree(s.modes, s.data, d)
    ensures |d'| == size && Agree(s'.modes, s'.data, d') && FlatStep(d, step, d', InMode(s'.modes, RW) == {})
  {
    hide WriteOutcome;
    d' := d;
    if step.Wrote? && step.off + |step.b| <= size {
      d' := WriteFlat(s, step.off, step.b, step.results, step.err, s', ss, size, d);
    }
  }

  /** Replicas keep their size. */
  lemma {:induction false} StepHeld(s: EngineState, step: EngineStep, s': EngineState, ss: nat, size: nat)
    requires 0 < ss && Held(s.modes, s.data, size) && Stepped(s, step, s', ss, size)
    ensures Held(s'.modes, s'.data, size)
  {
    if step.Wrote? && s' != s {
      if Direct(s.modes, step.off, |step.b|, ss) {
        FanOutHeld(s, step.off, step.b, step.results, step.err, s', size);
      } else {
        var start: nat, window :| PatchedOut(s, start, window, step.off, step.b, step.results, step.err, s', ss, size);
        FanOutHeld(s, start, Splice(window, step.off - start, step.b), step.results, step.err, s', size);
      }
    }
  }

  lemma {:induction false} FanOutHeld(s: EngineState, off: nat, p: seq<byte>, results: map<Addr, Result>,
                                      err: Option<Failure>, s': EngineState, size: nat)
    requires Held(s.modes, s.data, size) && FannedOut(s, off, p, results, err, s', size)
    ensures Held(s'.modes, s'.data, size)
  {
  }

  /**
   Why a write that fills every read-write disk is not mirrored: a read-write replica that stopped after `n` bytes and a
   write-only one that took the write both stay, and hold the same bytes exactly if the rest of the write changed
   nothing.
   */
  lemma {:induction false} FullDiskSplits(r: Addr, w: Addr, d: seq<byte>, off: nat, p: seq<byte>, n: nat)
    requires r != w && off + |p| <= |d| && n <= |p|
    ensures var s := EngineState(map[r := RW, w := WO], map[r := d, w := d]);
            var results := map[r := NoSpace(n), w := Done];
            var s' := s.(data := map[r := Splice(d, off, p[..n]), w := Splice(d, off, p)]);
            && Held(s.modes, s.data, |d|) && FannedOut(s, off, p, results, Some(NoSpaceLeft), s', |d|)
            && (s'.data[r] == s'.data[w] <==> forall k :: n <= k < |p| ==> p[k] == d[off + k])
  {
    hide WriteHandled, Splice;
    var modes, data := map[r := RW, w := WO], map[r := d, w := d];
    var results := map[r := NoSpace(n), w := Done];
    FullDiskHandled(r, w, n, results, modes);
    FullDiskContents(r, w, d, off, p, n, modes, data, results);
    SplitBytes(d, off, p, n);
  }

  lemma {:induction false} FullDiskContents(r: Addr, w: Addr, d: seq<byte>, off: nat, p: seq<byte>, n: nat,
                                            modes: map<Addr, Mode>, data: map<Addr, seq<byte>>,
                                            results: map<Addr, Result>)
    requires r != w && off + |p| <= |d| && n <= |p|
    requires modes == map[r := RW, w := WO] && data == map[r := d, w := d] && results == map[r := NoSpace(n), w := Done]
    ensures Contents(modes, data, off, p, results) == map[r := Splice(d, off, p[..n]), w := Splice(d, off, p)]
  {
    hide Splice;
    assert Min(n, |p|) == n;
  }

  lemma {:induction false} FullDiskHandled(r: Addr, w: Addr, n: nat, results: map<Addr, Result>, modes: map<Addr, Mode>)
    requires r != w && modes == map[r := RW, w := WO] && results == map[r := NoSpace(n), w := Done]
    ensures WriteHandled(modes, results, Some(NoSpaceLeft), modes)
  {
    var wb := map[r := n];
    assert Faulty(modes, results) == {} && FullAt(modes, results) == wb;
    var left := Demote(modes, {});
    assert left == modes && InMode(modes, RW) == {r};
    assert Only(wb, {r}) == wb && Class(wb, n) == {r};
    forall v: nat | Class(wb, v) != {}
      ensures v == n
    {
      var a :| a in Class(wb, v);
    }
    assert Best(wb, n);
    assert modes == Demote(left, wb.Keys - Class(wb, n));
  }

  lemma {:induction false} SplitBytes(d: seq<byte>, off: nat, p: seq<byte>, n: nat)
    requires off + |p| <= |d| && n <= |p|
    ensures Splice(d, off, p[..n]) == Splice(d, off, p) <==> forall k :: n <= k < |p| ==> p[k] == d[off + k]
  {
    var x, y := Splice(d, off, p[..n]), Splice(d, off, p);
    if forall k :: n <= k < |p| ==> p[k] == d[off + k] {
      forall o | 0 <= o < |d|
        ensures x[o] == y[o]
      {
        if off + n <= o < off + |p| {
          assert p[o - off] == d[off + (o - off)];
        }
      }
    } else {
      var k :| n <= k < |p| && p[k] != d[off + k];
      assert x[off + k] != y[off + k];
    }
  }

  // ---------------------------------------------------------------- runs of the engine

  /** A run: a state whose replicas hold a volume's worth of bytes takes its step. */
  ghost predicate EngineRun(states: seq<EngineState>, steps: seq<EngineStep>, ss: nat, size: nat) {
    && 0 < ss && |states| == |steps| + 1 && Held(states[0].modes, states[0].data, size)
    && forall i :: 0 <= i < |steps| ==> Took(states[i], steps[i], states[i + 1], ss, size)
  }

  ghost predicate Took(s: EngineState, step: EngineStep, s': EngineState, ss: nat, size: nat) {
    0 < ss && Held(s.modes, s.data, size) ==> Stepped(s, step, s', ss, size)
  }

  /**
   Every run of the engine is a run of one flat disk: a sequence of disks that changes only by writes, each as
   its answer says, such that at every moment all read-write replicas hold exactly the disk of that moment.
   */
  lemma {:induction false} RunFlat(states: seq<EngineState>, steps: seq<EngineStep>, ss: nat, size: nat, d: seq<byte>)
    returns (disks: seq<seq<byte>>)
    requires EngineRun(states, steps, ss, size) && |d| == size && Agree(states[0].modes, states[0].data, d)
    ensures |disks| == |states| && disks[0] == d
    ensures forall i :: 0 <= i < |disks| ==>
              && |disks[i]| == size && Agree(states[i].modes, states[i].data, disks[i])
              && Held(states[i].modes, states[i].data, size)
    ensures forall i :: 0 <= i < |steps| ==>
              FlatStep(disks[i], steps[i], disks[i + 1], InMode(states[i + 1].modes, RW) == {})
    decreases |steps|
  {
    hide Agree, Stepped, FlatStep, InMode, Held;
    disks := [d];
    if steps != [] {
      var last := |steps| - 1;
      var before := RunFlat(states[..last + 1], steps[..last], ss, size, d);
      assert Took(states[last], steps[last], states[last + 1], ss, size);
      var d' := StepFlat(states[last], steps[last], states[last + 1], ss, size, before[last]);
      StepHeld(states[last], steps[last], states[last + 1], ss, size);
      disks := before + [d'];
    }
  }

  /** Over a whole run, any two read-write replicas hold the same bytes. */
  lemma {:induction false} RunAgrees(states: seq<EngineState>, steps: seq<EngineStep>, ss: nat, size: nat, d: seq<byte>,
                                     i: nat, a: Addr, b: Addr)
    requires EngineRun(states, steps, ss, size) && |d| == size && Agree(states[0].modes, states[0].data, d)
    requires i < |states| && a in InMode(states[i].modes, RW) && b in InMode(states[i].modes, RW)
    ensures a in states[i].data && b in states[i].data && states[i].data[a] == states[i].data[b]
  {
    var disks := RunFlat(states, steps, ss, size, d);
    assert Agree(states[i].modes, states[i].data, disks[i]);
  }
}
