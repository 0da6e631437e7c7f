/**
 The engine controller and its replicator (pkg/controller/control.go, replicator.go, multi_writer_at.go). What the
 replicas do is an input: `results` says how each of them answers a write and `broken` which of them fail a read.
 */
module Engines {
  import opened Sectors
  import opened Sets
  import opened Layers
  import opened EngineSpec

  datatype Info = Info(address: Addr, mode: Mode)

  // ---------------------------------------------------------------- who stays when every disk is full

  /** The replicas of `wb`, grouped by their written bytes. */
  ghost predicate Grouped(groups: map<nat, set<Addr>>, wb: map<Addr, nat>) {
    && (forall w :: w in groups <==> Class(wb, w) != {})
    && (forall w :: w in groups ==> groups[w] == Class(wb, w))
  }

  method GroupByWrittenBytes(wb: map<Addr, nat>) returns (groups: map<nat, set<Addr>>)
    ensures Grouped(groups, wb)
    ensures groups == map[] ==> wb == map[]
  {
    groups := map[];
    var todo := wb.Keys;
    while todo != {}
      invariant todo <= wb.Keys && Grouped(groups, Only(wb, wb.Keys - todo))
      invariant groups == map[] ==> todo == wb.Keys
      decreases |todo|
    {
      var address :| address in todo;
      var w := wb[address];
      GroupNext(groups, wb, wb.Keys - todo, address);
      assert wb.Keys - (todo - {address}) == (wb.Keys - todo) + {address};
      groups := groups[w := (if w in groups then groups[w] else {}) + {address}];
      todo := todo - {address};
    }
    assert Only(wb, wb.Keys - todo) == wb;
  }

  lemma {:induction false} GroupNext(groups: map<nat, set<Addr>>, wb: map<Addr, nat>, done: set<Addr>, a: Addr)
    requires Grouped(groups, Only(wb, done)) && a in wb && a !in done
    ensures Grouped(groups[wb[a] := (if wb[a] in groups then groups[wb[a]] else {}) + {a}], Only(wb, done + {a}))
  {
    forall w
      ensures Class(Only(wb, done + {a}), w) == Class(Only(wb, done), w) + if w == wb[a] then {a} else {}
    {
    }
  }

  /** The replicas to keep read-write when the disks of all of them are full. */
  method GetRetainedReplicas(wb: map<Addr, nat>) returns (retained: set<Addr>)
    ensures wb == map[] ==> retained == {}
    ensures wb != map[] ==> exists w :: Best(wb, w) && retained == Class(wb, w)
  {
    var groups := GroupByWrittenBytes(wb);
    var maxReplicasNum: nat := 0;
    var list: seq<nat> := [];
    var todo := groups.Keys;
    while todo != {}
      invariant todo <= groups.Keys
      invariant forall w :: w in groups.Keys - todo ==>
                  |groups[w]| <= maxReplicasNum && (|groups[w]| == maxReplicasNum ==> w in list)
      invariant forall w :: w in list ==> w in groups.Keys - todo && |groups[w]| == maxReplicasNum
      invariant list == [] ==> todo == groups.Keys && maxReplicasNum == 0
      decreases |todo|
    {
      var w :| w in todo;
      if |groups[w]| > maxReplicasNum {
        maxReplicasNum, list := |groups[w]|, [w];
      } else if |groups[w]| == maxReplicasNum {
        list := list + [w];
      }
      todo := todo - {w};
    }
    var maxWrittenBytes: int := -1;
    for i := 0 to |list|
      invariant maxWrittenBytes == -1 <==> i == 0
      invariant i > 0 ==> maxWrittenBytes in list
      invariant forall k :: 0 <= k < i ==> list[k] <= maxWrittenBytes
    {
      if list[i] > maxWrittenBytes {
        maxWrittenBytes := list[i];
      }
    }
    if maxWrittenBytes < 0 {
      return {};
    }
    BestFound(wb, groups, maxReplicasNum, list, maxWrittenBytes);
    return groups[maxWrittenBytes];
  }

  lemma {:induction false} BestFound(wb: map<Addr, nat>, groups: map<nat, set<Addr>>, most: nat, list: seq<nat>, w: nat)
    requires Grouped(groups, wb)
    requires forall v :: v in groups ==> |groups[v]| <= most && (|groups[v]| == most ==> v in list)
    requires w in groups && |groups[w]| == most && forall k :: 0 <= k < |list| ==> list[k] <= w
    ensures Best(wb, w)
  {
    forall v: nat | Class(wb, v) != {}
      ensures |Class(wb, v)| < |Class(wb, w)| || (|Class(wb, v)| == |Class(wb, w)| && v <= w)
    {
      assert v in groups;
    }
  }

  // ---------------------------------------------------------------- the controller

  /** The controller's list and the replicator's map name the same replicas with the same modes. */
  ghost predicate Synced(replicas: seq<Info>, modes: map<Addr, Mode>) {
    Distinct(replicas) && Matches(replicas, modes) && forall a :: a in modes ==> Named(replicas, a)
  }

  ghost predicate Distinct(replicas: seq<Info>) {
    forall i, j :: 0 <= i < j < |replicas| ==> replicas[i].address != replicas[j].address
  }

  ghost predicate Matches(replicas: seq<Info>, modes: map<Addr, Mode>) {
    forall i :: 0 <= i < |replicas| ==> replicas[i].address in modes && modes[replicas[i].address] == replicas[i].mode
  }

  ghost predicate Named(replicas: seq<Info>, a: Addr) {
    exists i :: 0 <= i < |replicas| && replicas[i].address == a
  }

  ghost predicate Lists(list: seq<Addr>, some: set<Addr>) {
    && (forall a :: a in list <==> a in some)
    && (forall i, j :: 0 <= i < j < |list| ==> list[i] != list[j])
  }

  class Controller {
    const size: nat
    const ss: nat
    var replicas: seq<Info>
    var backends: map<Addr, Mode>
    var readers: seq<Addr>
    var writers: seq<Addr>
    var next: nat
    var isExpanding: bool
    var data: map<Addr, seq<byte>>   // the bytes each replica holds

    ghost predicate Valid()
      reads this
    {
      && 0 < ss && Rem(size, ss) == 0
      && Synced(replicas, backends)
      && Lists(readers, InMode(backends, RW)) && Lists(writers, InMode(backends, RW) + InMode(backends, WO))
      && Held(backends, data, size)
    }

    /** The modes and the contents of the replicas. */
    ghost function State(): EngineState
      reads this
    {
      EngineState(backends, data)
    }

    constructor (size: nat, ss: nat)
      requires 0 < ss && Rem(size, ss) == 0
      ensures Valid() && this.size == size && this.ss == ss && backends == map[] && next == 0 && !isExpanding
    {
      this.size, this.ss := size, ss;
      replicas, backends, readers, writers, next, isExpanding, data := [], map[], [], [], 0, false, map[];
    }

    /** Rebuilds the lists of readers and writers, in whatever order the map yields its entries. */
    method BuildReaderWriters()
      modifies this`readers, this`writers
      ensures Lists(readers, InMode(backends, RW)) && Lists(writers, InMode(backends, RW) + InMode(backends, WO))
    {
      var rs: seq<Addr>, ws: seq<Addr> := [], [];
      var todo := backends.Keys;
      while todo != {}
        invariant todo <= backends.Keys
        invariant Lists(rs, InMode(backends, RW) - todo)
        invariant Lists(ws, InMode(backends, RW) + InMode(backends, WO) - todo)
        decreases |todo|
        modifies {}
      {
        var address :| address in todo;
        if backends[address] != ERR {
          ws := ws + [address];
        }
        if backends[address] == RW {
          rs := rs + [address];
        }
        todo := todo - {address};
      }
      readers, writers := rs, ws;
    }

    /** Sets the mode of a replica, unless it is in ERR already. */
    method SetReplicaMode(address: Addr, mode: Mode)
      requires Valid()
      modifies this`replicas, this`backends, this`readers, this`writers
      ensures Valid()
      ensures backends == if address in old(backends) &&
              old(backends)[address] != ERR then old(backends)[address := mode] else old(backends)
    {
      hide Synced, Lists, InMode;
      var list, hit := SetInList(replicas, backends, address, mode);
      replicas := list;
      if hit {
        backends := backends[address := mode];
        BuildReaderWriters();
      }
    }

    /**
     Adds a replica that holds `content`; a replica that is there already, a second write-only one, and any during an
     expansion are refused.
     */
    method AddReplica(address: Addr, mode: Mode, content: seq<byte>) returns (ok: bool)
      requires Valid() && |content| == size
      modifies this`replicas, this`backends, this`readers, this`writers, this`data
      ensures Valid()
      ensures ok <==> address !in old(backends) && InMode(old(backends), WO) == {} && !isExpanding
      ensures !ok ==> backends == old(backends) && data == old(data)
      ensures ok ==> backends == old(backends)[address := mode] && data == old(data)[address := content]
      ensures ok && mode == WO ==>
                Stepped(old(State()), Joined(address, content), State(), ss, size)
    {
      hide Synced, Lists, InMode;
      var has := HasAddress(address);
      if has {
        return false;
      }
      var wo := HasReplica(WO);
      if wo || isExpanding {
        return false;
      }
      AppendSynced(replicas, backends, address, mode);
      replicas := replicas + [Info(address, mode)];
      backends := backends[address := mode];
      data := data[address := content];
      BuildReaderWriters();
      return true;
    }

    /** Removes a replica, but not the last one of a volume that is up. */
    method RemoveReplica(address: Addr, frontendUp: bool) returns (ok: bool)
      requires Valid()
      modifies this`replicas, this`backends, this`readers, this`writers, this`data
      ensures Valid()
      ensures ok <==> !(address in old(backends) && |old(replicas)| == 1 && frontendUp)
      ensures !ok ==> backends == old(backends) && data == old(data)
      ensures ok ==> Stepped(old(State()), Left(address), State(), ss, size)
    {
      hide Synced, Lists, InMode;
      var index := FindAddress(address);
      if index < 0 {
        assert backends == backends - {address} && data == data - {address};
        return true;
      }
      if |replicas| == 1 && frontendUp {
        return false;
      }
      RemoveSynced(replicas, backends, index);
      replicas := replicas[..index] + replicas[index + 1..];
      backends := backends - {address};
      data := data - {address};
      BuildReaderWriters();
      return true;
    }

    /**
     Promotes a rebuilt replica if its disk names agree with those of a read-write replica; otherwise it is set to ERR.
     */
    method Promote(address: Addr, namesAgree: bool) returns (ok: bool)
      requires Valid()
      modifies this`replicas, this`backends, this`readers, this`writers
      ensures Valid()
      ensures ok <==> && address in old(backends) && InMode(old(backends), RW) - {address} != {}
                      && (old(backends)[address] == RW || (old(backends)[address] == WO && namesAgree))
      ensures ok ==> backends == old(backends)[address := RW]
      ensures !ok ==> Stepped(old(State()), Demoted({address}), State(), ss, size)
      ensures ok && old(backends)[address] == WO &&
              (exists r :: r in InMode(old(backends), RW) && data[r] == data[address]) ==>
                Stepped(old(State()), Promoted(address), State(), ss, size)
    {
      hide Synced, Lists;
      var current := FindAddress(address);
      var healthy := HasOther(address, RW);
      ok := false;
      if current >= 0 && healthy {
        MatchesAt(replicas, backends, current);
        if replicas[current].mode == RW {
          return true;
        }
        ok := replicas[current].mode == WO && namesAgree;
      }
      SetReplicaMode(address, if ok then RW else ERR);
    }

    /** Where a replica is in the list, or -1. */
    method FindAddress(address: Addr) returns (index: int)
      requires Valid()
      ensures -1 <= index < |replicas|
      ensures index >= 0 ==> replicas[index].address == address && address in backends
      ensures index == -1 ==> address !in backends
    {
      hide Lists, Held, InMode;
      for i := 0 to |replicas|
        invariant forall k :: 0 <= k < i ==> replicas[k].address != address
      {
        if replicas[i].address == address {
          return i;
        }
      }
      assert address in backends ==> Named(replicas, address);
      return -1;
    }

    /** Whether another replica is in this mode. */
    method HasOther(address: Addr, mode: Mode) returns (found: bool)
      requires Valid()
      ensures found <==> InMode(backends, mode) - {address} != {}
    {
      hide Lists, Held;
      for i := 0 to |replicas|
        invariant forall k :: 0 <= k < i ==> !(replicas[k].address != address && replicas[k].mode == mode)
      {
        if replicas[i].address != address && replicas[i].mode == mode {
          assert replicas[i].address in InMode(backends, mode) - {address};
          return true;
        }
      }
      assert forall a :: a in backends ==> Named(replicas, a);
      return false;
    }

    method HasAddress(address: Addr) returns (found: bool)
      requires Valid()
      ensures found <==> address in backends
    {
      hide Lists, Held, InMode;
      for i := 0 to |replicas|
        invariant forall k :: 0 <= k < i ==> replicas[k].address != address
      {
        if replicas[i].address == address {
          return true;
        }
      }
      assert address in backends ==> Named(replicas, address);
      return false;
    }

    /** Sets several replicas to ERR, in any order. */
    method DemoteAll(bad: set<Addr>)
      requires Valid()
      modifies this`replicas, this`backends, this`readers, this`writers
      ensures Valid() && backends == Demote(old(backends), bad)
    {
      hide Synced, Lists, InMode, Held;
      var todo := bad;
      while todo != {}
        invariant Valid() && todo <= bad && backends == Demote(old(backends), bad - todo)
        decreases |todo|
      {
        var address :| address in todo;
        SetReplicaMode(address, ERR);
        todo := todo - {address};
      }
    }

    /** Handles full disks: says whether every read-write replica is full, and sets to ERR the ones that must go. */
    method HandleDiskNoSpace(wb: map<Addr, nat>) returns (allFull: bool)
      requires Valid() && forall a :: a in wb ==> a in backends && backends[a] != ERR
      modifies this`replicas, this`backends, this`readers, this`writers
      ensures Valid() && Handled(old(backends), {}, wb, backends)
      ensures allFull <==> AllFull(old(backends), {}, wb)
    {
      hide Synced, Lists, Held;
      if wb == map[] {
        NothingFull(backends, wb);
        return false;
      }
      ghost var modes := backends;
      var rwCount, fullRW, fullWO := CategorizeOutOfSpace(replicas, backends, wb);
      DemoteAll(fullWO);
      if |fullRW| == rwCount {
        var retained: set<Addr> := fullRW.Keys;
        if rwCount != 1 {
          retained := GetRetainedReplicas(fullRW);
          DemoteAll(fullRW.Keys - retained);
        }
        FullEverywhere(modes, wb, fullRW, fullWO, rwCount, retained, backends);
        return true;
      }
      DemoteAll(fullRW.Keys);
      FullSomewhere(modes, wb, fullRW, fullWO, rwCount, backends);
      return false;
    }

    /** Handles the errors that replicas answered with; `failure` is what the caller gets if no replica is left. */
    method HandleError(errors: map<Addr, Kind>, wbs: map<Addr, nat>, failure: Failure) returns (err: Option<Failure>)
      requires Valid() && errors != map[] && (forall a :: a in errors ==> a in backends && backends[a] != ERR)
      requires forall a :: a in errors && errors[a].OutOfSpace? ==> a in wbs
      modifies this`replicas, this`backends, this`readers, this`writers
      ensures Valid() && Handled(old(backends), Others(errors), FullOf(errors, wbs), backends)
      ensures err == if AllFull(old(backends), Others(errors), FullOf(errors, wbs)) then Some(NoSpaceLeft)
                     else if InMode(backends, RW) != {} && (forall a :: a in errors ==> !errors[a].SnapshotExists?) then
                         None
                     else Some(failure)
    {
      hide Synced, Lists, Held, Handled, AllFull, InMode;
      ghost var modes := backends;
      var noSpace, existing := SortErrors(errors, wbs);
      ghost var left := backends;
      var allFull := HandleDiskNoSpace(noSpace);
      HandledInTurn(modes, Others(errors), noSpace, left, backends);
      if allFull {
        return Some(NoSpaceLeft);
      }
      if !existing {
        var rw := HasReplica(RW);
        if rw {
          return None;
        }
      }
      return Some(failure);
    }

    /** Sets the faulty replicas to ERR and collects the full ones. */
    method SortErrors(errors: map<Addr, Kind>, wbs: map<Addr, nat>) returns (noSpace: map<Addr, nat>, existing: bool)
      requires Valid()
      requires forall a :: a in errors && errors[a].OutOfSpace? ==> a in wbs
      modifies this`replicas, this`backends, this`readers, this`writers
      ensures Valid() && backends == Demote(old(backends), Others(errors))
      ensures noSpace == FullOf(errors, wbs)
      ensures existing <==> exists a :: a in errors && errors[a].SnapshotExists?
    {
      hide Synced, Lists, Held, SortedBut;
      noSpace, existing := map[], false;
      var todo := errors.Keys;
      NoneSorted(errors, wbs, backends);
      while todo != {}
        invariant todo <= errors.Keys && Valid()
        invariant SortedBut(errors, wbs, todo, old(backends), backends, noSpace, existing)
        decreases |todo|
      {
        var address :| address in todo;
        SortNext(errors, wbs, todo, old(backends), backends, noSpace, existing, address);
        match errors[address] {
          case SnapshotExists => existing := true;
          case OutOfSpace => noSpace := noSpace[address := wbs[address]];
          case Other => SetReplicaMode(address, ERR);
        }
        todo := todo - {address};
      }
      AllSorted(errors, wbs, todo, old(backends), backends, noSpace, existing);
    }

    /** Whether a replica is in this mode. */
    method HasReplica(mode: Mode) returns (found: bool)
      requires Valid()
      ensures found <==> InMode(backends, mode) != {}
    {
      hide Lists, Held;
      for i := 0 to |replicas|
        invariant forall k :: 0 <= k < i ==> replicas[k].mode != mode
      {
        if replicas[i].mode == mode {
          assert replicas[i].address in InMode(backends, mode);
          return true;
        }
      }
      SeenAll(replicas, backends, mode);
      return false;
    }

    /** Reads from one replica after the other until one answers. */
    method BackendRead(off: nat, len: nat, broken: set<Addr>) returns (buf: Option<seq<byte>>, failed: set<Addr>)
      requires Valid() && off + len <= size && readers != []
      modifies this`next
      ensures Valid() && failed <= broken && failed <= InMode(backends, RW)
      ensures buf.Some? ==>
                exists a :: a in InMode(backends, RW) && a !in broken && ServedBy(data, a, off, len, buf.value)
      ensures buf.None? ==> failed == InMode(backends, RW)
      ensures failed == {} <==> FirstAsked(readers, old(next)) !in broken
      ensures exists k :: Read(readers, old(next), k, failed, broken, data, off, len, buf)
      ensures next == (old(next) + 1) % |readers|
    {
      hide Synced, InMode, Lists, Held, Tried;
      NoneTried(readers, (next + 1) % |readers|);
      var n := |readers|;
      next := (next + 1) % n;
      var index := next;
      failed := {};
      for i := 0 to n
        invariant index == Turn(next, i, n) && next < n
        invariant failed == Tried(readers, next, i) && failed <= broken && failed <= InMode(backends, RW)
        invariant if i == 0 then failed == {} else failed != {} && readers[next] in broken
        modifies {}
      {
        var reader := readers[index];
        ReaderFacts(backends, data, size, readers, reader);
        if reader !in broken {
          assert ServedBy(data, reader, off, len, data[reader][off..off + len]);
          buf := Some(data[reader][off..off + len]);
          assert Read(readers, old(next), i, failed, broken, data, off, len, buf);
          return;
        }
        TriedNext(readers, next, i);
        failed := failed + {reader};
        Wrap(index, n);
        index := (index + 1) % n;
      }
      TriedAll(readers, next, InMode(backends, RW));
      buf := None;
      assert Read(readers, old(next), n, failed, broken, data, off, len, buf);
    }

    /** Writes to every replica that is not in ERR, and collects their errors and written bytes. */
    method BackendWrite(p: seq<byte>, off: nat, results: map<Addr, Result>)
      returns (n: nat, errors: map<Addr, Kind>, wbs: map<Addr, nat>)
      requires Valid() && off + |p| <= size && Answered(backends, results) && Sized(results, size)
      modifies this`data
      ensures Valid() && data == Contents(backends, old(data), off, p, results)
      ensures Others(errors) == Faulty(backends, results) && FullOf(errors, wbs) == FullAt(backends, results)
      ensures forall a :: a in errors ==>
                a in backends && backends[a] != ERR && !errors[a].SnapshotExists? && !results[a].Done?
      ensures forall a :: a in errors && errors[a].OutOfSpace? ==> a in wbs
      ensures errors == map[] ==> forall a :: a in InMode(backends, RW) + InMode(backends, WO) ==> results[a].Done?
      ensures n == if SomeDone(backends, results) then |p| else 0
    {
      hide Synced, Lists, Held, InMode, Reached, Collected, Contents, Sized, OneDone, SomeDone;
      n, errors, wbs := 0, map[], map[];
      NoneReached(backends, data, off, p, results, size);
      NobodyDone(results);
      var contents := data;
      for i := 0 to |writers|
        invariant Reached(data, contents, writers[..i], off, p, results, size)
        invariant Collected(errors, wbs, writers[..i], results)
        invariant n == if OneDone(writers[..i], results) then |p| else 0
        modifies {}
      {
        var w := writers[i];
        WriterFacts(backends, data, size, writers, results, i);
        ReachNext(data, contents, writers[..i], off, p, results, size, w);
        CollectNext(errors, wbs, writers[..i], results, w);
        DoneNext(writers[..i], results, w);
        contents := contents[w := After(contents[w], off, p, results[w])];
        match results[w] {
          case Done => n := |p|;
          case NoSpace(written) => errors, wbs := errors[w := OutOfSpace], wbs[w := written];
          case Fault(left) => errors, wbs := errors[w := Other], wbs[w := 0];
        }
      }
      assert writers[..|writers|] == writers;
      ReachedAll(backends, data, contents, writers, off, p, results, size);
      CollectedAll(backends, errors, wbs, writers, results);
      DoneAll(backends, writers, results);
      data := contents;
    }

    /** Fans a write out to the replicas and handles their errors. */
    method FanOut(p: seq<byte>, off: nat, results: map<Addr, Result>) returns (n: nat, err: Option<Failure>)
      requires Valid() && off + |p| <= size && Answered(backends, results) && Sized(results, size)
      modifies this`replicas, this`backends, this`readers, this`writers, this`data
      ensures Valid() && WriteIsFlat(old(backends), old(data), off, p, err, backends, data, size)
      ensures err.None? ==> n == |p|
      ensures n == if Taken(old(backends), results) then |p| else 0
      ensures FannedOut(old(State()), off, p, results, err, State(), size)
    {
      hide Synced, Lists, Held, Handled, AllFull, Contents, WriteIsFlat, InMode, Agree, Answered, Sized, Faulty, FullAt,
          SomeDone;
      NoReaders(backends, readers);
      if readers == [] {
        n, err := 0, Some(NoBackend);
        FanOutIsFlat(State(), off, p, results, err, State(), size);
        return;
      }
      ghost var modes, before := backends, data;
      var errors, wbs;
      n, errors, wbs := BackendWrite(p, off, results);
      if errors == map[] {
        err := None;
      } else {
        err := HandleError(errors, wbs, WriteFailed);
      }
      AnswersHandled(modes, results, errors, wbs, err, backends);
      if err.None? {
        AcknowledgedDone(modes, results, backends);
      }
      FanOutIsFlat(EngineState(modes, before), off, p, results, err, State(), size);
    }

    /** A write while a replica is write-only: it must consist of whole sectors, so that this replica can take it. */
    method WriteInWOMode(b: seq<byte>, off: nat, results: map<Addr, Result>, broken: set<Addr>)
      returns (n: nat, err: Option<Failure>)
      requires Valid() && off + |b| <= size && Answered(backends, results) && Sized(results, size)
      modifies this`replicas, this`backends, this`readers, this`writers, this`data, this`next
      ensures Valid() && WriteIsFlat(old(backends), old(data), off, b, err, backends, data, size)
      ensures err.None? ==> n == |b|
      ensures err == Some(ReadFailed) <==>
                |b| != 0 && !(Rem(off, ss) == 0 && Rem(|b|, ss) == 0) &&
                (old(readers) == [] || FirstAsked(old(readers), old(next)) in broken)
      ensures err != Some(ReadFailed) ==> WriteHandled(old(backends), results, err, backends)
      ensures err == Some(ReadFailed) ==> backends == old(backends) && data == old(data)
      ensures next == if |b| == 0 || (Rem(off, ss) == 0 && Rem(|b|, ss) == 0) || old(readers) == [] then old(next)
                      else (old(next) + 1) % |old(readers)|
      ensures n == if err != Some(ReadFailed) && Taken(old(backends), results) then |b| else 0
      ensures InMode(old(backends), WO) != {} ==>
                WriteStep(old(State()), off, b, results, err, State(), ss, size)
    {
      hide Synced, Lists, Held, WriteIsFlat, InMode, Agree, Answered, Sized, Handled, Contents, Taken, AllFull,
          PatchedOut;
      if |b| == 0 || (Rem(off, ss) == 0 && Rem(|b|, ss) == 0) {
        n, err := FanOut(b, off, results);
      } else {
        n, err := WritePatched(b, off, results, broken);
      }
    }

    /** Reads the sectors around a write, patches them and writes whole sectors. */
    method WritePatched(b: seq<byte>, off: nat, results: map<Addr, Result>, broken: set<Addr>)
      returns (n: nat, err: Option<Failure>)
      requires Valid() && 0 < |b| && off + |b| <= size && Answered(backends, results) && Sized(results, size)
      modifies this`replicas, this`backends, this`readers, this`writers, this`data, this`next
      ensures Valid() && WriteIsFlat(old(backends), old(data), off, b, err, backends, data, size)
      ensures err.None? ==> n == |b|
      ensures err == Some(ReadFailed) <==>
                old(readers) == [] || FirstAsked(old(readers), old(next)) in broken
      ensures err == Some(ReadFailed) ==> backends == old(backends) && data == old(data)
      ensures next == if old(readers) == [] then old(next) else (old(next) + 1) % |old(readers)|
      ensures err != Some(ReadFailed) ==> WriteHandled(old(backends), results, err, backends)
      ensures n == if err != Some(ReadFailed) && Taken(old(backends), results) then |b| else 0
      ensures !Direct(old(backends), off, |b|, ss) ==>
                WriteStep(old(State()), off, b, results, err, State(), ss, size)
    {
      hide Synced, Lists, Held, WriteIsFlat, InMode, Agree, Answered, Sized, Handled, Splice, Contents, Taken, AllFull,
          Direct;
      var start, end := AlignedRange(off, |b|, ss, size);
      var window := ReadAround(start, end - start, broken);
      if window.None? {
        UnchangedFlat(backends, data, off, b, ReadFailed, size);
        return 0, Some(ReadFailed);
      }
      var startCut := off - start;
      ghost var s := State();
      assert Around(s, start, window.value, off, b, ss, size);
      n, err := FanOut(Splice(window.value, startCut, b), start, results);
      PatchedIsFlat(s, start, window.value, off, b, results, err, State(), ss, size);
      if err.Some? {
        n := if n < startCut then 0 else if n - startCut < |b| then n - startCut else |b|;
        return;
      }
      return |b|, None;
    }

    /** Reads whole sectors before a patch; the read counts only if the first reader that is asked answers. */
    method ReadAround(start: nat, len: nat, broken: set<Addr>) returns (window: Option<seq<byte>>)
      requires Valid() && start + len <= size
      modifies this`next
      ensures Valid()
      ensures window.None? <==> readers == [] || FirstAsked(readers, old(next)) in broken
      ensures next == if readers == [] then old(next) else (old(next) + 1) % |readers|
      ensures window.Some? ==>
                |window.value| == len && exists a ::
                    a in InMode(backends, RW) && ServedBy(data, a, start, len, window.value)
    {
      hide Synced, Lists, Held, InMode;
      if readers == [] {
        return None;
      }
      NoReaders(backends, readers);
      var buf, failed := BackendRead(start, len, broken);
      if failed != {} {
        return None;
      }
      return buf;
    }

    method WriteAt(b: seq<byte>, off: nat, results: map<Addr, Result>, broken: set<Addr>)
      returns (n: nat, err: Option<Failure>)
      requires Valid() && Answered(backends, results) && Sized(results, size)
      modifies this`replicas, this`backends, this`readers, this`writers, this`data, this`next
      ensures Valid() && WriteIsFlat(old(backends), old(data), off, b, err, backends, data, size)
      ensures err.None? ==> n == |b|
      ensures err == Some(OutOfRange) <==> off + |b| > size
      ensures err == Some(ReadFailed) <==>
                off + |b| <= size && InMode(old(backends), WO) != {} && |b| != 0 &&
                    !(Rem(off, ss) == 0 && Rem(|b|, ss) == 0) &&
                (old(readers) == [] || FirstAsked(old(readers), old(next)) in broken)
      ensures if err == Some(OutOfRange) || err == Some(ReadFailed) then backends == old(backends) && data == old(data)
              else WriteHandled(old(backends), results, err, backends)
      ensures n == if err != Some(OutOfRange) && err != Some(ReadFailed) && Taken(old(backends), results) then |b|
                else 0
      ensures next == if off + |b| > size || Direct(old(backends), off, |b|, ss) || old(readers) == [] then old(next)
                      else (old(next) + 1) % |old(readers)|
      ensures Stepped(old(State()), Wrote(off, b, results, err), State(), ss, size)
    {
      hide Synced, Lists, Held, WriteIsFlat, InMode, Agree, Answered, Sized, Handled, Faulty, FullAt, AllFull, Taken;
      if off + |b| > size {
        UnchangedFlat(backends, data, off, b, OutOfRange, size);
        return 0, Some(OutOfRange);
      }
      var wo := HasReplica(WO);
      if wo {
        n, err := WriteInWOMode(b, off, results, broken);
      } else {
        n, err := FanOut(b, off, results);
      }
    }

    /** Reads from any read-write replica that answers; the ones that failed before it are set to ERR. */
    method ReadAt(off: nat, len: nat, broken: set<Addr>) returns (buf: Option<seq<byte>>, err: Option<Failure>)
      requires Valid()
      modifies this`replicas, this`backends, this`readers, this`writers, this`next
      ensures Valid()
      ensures err == Some(OutOfRange) <==> off + len > size
      ensures err == Some(NoBackend) <==> off + len <= size && InMode(old(backends), RW) == {}
      ensures err == Some(ReadFailed) <==>
                off + len <= size && InMode(old(backends), RW) != {} && InMode(old(backends), RW) <= broken
      ensures err.Some? ==> err.value.OutOfRange? || err.value.NoBackend? || err.value.ReadFailed?
      ensures err.None? ==> buf.Some? && off + len <= size
      ensures next == if off + len > size || old(readers) == [] then old(next) else (old(next) + 1) % |old(readers)|
      ensures off + len <= size && old(readers) != [] && FirstAsked(old(readers), old(next)) !in broken ==>
                && err.None? && backends == old(backends) && readers == old(readers)
                && ServedBy(data, FirstAsked(readers, old(next)), off, len, buf.value)
      ensures forall d: seq<byte> :: |d| == size && Agree(old(backends), data, d) ==>
                Agree(backends, data, d) && (err.None? ==> buf.value == d[off..off + len])
      ensures off + len > size || old(readers) == [] ==> backends == old(backends)
      ensures off + len <= size && old(readers) != [] ==>
                exists k, failed :: Asked(old(readers), old(next), k, failed, broken, err.None?) &&
                                    backends == Demote(old(backends), failed)
      ensures exists bad :: Stepped(old(State()), Demoted(bad), State(), ss, size)
    {
      hide Synced, Lists, Held, Read, Asked, FirstAsked;
      ghost var s := State();
      assert Stepped(s, Demoted({}), s, ss, size) by {
        assert backends == Demote(backends, {});
      }
      if off + len > size {
        return None, Some(OutOfRange);
      }
      NoReaders(backends, readers);
      if readers == [] {
        return None, Some(NoBackend);
      }
      var failed;
      buf, failed := BackendRead(off, len, broken);
      ghost var k :| Read(readers, old(next), k, failed, broken, data, off, len, buf);
      ReadAsked(readers, old(next), k, failed, broken, data, off, len, buf);
      if failed == {} {
        assert backends == Demote(backends, {});
        return buf, None;
      }
      ghost var modes := backends;
      err := DemoteReaders(failed);
      assert Stepped(s, Demoted(failed), State(), ss, size);
      if buf.Some? {
        ghost var a :| a in InMode(modes, RW) && a !in broken && ServedBy(data, a, off, len, buf.value);
        assert a in InMode(backends, RW);
      }
    }

    /** Sets readers that failed to ERR; the caller gets an error if none is left. */
    method DemoteReaders(failed: set<Addr>) returns (err: Option<Failure>)
      requires Valid() && failed != {} && failed <= InMode(backends, RW)
      modifies this`replicas, this`backends, this`readers, this`writers
      ensures Valid() && backends == Demote(old(backends), failed)
      ensures err == if InMode(old(backends), RW) <= failed then Some(ReadFailed) else None
    {
      hide Synced, Lists, Held, Handled, AllFull, Others, FullOf;
      ghost var modes := backends;
      var errors := map a | a in failed :: Other;
      assert errors.Keys == failed;
      err := HandleError(errors, map[], ReadFailed);
      ReadHandled(modes, failed, errors, backends);
      NobodyLeft(InMode(modes, RW), failed);
    }
  }

  lemma {:induction false} NobodyLeft(some: set<Addr>, gone: set<Addr>)
    ensures some - gone == {} <==> some <= gone
  {
    if some - gone == {} {
      forall a | a in some
        ensures a in gone
      {
        assert a !in some - gone;
      }
    }
  }

  /** The `k`-th index of a rotation over `n` entries that begins at `start`. */
  function Turn(start: nat, k: nat, n: nat): nat
    requires start < n && k <= n
  {
    if start + k < n then start + k else start + k - n
  }

  lemma {:induction false} Wrap(i: nat, n: nat)
    requires i < n
    ensures (i + 1) % n == if i + 1 == n then 0 else i + 1
  {
  }

  ghost function Tried(readers: seq<Addr>, start: nat, k: nat): set<Addr>
    requires start < |readers| && k <= |readers|
  {
    set j | 0 <= j < k :: readers[Turn(start, j, |readers|)]
  }

  /** The readers `failed`, the first `k` of the rotation, were asked in vain; the next one answered, if `found`. */
  ghost predicate Asked(readers: seq<Addr>, turn: nat, k: nat, failed: set<Addr>, broken: set<Addr>, found: bool) {
    && 0 < |readers| && k <= |readers|
    && var start := (turn + 1) % |readers|;
    && failed == Tried(readers, start, k) && failed <= broken
    && (found <==> k < |readers|) && (found ==> readers[Turn(start, k, |readers|)] !in broken)
  }

  /** The reader that is asked after `k` others, in the read after turn `turn`. */
  ghost function AskedAt(readers: seq<Addr>, turn: nat, k: nat): Addr
    requires k < |readers|
  {
    readers[Turn((turn + 1) % |readers|, k, |readers|)]
  }

  /** The reader that the read after turn `turn` asks first. */
  ghost function FirstAsked(readers: seq<Addr>, turn: nat): Addr
    requires readers != []
  {
    readers[(turn + 1) % |readers|]
  }

  /** One read: those asked in vain, and the bytes of the reader that answered. */
  ghost predicate Read(readers: seq<Addr>, turn: nat, k: nat, failed: set<Addr>, broken: set<Addr>,
                       data: map<Addr, seq<byte>>, off: nat, len: nat, buf: Option<seq<byte>>) {
    && Asked(readers, turn, k, failed, broken, buf.Some?)
    && (buf.Some? ==> ServedBy(data, AskedAt(readers, turn, k), off, len, buf.value))
  }

  /** If nobody was asked in vain, the first reader answered. */
  lemma {:induction false} ReadAsked(readers: seq<Addr>, turn: nat, k: nat, failed: set<Addr>, broken: set<Addr>,
                                     data: map<Addr, seq<byte>>, off: nat, len: nat, buf: Option<seq<byte>>)
    requires Read(readers, turn, k, failed, broken, data, off, len, buf)
    ensures Asked(readers, turn, k, failed, broken, buf.Some?)
    ensures failed == {} ==> buf.Some? && ServedBy(data, FirstAsked(readers, turn), off, len, buf.value)
  {
    TriedFirst(readers, (turn + 1) % |readers|, k);
  }

  lemma {:induction false} TriedFirst(readers: seq<Addr>, start: nat, k: nat)
    requires start < |readers| && k <= |readers|
    ensures k > 0 ==> readers[start] in Tried(readers, start, k)
  {
    if k > 0 {
      assert readers[Turn(start, 0, |readers|)] == readers[start];
    }
  }

  /** The turns of consecutive reads, each one further than the one before. */
  ghost predicate Turns(turns: seq<nat>, n: nat)
    requires 0 < n
  {
    forall i :: 0 <= i < |turns| - 1 ==> turns[i + 1] == (turns[i] + 1) % n
  }

  lemma {:induction false} TurnsRotate(turns: seq<nat>, n: nat, i: nat, start: nat)
    requires 0 < n && Turns(turns, n) && i + 1 < |turns| && i < n && start == (turns[0] + 1) % n
    ensures start < n && turns[i + 1] == Turn(start, i, n)
    decreases i
  {
    assert turns[0 + 1] == start;
    if i > 0 {
      TurnsRotate(turns, n, i - 1, start);
      Wrap(turns[i], n);
    }
  }

  /** Every index has its place in a rotation. */
  lemma {:induction false} TurnReaches(start: nat, n: nat, x: nat) returns (i: nat)
    requires start < n && x < n
    ensures i < n && Turn(start, i, n) == x
  {
    i := if start <= x then x - start else x - start + n;
  }

  /** Reads rotate: over as many reads as there are readers, each read-write replica is asked first exactly once. */
  lemma {:induction false} ReadsRotate(readers: seq<Addr>, rw: set<Addr>, turns: seq<nat>)
    requires readers != [] && Lists(readers, rw) && |turns| == |readers| + 1 && Turns(turns, |readers|)
    ensures forall i, j :: 0 <= i < j < |readers| ==> FirstAsked(readers, turns[i]) != FirstAsked(readers, turns[j])
    ensures forall a :: a in rw ==> exists i :: 0 <= i < |readers| && FirstAsked(readers, turns[i]) == a
  {
    hide Turns;
    var n := |readers|;
    var start := (turns[0] + 1) % n;
    forall i | 0 <= i < n
      ensures start < n && FirstAsked(readers, turns[i]) == readers[Turn(start, i, n)]
    {
      TurnTaken(readers, turns, i, start);
    }
    forall a | a in rw
      ensures exists i :: 0 <= i < n && FirstAsked(readers, turns[i]) == a
    {
      var x :| 0 <= x < n && readers[x] == a;
      var i := TurnReaches(start, n, x);
      assert FirstAsked(readers, turns[i]) == a;
    }
  }

  lemma {:induction false} TurnTaken(readers: seq<Addr>, turns: seq<nat>, i: nat, start: nat)
    requires i < |readers| && |turns| == |readers| + 1 && Turns(turns, |readers|)
    requires start == (turns[0] + 1) % |readers|
    ensures start < |readers| && FirstAsked(readers, turns[i]) == readers[Turn(start, i, |readers|)]
  {
    TurnsRotate(turns, |readers|, i, start);
    assert turns[i + 1] == (turns[i] + 1) % |readers|;
  }

  lemma {:induction false} NoneTried(readers: seq<Addr>, start: nat)
    requires start < |readers|
    ensures Tried(readers, start, 0) == {}
  {
  }

  lemma {:induction false} ReaderFacts(modes: map<Addr, Mode>, data: map<Addr, seq<byte>>, size: nat,
                                       readers: seq<Addr>, a: Addr)
    requires Lists(readers, InMode(modes, RW)) && Held(modes, data, size) && a in readers
    ensures a in InMode(modes, RW) && a in data && |data[a]| == size
  {
  }

  lemma {:induction false} WriterFacts(modes: map<Addr, Mode>, data: map<Addr, seq<byte>>, size: nat,
                                       writers: seq<Addr>, results: map<Addr, Result>, i: nat)
    requires Lists(writers, InMode(modes, RW) + InMode(modes, WO)) && Held(modes, data, size) &&
             Answered(modes, results) && i < |writers|
    ensures writers[i] in data && writers[i] in results && writers[i] !in writers[..i]
    ensures writers[..i + 1] == writers[..i] + [writers[i]]
  {
    assert writers[i] in writers;
  }

  /** One of these replicas took the whole write. */
  ghost predicate OneDone(list: seq<Addr>, results: map<Addr, Result>) {
    exists k :: 0 <= k < |list| && list[k] in results && results[list[k]].Done?
  }

  lemma {:induction false} NobodyDone(results: map<Addr, Result>)
    ensures !OneDone([], results)
  {
  }

  lemma {:induction false} DoneNext(list: seq<Addr>, results: map<Addr, Result>, w: Addr)
    requires w in results
    ensures OneDone(list + [w], results) <==> OneDone(list, results) || results[w].Done?
  {
    if OneDone(list, results) {
      var k :| 0 <= k < |list| && list[k] in results && results[list[k]].Done?;
      assert (list + [w])[k] == list[k];
    }
    if results[w].Done? {
      assert (list + [w])[|list|] == w;
    }
  }

  lemma {:induction false} DoneAll(modes: map<Addr, Mode>, writers: seq<Addr>, results: map<Addr, Result>)
    requires Lists(writers, InMode(modes, RW) + InMode(modes, WO)) && Answered(modes, results)
    ensures OneDone(writers, results) <==> SomeDone(modes, results)
  {
    if SomeDone(modes, results) {
      var a :| a in modes && modes[a] != ERR && a in results && results[a].Done?;
      assert a in writers;
    }
    if OneDone(writers, results) {
      var k :| 0 <= k < |writers| && writers[k] in results && results[writers[k]].Done?;
      assert writers[k] in writers;
    }
  }

  lemma {:induction false} NoneReached(modes: map<Addr, Mode>, data: map<Addr, seq<byte>>, off: nat, p: seq<byte>,
                                       results: map<Addr, Result>, size: nat)
    requires Held(modes, data, size) && off + |p| <= size
    ensures Reached(data, data, [], off, p, results, size) && Collected(map[], map[], [], results)
  {
  }

  lemma {:induction false} TriedNext(readers: seq<Addr>, start: nat, k: nat)
    requires start < |readers| && k < |readers|
    ensures readers[Turn(start, k, |readers|)] in readers
    ensures Tried(readers, start, k + 1) == Tried(readers, start, k) + {readers[Turn(start, k, |readers|)]}
  {
  }

  lemma {:induction false} TriedAll(readers: seq<Addr>, start: nat, rw: set<Addr>)
    requires start < |readers| && Lists(readers, rw)
    ensures Tried(readers, start, |readers|) == rw
  {
    forall a | a in readers
      ensures a in Tried(readers, start, |readers|)
    {
      var i :| 0 <= i < |readers| && readers[i] == a;
      var j := if start <= i then i - start else i + |readers| - start;
      assert Turn(start, j, |readers|) == i;
    }
  }

  /** The contents after the replicas `done` answered the write. */
  ghost predicate Reached(before: map<Addr, seq<byte>>, now: map<Addr, seq<byte>>, done: seq<Addr>, off: nat,
                          p: seq<byte>, results: map<Addr, Result>, size: nat) {
    && now.Keys == before.Keys && (forall a :: a in before ==> |before[a]| == size && |now[a]| == size) &&
        off + |p| <= size
    && forall a :: a in before ==>
        now[a] == if a in done && a in results then After(before[a], off, p, results[a]) else before[a]
  }

  lemma {:induction false} ReachNext(before: map<Addr, seq<byte>>, now: map<Addr, seq<byte>>, done: seq<Addr>, off: nat,
                                     p: seq<byte>, results: map<Addr, Result>, size: nat, w: Addr)
    requires Reached(before, now, done, off, p, results, size) && Sized(results, size)
    requires w in before && w in results && w !in done
    ensures w in now && |now[w]| == size && off + |p| <= size
    ensures Reached(before, now[w := After(now[w], off, p, results[w])], done + [w], off, p, results, size)
  {
  }

  lemma {:induction false} ReachedAll(modes: map<Addr, Mode>, before: map<Addr, seq<byte>>, now: map<Addr, seq<byte>>,
                                      writers: seq<Addr>, off: nat, p: seq<byte>, results: map<Addr, Result>, size: nat)
    requires Reached(before, now, writers, off, p, results, size) &&
             Lists(writers, InMode(modes, RW) + InMode(modes, WO))
    requires Held(modes, before, size)
    ensures Held(modes, now, size) && now == Contents(modes, before, off, p, results)
  {
  }

  /** The errors and written bytes of the replicas `done`. */
  ghost predicate Collected(errors: map<Addr, Kind>, wbs: map<Addr, nat>, done: seq<Addr>, results: map<Addr, Result>) {
    && (forall a :: a in errors <==> a in done && a in results && !results[a].Done?)
    && (forall a :: a in errors ==> a in wbs && errors[a] == if results[a].NoSpace? then OutOfSpace else Other)
    && (forall a :: a in errors && results[a].NoSpace? ==> wbs[a] == results[a].written)
  }

  lemma {:induction false} CollectNext(errors: map<Addr, Kind>, wbs: map<Addr, nat>, done: seq<Addr>,
                                       results: map<Addr, Result>, w: Addr)
    requires Collected(errors, wbs, done, results) && w in results && w !in done
    ensures results[w].Done? ==> Collected(errors, wbs, done + [w], results)
    ensures results[w].NoSpace? ==>
              Collected(errors[w := OutOfSpace], wbs[w := results[w].written], done + [w], results)
    ensures results[w].Fault? ==> Collected(errors[w := Other], wbs[w := 0], done + [w], results)
  {
  }

  lemma {:induction false} CollectedAll(modes: map<Addr, Mode>, errors: map<Addr, Kind>, wbs: map<Addr, nat>,
                                        writers: seq<Addr>, results: map<Addr, Result>)
    requires Collected(errors, wbs, writers, results) && Lists(writers, InMode(modes, RW) + InMode(modes, WO)) &&
             Answered(modes, results)
    ensures Others(errors) == Faulty(modes, results) && FullOf(errors, wbs) == FullAt(modes, results)
    ensures forall a :: a in errors ==>
              a in modes && modes[a] != ERR && !errors[a].SnapshotExists? && a in results && !results[a].Done? &&
              a in wbs
    ensures errors == map[] ==> forall a :: a in InMode(modes, RW) + InMode(modes, WO) ==>
              a in results && results[a].Done?
  {
  }

  datatype Kind = SnapshotExists | OutOfSpace | Other

  /** The errors but those of `todo` were sorted. */
  ghost predicate SortedBut(errors: map<Addr, Kind>, wbs: map<Addr, nat>, todo: set<Addr>, modes: map<Addr, Mode>,
                            now: map<Addr, Mode>, noSpace: map<Addr, nat>, existing: bool) {
    && now == Demote(modes, Others(errors) - todo)
    && noSpace == Only(FullOf(errors, wbs), errors.Keys - todo)
    && (existing <==> exists a :: a in errors && a !in todo && errors[a].SnapshotExists?)
  }

  lemma {:induction false} NoneSorted(errors: map<Addr, Kind>, wbs: map<Addr, nat>, modes: map<Addr, Mode>)
    ensures SortedBut(errors, wbs, errors.Keys, modes, modes, map[], false)
  {
  }

  lemma {:induction false} SortNext(errors: map<Addr, Kind>, wbs: map<Addr, nat>, todo: set<Addr>,
                                    modes: map<Addr, Mode>, now: map<Addr, Mode>, noSpace: map<Addr, nat>,
                                    existing: bool, a: Addr)
    requires SortedBut(errors, wbs, todo, modes, now, noSpace, existing) && a in todo && a in errors
    requires errors[a].OutOfSpace? ==> a in wbs
    ensures errors[a].SnapshotExists? ==> SortedBut(errors, wbs, todo - {a}, modes, now, noSpace, true)
    ensures errors[a].OutOfSpace? ==> SortedBut(errors, wbs, todo - {a}, modes, now, noSpace[a := wbs[a]], existing)
    ensures errors[a].Other? ==>
              SortedBut(errors, wbs, todo - {a}, modes, if a in now && now[a] != ERR then now[a := ERR]
                  else now, noSpace, existing)
  {
  }

  lemma {:induction false} AllSorted(errors: map<Addr, Kind>, wbs: map<Addr, nat>, todo: set<Addr>,
                                     modes: map<Addr, Mode>, now: map<Addr, Mode>, noSpace: map<Addr, nat>,
                                     existing: bool)
    requires SortedBut(errors, wbs, todo, modes, now, noSpace, existing) && todo == {}
    ensures now == Demote(modes, Others(errors)) && noSpace == FullOf(errors, wbs)
    ensures existing <==> exists a :: a in errors && errors[a].SnapshotExists?
  {
  }

  function Others(errors: map<Addr, Kind>): set<Addr> {
    set a | a in errors && errors[a].Other?
  }

  function FullOf(errors: map<Addr, Kind>, wbs: map<Addr, nat>): map<Addr, nat> {
    map a | a in errors && errors[a].OutOfSpace? && a in wbs :: wbs[a]
  }

  /** Sorts the replicas with full disks by their mode, and counts the read-write replicas. */
  method CategorizeOutOfSpace(replicas: seq<Info>, ghost modes: map<Addr, Mode>, wb: map<Addr, nat>)
    returns (rwCount: nat, fullRW: map<Addr, nat>, fullWO: set<Addr>)
    requires Synced(replicas, modes)
    ensures rwCount == |InMode(modes, RW)|
    ensures fullRW == Only(wb, InMode(modes, RW)) && fullWO == wb.Keys * InMode(modes, WO)
  {
    hide Distinct, Matches, Named, Seen, Counted;
    rwCount, fullRW, fullWO := 0, map[], {};
    NoneCounted(replicas, wb);
    for i := 0 to |replicas|
      invariant Counted(wb, Seen(replicas, i, RW), Seen(replicas, i, WO), rwCount, fullRW, fullWO)
    {
      var r := replicas[i];
      SeenNext(replicas, i);
      CountNext(wb, Seen(replicas, i, RW), Seen(replicas, i, WO), rwCount, fullRW, fullWO, r);
      if r.mode == RW {
        rwCount := rwCount + 1;
        if r.address in wb {
          fullRW := fullRW[r.address := wb[r.address]];
        }
      } else if r.mode == WO && r.address in wb {
        fullWO := fullWO + {r.address};
      }
    }
    SeenAll(replicas, modes, RW);
    SeenAll(replicas, modes, WO);
    CountedAll(wb, InMode(modes, RW), InMode(modes, WO), rwCount, fullRW, fullWO);
  }

  /** The counters for the read-write replicas `rw` and the write-only replicas `wo`. */
  ghost predicate Counted(wb: map<Addr, nat>, rw: set<Addr>, wo: set<Addr>, rwCount: nat, fullRW: map<Addr, nat>,
                          fullWO: set<Addr>) {
    rwCount == |rw| && fullRW == Only(wb, rw) && fullWO == wb.Keys * wo
  }

  lemma {:induction false} CountNext(wb: map<Addr, nat>, rw: set<Addr>, wo: set<Addr>, rwCount: nat,
                                     fullRW: map<Addr, nat>, fullWO: set<Addr>, r: Info)
    requires Counted(wb, rw, wo, rwCount, fullRW, fullWO) && r.address !in rw
    ensures r.mode == RW ==>
              Counted(wb, rw + {r.address}, wo, rwCount + 1, if r.address in wb then fullRW[r.address := wb[r.address]]
                  else fullRW, fullWO)
    ensures r.mode == WO ==>
              Counted(wb, rw, wo + {r.address}, rwCount, fullRW, if r.address in wb then fullWO + {r.address}
                  else fullWO)
  {
  }

  lemma {:induction false} CountedAll(wb: map<Addr, nat>, rw: set<Addr>, wo: set<Addr>, rwCount: nat,
                                      fullRW: map<Addr, nat>, fullWO: set<Addr>)
    requires Counted(wb, rw, wo, rwCount, fullRW, fullWO)
    ensures rwCount == |rw| && fullRW == Only(wb, rw) && fullWO == wb.Keys * wo
  {
  }

  lemma {:induction false} NoneCounted(replicas: seq<Info>, wb: map<Addr, nat>)
    ensures Counted(wb, Seen(replicas, 0, RW), Seen(replicas, 0, WO), 0, map[], {})
  {
    assert Seen(replicas, 0, RW) == {} && Seen(replicas, 0, WO) == {};
  }

  /** The first `n` replicas of the list that are in mode `m`. */
  ghost function Seen(replicas: seq<Info>, n: nat, m: Mode): set<Addr>
    requires n <= |replicas|
  {
    set i | 0 <= i < n && replicas[i].mode == m :: replicas[i].address
  }

  lemma {:induction false} SeenNext(replicas: seq<Info>, n: nat)
    requires n < |replicas| && Distinct(replicas)
    ensures replicas[n].address !in Seen(replicas, n, RW)
    ensures forall m :: Seen(replicas, n + 1, m) == if replicas[n].mode == m then
              Seen(replicas, n, m) + {replicas[n].address} else Seen(replicas, n, m)
  {
  }

  lemma {:induction false} SeenAll(replicas: seq<Info>, modes: map<Addr, Mode>, m: Mode)
    requires Synced(replicas, modes)
    ensures Seen(replicas, |replicas|, m) == InMode(modes, m)
  {
    forall a | a in InMode(modes, m)
      ensures a in Seen(replicas, |replicas|, m)
    {
      assert Named(replicas, a);
      var i :| 0 <= i < |replicas| && replicas[i].address == a;
    }
  }

  lemma {:induction false} NothingFull(modes: map<Addr, Mode>, wb: map<Addr, nat>)
    requires wb == map[]
    ensures Handled(modes, {}, wb, modes) && !AllFull(modes, {}, wb)
  {
    assert Demote(Demote(modes, {}), wb.Keys) == modes;
  }

  /** A sub-map is as large as a set of keys exactly when it has all of them. */
  lemma {:induction false} SameSize(wb: map<Addr, nat>, some: set<Addr>)
    ensures |Only(wb, some)| == |some| <==> some <= wb.Keys
  {
    var keys := Only(wb, some).Keys;
    assert |Only(wb, some)| == |keys|;
    SubsetSize(keys, some);
    if some <= wb.Keys {
      assert keys == some;
    }
  }

  lemma {:induction false} FullEverywhere(modes: map<Addr, Mode>, wb: map<Addr, nat>, fullRW: map<Addr, nat>,
                                          fullWO: set<Addr>, rwCount: nat, retained: set<Addr>, now: map<Addr, Mode>)
    requires wb != map[] && forall a :: a in wb ==> a in modes && modes[a] != ERR
    requires rwCount == |InMode(modes, RW)| == |fullRW|
    requires fullRW == Only(wb, InMode(modes, RW)) && fullWO == wb.Keys * InMode(modes, WO)
    requires if rwCount == 1 then retained == fullRW.Keys
             else if fullRW == map[] then retained == {} else exists w ::
                 Best(fullRW, w) && retained == Class(fullRW, w)
    requires now == Demote(Demote(modes, fullWO), fullRW.Keys - retained)
    ensures Handled(modes, {}, wb, now) && AllFull(modes, {}, wb)
  {
    SameSize(wb, InMode(modes, RW));
    assert Demote(modes, {}) == modes;
    var rw := InMode(modes, RW);
    if rw != {} {
      if rwCount == 1 {
        OnlyOne(fullRW);
      }
      var w :| Best(fullRW, w) && retained == Class(fullRW, w);
      TwoDemotes(modes, fullWO, fullRW.Keys - retained, wb.Keys - Class(fullRW, w));
    } else {
      TwoDemotes(modes, fullWO, fullRW.Keys - retained, wb.Keys);
    }
  }

  lemma {:induction false} TwoDemotes(modes: map<Addr, Mode>, x: set<Addr>, y: set<Addr>, xy: set<Addr>)
    requires forall a :: a in modes && modes[a] != ERR ==> (a in xy <==> a in x || a in y)
    ensures Demote(Demote(modes, x), y) == Demote(modes, xy)
  {
  }

  /** A single replica is the best class by itself. */
  lemma {:induction false} OnlyOne(wb: map<Addr, nat>)
    requires |wb| == 1
    ensures exists w :: Best(wb, w) && wb.Keys == Class(wb, w)
  {
    assert |wb.Keys| == 1;
    var a :| a in wb;
    SubsetSize({a}, wb.Keys);
    assert wb.Keys == {a};
    assert Class(wb, wb[a]) == {a};
    forall v: nat | Class(wb, v) != {}
      ensures v == wb[a]
    {
      var b :| b in Class(wb, v);
    }
    assert Best(wb, wb[a]);
  }

  lemma {:induction false} FullSomewhere(modes: map<Addr, Mode>, wb: map<Addr, nat>, fullRW: map<Addr, nat>,
                                         fullWO: set<Addr>, rwCount: nat, now: map<Addr, Mode>)
    requires wb != map[] && forall a :: a in wb ==> a in modes && modes[a] != ERR
    requires rwCount == |InMode(modes, RW)| != |fullRW|
    requires fullRW == Only(wb, InMode(modes, RW)) && fullWO == wb.Keys * InMode(modes, WO)
    requires now == Demote(Demote(modes, fullWO), fullRW.Keys)
    ensures Handled(modes, {}, wb, now) && !AllFull(modes, {}, wb)
  {
    SameSize(wb, InMode(modes, RW));
    assert Demote(modes, {}) == modes;
    TwoDemotes(modes, fullWO, fullRW.Keys, wb.Keys);
  }

  /** The controller's list with one mode set; `hit` says whether a replica changed. */
  method SetInList(replicas: seq<Info>, ghost modes: map<Addr, Mode>, address: Addr, mode: Mode)
    returns (list: seq<Info>, hit: bool)
    requires Synced(replicas, modes)
    ensures hit <==> address in modes && modes[address] != ERR
    ensures Synced(list, if hit then modes[address := mode] else modes)
  {
    list, hit := replicas, false;
    for i := 0 to |replicas|
      invariant |list| == |replicas|
      invariant forall k :: 0 <= k < |list| ==>
                  list[k] == if k < i then Set(replicas[k], address, mode) else replicas[k]
      invariant hit <==> exists k :: 0 <= k < i && replicas[k].address == address && replicas[k].mode != ERR
    {
      if replicas[i].address == address && replicas[i].mode != ERR {
        list := list[i := Info(address, mode)];
        hit := true;
      }
    }
    SetHit(replicas, modes, address);
    SetSynced(replicas, modes, address, mode, list, hit);
  }

  /** An entry of the controller's list after `address` was set to `mode`. */
  function Set(info: Info, address: Addr, mode: Mode): Info {
    if info.address == address && info.mode != ERR then Info(address, mode) else info
  }

  lemma {:induction false} AppendSynced(replicas: seq<Info>, modes: map<Addr, Mode>, address: Addr, mode: Mode)
    requires Synced(replicas, modes) && address !in modes
    ensures Synced(replicas + [Info(address, mode)], modes[address := mode])
  {
    var list := replicas + [Info(address, mode)];
    assert list[|replicas|].address == address;
    forall a | a in modes
      ensures Named(list, a)
    {
      assert Named(replicas, a);
      var i :| 0 <= i < |replicas| && replicas[i].address == a;
      assert list[i].address == a;
    }
    forall i, j | 0 <= i < j < |list|
      ensures list[i].address != list[j].address
    {
      assert list[i] == replicas[i];
      if j < |replicas| {
        assert list[j] == replicas[j];
      }
    }
  }

  lemma {:induction false} MatchesAt(replicas: seq<Info>, modes: map<Addr, Mode>, i: nat)
    requires Synced(replicas, modes) && i < |replicas|
    ensures replicas[i].address in modes && modes[replicas[i].address] == replicas[i].mode
  {
  }

  lemma {:induction false} RemoveSynced(replicas: seq<Info>, modes: map<Addr, Mode>, index: nat)
    requires Synced(replicas, modes) && index < |replicas|
    ensures Synced(replicas[..index] + replicas[index + 1..], modes - {replicas[index].address})
  {
    hide Named, Matches, Distinct;
    var list := replicas[..index] + replicas[index + 1..];
    forall k | 0 <= k < |list|
      ensures list[k] == replicas[if k < index then k else k + 1]
    {
    }
    RemoveMatches(replicas, modes, index, list);
    forall a | a in modes && a != replicas[index].address
      ensures Named(list, a)
    {
      RemoveNamed(replicas, index, list, a);
    }
  }

  lemma {:induction false} RemoveMatches(replicas: seq<Info>, modes: map<Addr, Mode>, index: nat, list: seq<Info>)
    requires Distinct(replicas) && Matches(replicas, modes) && index < |replicas| == |list| + 1
    requires forall k :: 0 <= k < |list| ==> list[k] == replicas[if k < index then k else k + 1]
    ensures Distinct(list) && Matches(list, modes - {replicas[index].address})
  {
  }

  lemma {:induction false} RemoveNamed(replicas: seq<Info>, index: nat, list: seq<Info>, a: Addr)
    requires Named(replicas, a) && index < |replicas| == |list| + 1 && a != replicas[index].address
    requires forall k :: 0 <= k < |list| ==> list[k] == replicas[if k < index then k else k + 1]
    ensures Named(list, a)
  {
    var i :| 0 <= i < |replicas| && replicas[i].address == a;
    assert list[if i < index then i else i - 1].address == a;
  }

  lemma {:induction false} SetHit(replicas: seq<Info>, modes: map<Addr, Mode>, address: Addr)
    requires Synced(replicas, modes)
    ensures (exists k :: 0 <= k < |replicas| && replicas[k].address == address && replicas[k].mode != ERR)
            <==> address in modes && modes[address] != ERR
  {
    if address in modes {
      assert Named(replicas, address);
      var k :| 0 <= k < |replicas| && replicas[k].address == address;
      assert modes[address] == replicas[k].mode;
    }
  }

  lemma {:induction false} SetMatches(replicas: seq<Info>, modes: map<Addr, Mode>, address: Addr, mode: Mode,
                                      list: seq<Info>, hit: bool)
    requires Distinct(replicas) && Matches(replicas, modes) && |list| == |replicas|
    requires forall k :: 0 <= k < |list| ==> list[k] == Set(replicas[k], address, mode)
    requires hit <==> address in modes && modes[address] != ERR
    ensures Distinct(list) && Matches(list, if hit then modes[address := mode] else modes)
  {
    forall i, j | 0 <= i < j < |list|
      ensures list[i].address != list[j].address
    {
      assert replicas[i].address != replicas[j].address;
    }
  }

  lemma {:induction false} SetNamed(replicas: seq<Info>, address: Addr, mode: Mode, list: seq<Info>, a: Addr)
    requires Named(replicas, a) && |list| == |replicas|
    requires forall k :: 0 <= k < |list| ==> list[k] == Set(replicas[k], address, mode)
    ensures Named(list, a)
  {
    var i :| 0 <= i < |replicas| && replicas[i].address == a;
    assert list[i].address == a;
  }

  lemma {:induction false} SetSynced(replicas: seq<Info>, modes: map<Addr, Mode>, address: Addr, mode: Mode,
                                     list: seq<Info>, hit: bool)
    requires Synced(replicas, modes) && |list| == |replicas|
    requires forall k :: 0 <= k < |list| ==> list[k] == Set(replicas[k], address, mode)
    requires hit <==> address in modes && modes[address] != ERR
    ensures Synced(list, if hit then modes[address := mode] else modes)
  {
    hide Distinct, Matches, Named;
    SetMatches(replicas, modes, address, mode, list, hit);
    forall a | a in modes
      ensures Named(list, a)
    {
      SetNamed(replicas, address, mode, list, a);
    }
  }

  lemma {:induction false} NoReaders(modes: map<Addr, Mode>, readers: seq<Addr>)
    requires Lists(readers, InMode(modes, RW))
    ensures readers == [] <==> InMode(modes, RW) == {}
  {
    if readers != [] {
      assert readers[0] in readers;
    }
  }

  /** Read errors demote exactly the failed readers. */
  lemma {:induction false} ReadHandled(modes: map<Addr, Mode>, failed: set<Addr>, errors: map<Addr, Kind>,
                                       now: map<Addr, Mode>)
    requires errors == (map a | a in failed :: Other) && Handled(modes, Others(errors), FullOf(errors, map[]), now)
    ensures now == Demote(modes, failed) && !AllFull(modes, Others(errors), FullOf(errors, map[]))
    ensures InMode(now, RW) == InMode(modes, RW) - failed
  {
    assert Others(errors) == failed && FullOf(errors, map[]) == map[];
  }

  /** Handling what the replicas answered with handles what they did. */
  lemma {:induction false} AnswersHandled(modes: map<Addr, Mode>, results: map<Addr, Result>, errors: map<Addr, Kind>,
                                          wbs: map<Addr, nat>, err: Option<Failure>, now: map<Addr, Mode>)
    requires InMode(modes, RW) != {}
    requires Others(errors) == Faulty(modes, results) && FullOf(errors, wbs) == FullAt(modes, results)
    requires if errors == map[] then err.None? && now == modes
             else Handled(modes, Others(errors), FullOf(errors, wbs), now) &&
                  err == if AllFull(modes, Others(errors), FullOf(errors, wbs)) then Some(NoSpaceLeft)
                         else if InMode(now, RW) != {} then None else Some(WriteFailed)
    ensures WriteHandled(modes, results, err, now)
  {
    if errors == map[] {
      assert Faulty(modes, results) == {} && FullAt(modes, results) == map[];
      NothingFull(modes, map[]);
    }
  }

  /** The whole sectors that a write touches. */
  method AlignedRange(off: nat, len: nat, ss: nat, size: nat) returns (start: nat, end: nat)
    requires 0 < ss && 0 < len && off + len <= size && Rem(size, ss) == 0
    ensures start <= off < start + ss && off + len <= end < off + len + ss && end <= size
    ensures Rem(start, ss) == 0 && Rem(end, ss) == 0 && Rem(end - start, ss) == 0
  {
    hide Rem;
    RoundDown(off, ss);
    RoundUp(off + len, ss, size);
    start := off - Rem(off, ss);
    end := if Rem(off + len, ss) == 0 then off + len else off + len - Rem(off + len, ss) + ss;
    AlignedAdd(start, end - start, ss);
  }

  lemma {:induction false} RoundDown(o: nat, ss: nat)
    requires 0 < ss
    ensures Rem(o, ss) < ss && Rem(o, ss) <= o && Rem(o - Rem(o, ss), ss) == 0
  {
    StartAligned(Sec(o, ss), ss);
  }

  lemma {:induction false} RoundUp(o: nat, ss: nat, size: nat)
    requires 0 < ss && o <= size && Rem(size, ss) == 0
    ensures Rem(o, ss) < ss && Rem(o, ss) <= o
    ensures Rem(o, ss) != 0 ==> o - Rem(o, ss) + ss <= size && Rem(o - Rem(o, ss) + ss, ss) == 0
  {
    if Rem(o, ss) != 0 {
      StartAligned(Sec(o, ss) + 1, ss);
      SectorFits(o, Sec(size, ss), ss);
    }
  }

  /** An operation that touched nothing. */
  lemma {:induction false} UnchangedFlat(modes: map<Addr, Mode>, data: map<Addr, seq<byte>>, off: nat, b: seq<byte>,
                                         f: Failure, size: nat)
    requires !f.NoSpaceLeft? && !f.WriteFailed?
    ensures WriteIsFlat(modes, data, off, b, Some(f), modes, data, size)
  {
  }

  /** A fan-out is a write of every flat disk that the read-write replicas may hold. */
  lemma {:induction false} FanOutIsFlat(s: EngineState, off: nat, p: seq<byte>, results: map<Addr, Result>,
                                        err: Option<Failure>, s': EngineState, size: nat)
    requires Held(s.modes, s.data, size) && FannedOut(s, off, p, results, err, s', size)
    ensures WriteIsFlat(s.modes, s.data, off, p, err, s'.modes, s'.data, size)
  {
    hide FannedOut, WriteOutcome, Agree;
    forall d: seq<byte> | |d| == size && off + |p| <= size && Agree(s.modes, s.data, d)
      ensures exists d' ::
                |d'| == size && WriteOutcome(d, off, p, err, d', InMode(s'.modes, RW) == {}) &&
                Agree(s'.modes, s'.data, d')
    {
      var d' := FanOutFlat(s, off, p, results, err, s', size, d);
    }
  }

  /** The fan-out of a patched window is a write of the patch. */
  lemma {:induction false} PatchedIsFlat(s: EngineState, start: nat, window: seq<byte>, off: nat, b: seq<byte>,
                                         results: map<Addr, Result>, err: Option<Failure>, s': EngineState, ss: nat,
                                         size: nat)
    requires 0 < ss && Held(s.modes, s.data, size) && off + |b| <= size
    requires PatchedOut(s, start, window, off, b, results, err, s', ss, size)
    ensures WriteIsFlat(s.modes, s.data, off, b, err, s'.modes, s'.data, size)
    ensures !Direct(s.modes, off, |b|, ss) ==> WriteStep(s, off, b, results, err, s', ss, size)
  {
    hide PatchedOut, WriteOutcome, Agree, Direct;
    forall d: seq<byte> | |d| == size && Agree(s.modes, s.data, d)
      ensures exists d' ::
                |d'| == size && WriteOutcome(d, off, b, err, d', InMode(s'.modes, RW) == {}) &&
                Agree(s'.modes, s'.data, d')
    {
      var d' := PatchedOutFlat(s, start, window, off, b, results, err, s', ss, size, d);
    }
  }
}
