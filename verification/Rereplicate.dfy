/**
 The re-replication sweep (control/rereplicate.go): every agent derives the same owner of
 a volume from the shared view; the owner marks replicas on dead hosts as faulted and
 schedules replacements on hosts that the volume does not use yet.
 */
module Rereplicate {
  import opened Sectors
  import opened Sets
  import opened Placement

  datatype State = Running | Pending | Faulted | Deleting

  datatype Replica = Replica(uuid: string, volume: string, host: string, dc: string, state: State)

  datatype Volume = Volume(uuid: string, count: int)

  type Store = map<string, Replica>

  predicate Serving(s: State) {
    s == Running || s == Pending
  }

  // ---------------------------------------------------------------- what every agent sees

  function Mine(store: Store, v: string): set<string> {
    set u | u in store && store[u].volume == v
  }

  /** The replicas of the volume that serve on a live host. */
  function Alive(store: Store, v: string, live: set<string>): set<string> {
    set u | u in store && store[u].volume == v && store[u].state in {Running, Pending} && store[u].host in live
  }

  /** The replicas of the volume on dead hosts, but for those being deleted. */
  function Orphans(store: Store, v: string, live: set<string>): set<string> {
    set u | u in store && store[u].volume == v && store[u].state != Deleting && store[u].host !in live
  }

  function HostsOf(store: Store, ids: set<string>): set<string> {
    set u | u in ids && u in store :: store[u].host
  }

  /** The hosts that a replacement may go to. */
  function Eligible(store: Store, v: string, live: set<string>, placement: seq<Host>): (r: seq<Host>)
    ensures forall h :: h in r <==> h in placement && h.uuid !in HostsOf(store, Mine(store, v)) && h.uuid in live
  {
    if placement == [] then []
    else
      var rest := Eligible(store, v, live, placement[1..]);
      assert placement == [placement[0]] + placement[1..];
      if placement[0].uuid !in HostsOf(store, Mine(store, v)) && placement[0].uuid in live then [placement[0]] + rest
          else rest
  }

  /** The lexically lowest host. */
  ghost predicate IsLeast(h: string, hosts: set<string>) {
    h in hosts && forall g :: g in hosts ==> g == h || Less(h, g)
  }

  /** The host that drives the recovery of a volume: the lowest with a live replica, else the lowest live one. */
  ghost predicate Owns(h: string, store: Store, v: string, live: set<string>) {
    if Alive(store, v, live) != {} then IsLeast(h, HostsOf(store, Alive(store, v, live))) else IsLeast(h, live)
  }

  method LeastHost(hosts: set<string>) returns (h: string)
    requires hosts != {}
    ensures IsLeast(h, hosts)
  {
    h :| h in hosts;
    var todo := hosts - {h};
    while todo != {}
      invariant todo <= hosts && IsLeast(h, hosts - todo)
      decreases |todo|
    {
      var g :| g in todo;
      LessTotal(g, h);
      if Less(g, h) {
        forall x | x in hosts - todo
          ensures x == g || Less(g, x)
        {
          if x != h {
            LessTransitive(g, h, x);
          }
        }
        h := g;
      }
      todo := todo - {g};
    }
  }

  lemma {:induction false} LeastExists(hosts: set<string>) returns (h: string)
    requires hosts != {}
    ensures IsLeast(h, hosts)
    decreases |hosts|
  {
    h :| h in hosts;
    if hosts != {h} {
      var g := LeastExists(hosts - {h});
      LessTotal(g, h);
      if Less(g, h) {
        h := g;
      } else {
        forall x | x in hosts && x != h
          ensures Less(h, x)
        {
          if x != g {
            LessTransitive(h, g, x);
          }
        }
      }
    }
  }

  /** With one shared view, exactly one live host owns a volume: the lowest that serves it, else the lowest of all. */
  lemma {:induction false} OneOwner(store: Store, v: string, live: set<string>) returns (h: string)
    requires live != {}
    ensures h in live && Owns(h, store, v, live)
    ensures forall g :: Owns(g, store, v, live) ==> g == h
    ensures Alive(store, v, live) != {} ==> exists u :: u in Alive(store, v, live) && store[u].host == h
    ensures forall u :: u in Alive(store, v, live) ==> !Less(store[u].host, h)
    ensures Alive(store, v, live) == {} ==> forall g :: g in live ==> !Less(g, h)
  {
    var hosts := HostsOf(store, Alive(store, v, live));
    if Alive(store, v, live) != {} {
      var u :| u in Alive(store, v, live);
      assert store[u].host in hosts;
      h := LeastExists(hosts);
      assert forall u :: u in Alive(store, v, live) ==> store[u].host in hosts;
    } else {
      h := LeastExists(live);
    }
    forall g | Less(g, h)
      ensures !Less(h, g) && g != h
    {
      LessTotal(g, h);
    }
    forall g | Owns(g, store, v, live)
      ensures g == h
    {
      LessTotal(g, h);
    }
  }

  // ---------------------------------------------------------------- what the owner writes

  /** The orphans marked as faulted. */
  function FaultAll(store: Store, ids: set<string>): (r: Store)
    ensures r.Keys == store.Keys
    ensures forall u :: u in store ==> r[u] == if u in ids then store[u].(state := Faulted) else store[u]
  {
    map u | u in store :: if u in ids then store[u].(state := Faulted) else store[u]
  }

  function NewUuid(v: string, h: string): string {
    v + "-replacement-" + h
  }

  /** Replacement ids tell hosts apart, and also volumes whose ids are equally long. */
  lemma {:induction false} NewUuidInjective(v: string, h: string, w: string, g: string)
    requires |v| == |w| && NewUuid(v, h) == NewUuid(w, g)
    ensures v == w && h == g
  {
    var x, y := NewUuid(v, h), NewUuid(w, g);
    var k := |v| + |"-replacement-"|;
    assert x[..|v|] == v && y[..|w|] == w;
    assert x[k..] == h && y[k..] == g;
  }

  function NewReplica(v: string, p: Host): Replica {
    Replica(NewUuid(v, p.uuid), v, p.uuid, p.dc, Pending)
  }

  /** The replacements for the picked hosts added to the store. */
  function AddAll(store: Store, v: string, picks: seq<Host>): Store
    decreases |picks|
  {
    if picks == [] then store
    else
      var last := picks[|picks| - 1];
      AddAll(store, v, picks[..|picks| - 1])[NewUuid(v, last.uuid) := NewReplica(v, last)]
  }

  /** How many replacements the sweep schedules. */
  function Wanted(store: Store, v: Volume, live: set<string>, placement: seq<Host>): nat {
    var deficit := v.count - |Alive(store, v.uuid, live)|;
    if deficit <= 0 then 0 else Min(deficit, |Eligible(store, v.uuid, live, placement)|)
  }

  /** What placement makes of the eligible hosts: all `count` hosts that it picks, or none. */
  ghost predicate Chosen(eligible: seq<Host>, count: nat, picks: seq<Host>) {
    if count == 0 then picks == [] else exists pool :: ChosenFrom(eligible, count, picks, pool)
  }

  ghost predicate ChosenFrom(eligible: seq<Host>, count: nat, picks: seq<Host>, pool: seq<Host>) {
    && Sorted(pool) && multiset(pool) == multiset(eligible)
    && picks == if |Picks(pool, count)| == count then Picks(pool, count) else []
  }

  /** `now` is the store after the owner's sweep of the volume. */
  ghost predicate Swept(store: Store, v: Volume, live: set<string>, placement: seq<Host>, now: Store) {
    exists picks :: SweptWith(store, v, live, placement, picks, now)
  }

  ghost predicate SweptWith(store: Store, v: Volume, live: set<string>, placement: seq<Host>, picks: seq<Host>,
                            now: Store) {
    && DistinctHosts(picks) && |picks| == Wanted(store, v, live, placement)
    && Chosen(Eligible(store, v.uuid, live, placement), Wanted(store, v, live, placement), picks)
    && (forall h :: h in picks ==> h in Eligible(store, v.uuid, live, placement))
    && now == AddAll(FaultAll(store, Orphans(store, v.uuid, live)), v.uuid, picks)
  }

  /** The same whatever candidates there are: no replacements, or as many as wanted, on eligible hosts. */
  ghost predicate SweptSome(store: Store, v: Volume, live: set<string>, placement: seq<Host>, now: Store) {
    exists picks :: SweptSomeWith(store, v, live, placement, picks, now)
  }

  ghost predicate SweptSomeWith(store: Store, v: Volume, live: set<string>, placement: seq<Host>, picks: seq<Host>,
                                now: Store) {
    && (picks == [] || |picks| == Wanted(store, v, live, placement))
    && Chosen(Eligible(store, v.uuid, live, placement), Wanted(store, v, live, placement), picks)
    && (forall h :: h in picks ==> h in Eligible(store, v.uuid, live, placement))
    && now == AddAll(FaultAll(store, Orphans(store, v.uuid, live)), v.uuid, picks)
  }

  lemma {:induction false} SweptIsSome(store: Store, v: Volume, live: set<string>, placement: seq<Host>, now: Store)
    requires Swept(store, v, live, placement, now)
    ensures SweptSome(store, v, live, placement, now)
  {
    var picks :| SweptWith(store, v, live, placement, picks, now);
    assert SweptSomeWith(store, v, live, placement, picks, now);
  }

  // ---------------------------------------------------------------- racing agents make the same writes

  /** How often a host is eligible. */
  lemma {:induction false} EligibleCount(store: Store, v: string, live: set<string>, placement: seq<Host>, h: Host)
    ensures multiset(Eligible(store, v, live, placement))[h] ==
            if h.uuid !in HostsOf(store, Mine(store, v)) && h.uuid in live then multiset(placement)[h] else 0
    decreases |placement|
  {
    if placement != [] {
      EligibleCount(store, v, live, placement[1..], h);
      assert placement == [placement[0]] + placement[1..];
    }
  }

  lemma {:induction false} EligiblePermutes(store: Store, v: string, live: set<string>, p: seq<Host>, q: seq<Host>)
    requires multiset(p) == multiset(q)
    ensures multiset(Eligible(store, v, live, p)) == multiset(Eligible(store, v, live, q))
    ensures |Eligible(store, v, live, p)| == |Eligible(store, v, live, q)|
  {
    var a, b := multiset(Eligible(store, v, live, p)), multiset(Eligible(store, v, live, q));
    forall h: Host
      ensures a[h] == b[h]
    {
      EligibleCount(store, v, live, p, h);
      EligibleCount(store, v, live, q, h);
    }
    assert a == b;
    assert |Eligible(store, v, live, p)| == |a| && |Eligible(store, v, live, q)| == |b|;
  }

  lemma {:induction false} ChosenUnique(a: seq<Host>, b: seq<Host>, count: nat, x: seq<Host>, y: seq<Host>)
    requires multiset(a) == multiset(b) && Chosen(a, count, x) && Chosen(b, count, y)
    ensures x == y
  {
    if count != 0 {
      var poolA :| ChosenFrom(a, count, x, poolA);
      var poolB :| ChosenFrom(b, count, y, poolB);
      SortedUnique(poolA, poolB);
    }
  }

  /**
   The sweep of a volume is determined by the store, the live hosts and the set of candidates: two agents that both
   think that they own the volume write the same, in whatever order they list the candidates.
   */
  lemma {:induction false} SweepDetermined(store: Store, v: Volume, live: set<string>, p: seq<Host>, q: seq<Host>,
                                           a: Store, b: Store)
    requires multiset(p) == multiset(q) && SweptSome(store, v, live, p, a) && SweptSome(store, v, live, q, b)
    ensures a == b
  {
    hide Eligible, Chosen, AddAll;
    var x :| SweptSomeWith(store, v, live, p, x, a);
    var y :| SweptSomeWith(store, v, live, q, y, b);
    EligiblePermutes(store, v.uuid, live, p, q);
    ChosenUnique(Eligible(store, v.uuid, live, p), Eligible(store, v.uuid, live, q), Wanted(store, v, live, p), x, y);
  }

  /** The replacements reach as many DCs as the eligible hosts allow. */
  lemma {:induction false} SweepSpreads(store: Store, v: Volume, live: set<string>, placement: seq<Host>,
                                        picks: seq<Host>, now: Store)
    requires SweptWith(store, v, live, placement, picks, now) && DistinctHosts(placement)
    ensures |Dcs(picks)| == Min(|picks|, |Dcs(Eligible(store, v.uuid, live, placement))|)
  {
    hide AddAll, FaultAll, Picks, Sorted, DistinctHosts;
    var eligible := Eligible(store, v.uuid, live, placement);
    if picks == [] {
      assert Dcs(picks) == {};
    } else {
      EligibleDistinct(store, v.uuid, live, placement);
      var pool :| ChosenFrom(eligible, |picks|, picks, pool);
      DistinctPermuted(eligible, pool);
      PicksDcs(pool, |picks|);
      SameDcs(pool, eligible);
    }
  }

  lemma {:induction false} SameDcs(a: seq<Host>, b: seq<Host>)
    requires forall h :: h in a <==> h in b
    ensures Dcs(a) == Dcs(b)
  {
    DcsWithinSeq(a, b);
    DcsWithinSeq(b, a);
  }

  lemma {:induction false} DcsWithinSeq(a: seq<Host>, b: seq<Host>)
    requires forall h :: h in a ==> h in b
    ensures Dcs(a) <= Dcs(b)
  {
    forall d | d in Dcs(a)
      ensures d in Dcs(b)
    {
      var i :| 0 <= i < |a| && a[i].dc == d;
      assert a[i] in b;
      var j :| 0 <= j < |b| && b[j] == a[i];
      assert b[j].dc == d;
    }
  }

  // ---------------------------------------------------------------- what the sweep achieves

  function NewIds(v: string, picks: seq<Host>): set<string> {
    set i | 0 <= i < |picks| :: NewUuid(v, picks[i].uuid)
  }

  lemma {:induction false} NewIdsNext(v: string, picks: seq<Host>, p: Host)
    ensures NewIds(v, picks + [p]) == NewIds(v, picks) + {NewUuid(v, p.uuid)}
    ensures DistinctHosts(picks + [p]) ==> NewUuid(v, p.uuid) !in NewIds(v, picks)
  {
    hide NewUuid;
    var now := picks + [p];
    assert now[|picks|] == p;
    forall i | 0 <= i < |picks|
      ensures now[i] == picks[i] && (DistinctHosts(now) ==> NewUuid(v, picks[i].uuid) != NewUuid(v, p.uuid))
    {
      if DistinctHosts(now) && NewUuid(v, picks[i].uuid) == NewUuid(v, p.uuid) {
        NewUuidInjective(v, picks[i].uuid, v, p.uuid);
      }
    }
  }

  lemma {:induction false} InNewIds(v: string, picks: seq<Host>)
    ensures forall i :: 0 <= i < |picks| ==> NewUuid(v, picks[i].uuid) in NewIds(v, picks)
  {
    hide NewUuid;
  }

  /** The store after the replacements were added, entry by entry. */
  ghost predicate HasAdded(store: Store, v: string, picks: seq<Host>, now: Store) {
    && now.Keys == store.Keys + NewIds(v, picks)
    && (forall u :: u in store && u !in NewIds(v, picks) ==> now[u] == store[u])
    && (forall i :: 0 <= i < |picks| ==>
        NewUuid(v, picks[i].uuid) in now && now[NewUuid(v, picks[i].uuid)] == NewReplica(v, picks[i]))
  }

  lemma {:induction false} AddedNext(store: Store, v: string, rest: seq<Host>, p: Host, now: Store)
    requires HasAdded(store, v, rest, now) && DistinctHosts(rest + [p])
    ensures HasAdded(store, v, rest + [p], now[NewUuid(v, p.uuid) := NewReplica(v, p)])
  {
    hide NewUuid, NewReplica, NewIds, DistinctHosts;
    NewIdsNext(v, rest, p);
    InNewIds(v, rest);
    var picks, now' := rest + [p], now[NewUuid(v, p.uuid) := NewReplica(v, p)];
    forall i | 0 <= i < |picks|
      ensures NewUuid(v, picks[i].uuid) in now' && now'[NewUuid(v, picks[i].uuid)] == NewReplica(v, picks[i])
    {
      if i < |rest| {
        assert picks[i] == rest[i];
      }
    }
  }

  lemma {:induction false} Added(store: Store, v: string, picks: seq<Host>)
    requires DistinctHosts(picks)
    ensures HasAdded(store, v, picks, AddAll(store, v, picks)) && |NewIds(v, picks)| == |picks|
    decreases |picks|
  {
    hide NewUuid, NewReplica;
    if picks != [] {
      var last := |picks| - 1;
      var rest, p := picks[..last], picks[last];
      assert picks == rest + [p];
      Added(store, v, rest);
      NewIdsNext(v, rest, p);
      AddedNext(store, v, rest, p, AddAll(store, v, rest));
    }
  }

  /** The ids that replacements would get are not taken. */
  ghost predicate IdsFree(store: Store, v: string, live: set<string>, placement: seq<Host>) {
    forall h :: h in Eligible(store, v, live, placement) ==> NewUuid(v, h.uuid) !in store
  }

  ghost predicate NewIsFree(store: Store, v: string, picks: seq<Host>) {
    forall u :: u in NewIds(v, picks) ==> u !in store
  }

  lemma {:induction false} PicksFree(store: Store, v: Volume, live: set<string>, placement: seq<Host>, picks: seq<Host>,
                                     now: Store)
    requires SweptWith(store, v, live, placement, picks, now) && IdsFree(store, v.uuid, live, placement)
    ensures NewIsFree(store, v.uuid, picks)
  {
    hide NewUuid;
    forall u | u in NewIds(v.uuid, picks)
      ensures u !in store
    {
      var i :| 0 <= i < |picks| && u == NewUuid(v.uuid, picks[i].uuid);
      assert picks[i] in picks;
    }
  }

  /** A replacement, as it is in the store after the sweep. */
  lemma {:induction false} NewEntry(store: Store, v: Volume, live: set<string>, placement: seq<Host>, picks: seq<Host>,
                                    now: Store, u: string)
    requires SweptWith(store, v, live, placement, picks, now) && u in NewIds(v.uuid, picks)
    requires HasAdded(FaultAll(store, Orphans(store, v.uuid, live)), v.uuid, picks, now)
    ensures u in now && now[u].volume == v.uuid && now[u].state == Pending && now[u].host in live
    ensures now[u].host !in HostsOf(store, Mine(store, v.uuid))
    ensures exists i :: 0 <= i < |picks| && u == NewUuid(v.uuid, picks[i].uuid) && now[u].host == picks[i].uuid
  {
    hide NewUuid, AddAll, FaultAll;
    var i :| 0 <= i < |picks| && u == NewUuid(v.uuid, picks[i].uuid);
    assert picks[i] in picks;
  }

  /** The live replicas after the sweep: those of before and the replacements. */
  lemma {:induction false} AliveAfter(store: Store, v: Volume, live: set<string>, placement: seq<Host>,
                                      picks: seq<Host>, now: Store)
    requires SweptWith(store, v, live, placement, picks, now) && IdsFree(store, v.uuid, live, placement)
    ensures Alive(now, v.uuid, live) == Alive(store, v.uuid, live) + NewIds(v.uuid, picks)
    ensures |Alive(now, v.uuid, live)| == |Alive(store, v.uuid, live)| + |picks| &&
            |picks| == Wanted(store, v, live, placement)
  {
    hide NewUuid, AddAll, NewReplica, NewIds, Wanted, Chosen, Eligible, DistinctHosts, IdsFree;
    var left := FaultAll(store, Orphans(store, v.uuid, live));
    PicksFree(store, v, live, placement, picks, now);
    Added(left, v.uuid, picks);
    var a, b := Alive(store, v.uuid, live), NewIds(v.uuid, picks);
    forall u
      ensures u in Alive(now, v.uuid, live) <==> u in a || u in b
      ensures u in a ==> u !in b
    {
      EntryAfter(store, v, live, placement, picks, now, u);
    }
    JoinedSize(a, b, Alive(now, v.uuid, live));
  }

  /** What the sweep makes of an entry. */
  lemma {:induction false} EntryAfter(store: Store, v: Volume, live: set<string>, placement: seq<Host>,
                                      picks: seq<Host>, now: Store, u: string)
    requires SweptWith(store, v, live, placement, picks, now) && NewIsFree(store, v.uuid, picks)
    requires HasAdded(FaultAll(store, Orphans(store, v.uuid, live)), v.uuid, picks, now)
    ensures u in Alive(now, v.uuid, live) <==> u in Alive(store, v.uuid, live) || u in NewIds(v.uuid, picks)
    ensures u in FaultedIn(now) <==> u in FaultedIn(store) || u in Unmarked(store, Orphans(store, v.uuid, live))
    ensures u in store ==> u !in NewIds(v.uuid, picks)
  {
    hide NewUuid, AddAll, NewReplica, NewIds, Wanted, Chosen, Eligible, DistinctHosts, HostsOf;
    if u in NewIds(v.uuid, picks) {
      NewEntry(store, v, live, placement, picks, now, u);
    }
  }

  lemma {:induction false} JoinedSize(a: set<string>, b: set<string>, c: set<string>)
    requires forall u :: u in c <==> u in a || u in b
    requires forall u :: u in a ==> u !in b
    ensures c == a + b && |c| == |a| + |b|
  {
    assert c == a + b;
  }

  /**
   The sweep brings the live replicas to the wanted number, or as near as free hosts allow, and never takes any away.
   */
  lemma {:induction false} SweepHeals(store: Store, v: Volume, live: set<string>, placement: seq<Host>, now: Store)
    requires Swept(store, v, live, placement, now) && IdsFree(store, v.uuid, live, placement)
    ensures var alive, free := |Alive(store, v.uuid, live)|, |Eligible(store, v.uuid, live, placement)|;
            |Alive(now, v.uuid, live)| == Max(alive, Min(v.count, alive + free))
  {
    hide SweptWith, Alive, Eligible, IdsFree, NewIds;
    var picks: seq<Host> :| SweptWith(store, v, live, placement, picks, now);
    AliveAfter(store, v, live, placement, picks, now);
  }

  /** Replacements go to different hosts, none of which the volume used before, and nothing of other volumes changes. */
  lemma {:induction false} NoHostReused(store: Store, v: Volume, live: set<string>, placement: seq<Host>, now: Store)
    requires Swept(store, v, live, placement, now) && IdsFree(store, v.uuid, live, placement)
    ensures forall u :: u in store ==> u in now && now[u].host == store[u].host && now[u].volume == store[u].volume
    ensures forall u :: u in now && u !in store ==>
              now[u].volume == v.uuid && now[u].host in live && now[u].host !in HostsOf(store, Mine(store, v.uuid))
    ensures forall u, w :: u in now && u !in store && w in now && w !in store && now[u].host == now[w].host ==> u == w
    ensures forall u :: u in store && store[u].volume != v.uuid ==> now[u] == store[u]
  {
    hide NewUuid, AddAll, NewIds, NewReplica, Wanted, HostsOf, Eligible;
    var picks: seq<Host> :| SweptWith(store, v, live, placement, picks, now);
    var left := FaultAll(store, Orphans(store, v.uuid, live));
    PicksFree(store, v, live, placement, picks, now);
    Added(left, v.uuid, picks);
    forall u | u in now && u !in store
      ensures now[u].volume == v.uuid && now[u].host in live && now[u].host !in HostsOf(store, Mine(store, v.uuid))
      ensures exists i :: 0 <= i < |picks| && u == NewUuid(v.uuid, picks[i].uuid) && now[u].host == picks[i].uuid
    {
      NewEntry(store, v, live, placement, picks, now, u);
    }
  }

  /** Nothing is left to do for the volume: no unmarked orphan, and enough live replicas or no free host. */
  ghost predicate Settled(store: Store, v: Volume, live: set<string>, placement: seq<Host>) {
    && (forall u :: u in Orphans(store, v.uuid, live) ==> store[u].state == Faulted)
    && (|Alive(store, v.uuid, live)| >= v.count || Eligible(store, v.uuid, live, placement) == [])
  }

  /** No sweep writes anything for the volume: nobody is orphaned, nobody is left to act, or it is settled. */
  ghost predicate Quiet(store: Store, v: Volume, live: set<string>, placement: seq<Host>) {
    || Orphans(store, v.uuid, live) == {}
    || (Alive(store, v.uuid, live) == {} && live == {})
    || Settled(store, v, live, placement)
  }

  /** A filtered list of different hosts holds different hosts. */
  lemma {:induction false} EligibleDistinct(store: Store, v: string, live: set<string>, placement: seq<Host>)
    requires DistinctHosts(placement)
    ensures DistinctHosts(Eligible(store, v, live, placement))
    decreases |placement|
  {
    if placement != [] {
      EligibleDistinct(store, v, live, placement[1..]);
      forall h | h in Eligible(store, v, live, placement[1..])
        ensures h.uuid != placement[0].uuid
      {
        assert h in placement[1..];
      }
    }
  }

  /** If as many hosts were picked as were eligible, every eligible host was picked. */
  lemma {:induction false} AllPicked(picks: seq<Host>, eligible: seq<Host>, h: Host)
    requires DistinctHosts(picks) && DistinctHosts(eligible) && |picks| >= |eligible| &&
             (forall p :: p in picks ==> p in eligible) && h in eligible
    ensures h.uuid in Uuids(picks)
  {
    CountUuids(picks);
    CountUuids(eligible);
    forall u | u in Uuids(picks)
      ensures u in Uuids(eligible)
    {
      var i :| 0 <= i < |picks| && picks[i].uuid == u;
      assert picks[i] in picks;
    }
    SubsetSize(Uuids(picks), Uuids(eligible));
    assert h.uuid in Uuids(eligible);
  }

  /** After the sweep the volume is settled. */
  lemma {:induction false} SweepSettles(store: Store, v: Volume, live: set<string>, placement: seq<Host>, now: Store)
    requires Swept(store, v, live, placement, now) && IdsFree(store, v.uuid, live, placement) &&
             DistinctHosts(placement)
    ensures Settled(now, v, live, placement)
  {
    hide NewUuid, AddAll, NewIds, NewReplica, HostsOf, Eligible;
    var picks: seq<Host> :| SweptWith(store, v, live, placement, picks, now);
    var left := FaultAll(store, Orphans(store, v.uuid, live));
    PicksFree(store, v, live, placement, picks, now);
    Added(left, v.uuid, picks);
    AliveAfter(store, v, live, placement, picks, now);
    forall u | u in Orphans(now, v.uuid, live)
      ensures now[u].state == Faulted
    {
      assert u !in Alive(now, v.uuid, live);
    }
    if |Alive(now, v.uuid, live)| < v.count {
      NobodyEligible(store, v, live, placement, picks, now);
    }
  }

  lemma {:induction false} HasMember(s: seq<Host>)
    ensures s != [] ==> exists h :: h in s
  {
    if s != [] {
      assert s[0] in s;
    }
  }

  lemma {:induction false} NobodyEligible(store: Store, v: Volume, live: set<string>, placement: seq<Host>,
                                          picks: seq<Host>, now: Store)
    requires SweptWith(store, v, live, placement, picks, now) && IdsFree(store, v.uuid, live, placement) &&
             DistinctHosts(placement)
    requires |picks| >= |Eligible(store, v.uuid, live, placement)|
    ensures Eligible(now, v.uuid, live, placement) == []
  {
    hide NewUuid, AddAll;
    var left := FaultAll(store, Orphans(store, v.uuid, live));
    PicksFree(store, v, live, placement, picks, now);
    Added(left, v.uuid, picks);
    var eligible := Eligible(store, v.uuid, live, placement);
    EligibleDistinct(store, v.uuid, live, placement);
    forall h | h in placement && h.uuid in live
      ensures h.uuid in HostsOf(now, Mine(now, v.uuid))
    {
      if h.uuid in HostsOf(store, Mine(store, v.uuid)) {
        var u :| u in Mine(store, v.uuid) && store[u].host == h.uuid;
        assert u in Mine(now, v.uuid) && now[u].host == h.uuid;
      } else {
        assert h in eligible;
        AllPicked(picks, eligible, h);
        var i :| 0 <= i < |picks| && picks[i].uuid == h.uuid;
        var u := NewUuid(v.uuid, picks[i].uuid);
        assert u in NewIds(v.uuid, picks) && u in Mine(now, v.uuid) && now[u].host == h.uuid;
      }
    }
    HasMember(Eligible(now, v.uuid, live, placement));
  }

  /** A sweep of a settled volume writes nothing. */
  lemma {:induction false} SettledStays(store: Store, v: Volume, live: set<string>, placement: seq<Host>, now: Store)
    requires Settled(store, v, live, placement) && SweptSome(store, v, live, placement, now)
    ensures now == store
  {
    hide Eligible, Alive;
    var picks: seq<Host> :| SweptSomeWith(store, v, live, placement, picks, now);
    assert picks == [];
    assert FaultAll(store, Orphans(store, v.uuid, live)) == store;
  }

  // ---------------------------------------------------------------- independence of volumes

  /** The two stores hold the same replicas of volume `w`. */
  ghost predicate SameFor(a: Store, b: Store, w: string) {
    Mine(a, w) == Mine(b, w) && forall u :: u in Mine(a, w) ==> a[u] == b[u]
  }

  lemma {:induction false} SameView(a: Store, b: Store, w: string, live: set<string>, placement: seq<Host>)
    requires SameFor(a, b, w)
    ensures Alive(a, w, live) == Alive(b, w, live) && Orphans(a, w, live) == Orphans(b, w, live)
    ensures HostsOf(a, Mine(a, w)) == HostsOf(b, Mine(b, w)) &&
            HostsOf(a, Alive(a, w, live)) == HostsOf(b, Alive(b, w, live))
    ensures Eligible(a, w, live, placement) == Eligible(b, w, live, placement)
    decreases |placement|
  {
    forall u
      ensures u in Mine(a, w) <==> u in Mine(b, w)
    {
    }
    assert Alive(a, w, live) == Alive(b, w, live) by {
      forall u
        ensures u in Alive(a, w, live) <==> u in Alive(b, w, live)
      {
        assert u in Mine(a, w) <==> u in Mine(b, w);
      }
    }
    assert Orphans(a, w, live) == Orphans(b, w, live) by {
      forall u
        ensures u in Orphans(a, w, live) <==> u in Orphans(b, w, live)
      {
        assert u in Mine(a, w) <==> u in Mine(b, w);
      }
    }
    SameHosts(a, b, w, Mine(a, w));
    SameHosts(a, b, w, Alive(a, w, live));
    if placement != [] {
      SameView(a, b, w, live, placement[1..]);
    }
  }

  lemma {:induction false} SameHosts(a: Store, b: Store, w: string, ids: set<string>)
    requires SameFor(a, b, w) && ids <= Mine(a, w)
    ensures HostsOf(a, ids) == HostsOf(b, ids)
  {
    forall h
      ensures h in HostsOf(a, ids) <==> h in HostsOf(b, ids)
    {
      if h in HostsOf(a, ids) {
        var u :| u in ids && u in a && a[u].host == h;
        assert u in Mine(a, w) && u in Mine(b, w);
      }
      if h in HostsOf(b, ids) {
        var u :| u in ids && u in b && b[u].host == h;
        assert u in Mine(a, w);
      }
    }
  }

  /** Sweeping one volume leaves the others alone. */
  lemma {:induction false} OthersUntouched(store: Store, v: Volume, live: set<string>, placement: seq<Host>, now: Store,
                                           w: string)
    requires Swept(store, v, live, placement, now) && IdsFree(store, v.uuid, live, placement) && w != v.uuid
    ensures SameFor(store, now, w)
  {
    NoHostReused(store, v, live, placement, now);
  }

  /** ... and takes none of the ids that their replacements would get. */
  lemma {:induction false} OthersFree(store: Store, v: Volume, live: set<string>, placement: seq<Host>, now: Store,
                                      w: string)
    requires Swept(store, v, live, placement, now) && IdsFree(store, v.uuid, live, placement) && w != v.uuid &&
             |w| == |v.uuid|
    requires IdsFree(store, w, live, placement)
    ensures IdsFree(now, w, live, placement)
  {
    hide NewUuid, AddAll, Alive, HostsOf, Mine, Wanted, NewReplica, SameFor, DistinctHosts;
    OthersUntouched(store, v, live, placement, now, w);
    SameView(store, now, w, live, placement);
    var picks: seq<Host> :| SweptWith(store, v, live, placement, picks, now);
    Added(FaultAll(store, Orphans(store, v.uuid, live)), v.uuid, picks);
    forall h | h in Eligible(now, w, live, placement)
      ensures NewUuid(w, h.uuid) !in now
    {
      forall i | 0 <= i < |picks|
        ensures NewUuid(w, h.uuid) != NewUuid(v.uuid, picks[i].uuid)
      {
        if NewUuid(w, h.uuid) == NewUuid(v.uuid, picks[i].uuid) {
          NewUuidInjective(w, h.uuid, v.uuid, picks[i].uuid);
        }
      }
    }
  }

  // ---------------------------------------------------------------- the agent

  /** The orphans that are not marked yet. */
  function Unmarked(store: Store, ids: set<string>): set<string> {
    set u | u in ids && u in store && store[u].state != Faulted
  }

  /** Another agent owns the volume, which needs one to act. */
  ghost predicate Skips(store: Store, v: Volume, live: set<string>, local: string) {
    && Orphans(store, v.uuid, live) != {} && (Alive(store, v.uuid, live) != {} || live != {})
    && local != "" && !Owns(local, store, v.uuid, live)
  }

  /** There are not enough eligible hosts for the replacements that the volume lacks. */
  ghost predicate RunsShort(store: Store, v: Volume, live: set<string>, placement: seq<Host>) {
    |Eligible(store, v.uuid, live, placement)| < v.count - |Alive(store, v.uuid, live)|
  }

  datatype Stats = Stats(scanned: nat, faulted: nat, scheduled: nat, skipped: nat, short: nat)

  /** Sorts the replicas of a volume into live ones and orphans. */
  method Partition(store: Store, v: string, live: set<string>)
    returns (alive: set<string>, orphans: set<string>, used: set<string>)
    ensures alive == Alive(store, v, live) && orphans == Orphans(store, v, live) && used == HostsOf(store, alive)
  {
    hide HostsOf, Divided, Mine;
    alive, orphans, used := {}, {}, {};
    NoHostUsed(store);
    NoneSorted(store, v, live);
    var todo := Mine(store, v);
    while todo != {}
      invariant todo <= Mine(store, v) && Divided(store, v, live, todo, alive, orphans) && used == HostsOf(store, alive)
      decreases |todo|
    {
      var u :| u in todo;
      SortNext(store, v, live, todo, alive, orphans, u);
      var r := store[u];
      if Serving(r.state) && r.host in live {
        HostAdded(store, alive, u);
        alive := alive + {u};
        used := used + {r.host};
      } else if r.state != Deleting && r.host !in live {
        orphans := orphans + {u};
      }
      todo := todo - {u};
    }
    AllSorted(store, v, live, alive, orphans);
  }

  /** The replicas of the volume but those of `todo` were sorted. */
  ghost predicate Divided(store: Store, v: string, live: set<string>, todo: set<string>, alive: set<string>,
                          orphans: set<string>) {
    alive == Alive(store, v, live) - todo && orphans == Orphans(store, v, live) - todo
  }

  lemma {:induction false} NoneSorted(store: Store, v: string, live: set<string>)
    ensures Divided(store, v, live, Mine(store, v), {}, {})
  {
  }

  lemma {:induction false} SortNext(store: Store, v: string, live: set<string>, todo: set<string>, alive: set<string>,
                                    orphans: set<string>, u: string)
    requires Divided(store, v, live, todo, alive, orphans) && u in todo && todo <= Mine(store, v)
    ensures u in store
    ensures var isAlive, isOrphan := Serving(store[u].state) && store[u].host in live,
                                     store[u].state != Deleting && store[u].host !in live;
            Divided(store, v, live, todo - {u}, alive + (if isAlive then {u} else {}),
                orphans + (if isOrphan then {u} else {}))
  {
  }

  lemma {:induction false} AllSorted(store: Store, v: string, live: set<string>, alive: set<string>,
                                     orphans: set<string>)
    requires Divided(store, v, live, {}, alive, orphans)
    ensures alive == Alive(store, v, live) && orphans == Orphans(store, v, live)
  {
  }

  lemma {:induction false} NoHostUsed(store: Store)
    ensures HostsOf(store, {}) == {}
  {
  }

  lemma {:induction false} HostAdded(store: Store, ids: set<string>, u: string)
    requires u in store
    ensures HostsOf(store, ids + {u}) == HostsOf(store, ids) + {store[u].host}
  {
    forall h
      ensures h in HostsOf(store, ids + {u}) <==> h in HostsOf(store, ids) || h == store[u].host
    {
      if h == store[u].host {
        assert u in ids + {u};
      }
      if h in HostsOf(store, ids) {
        var w :| w in ids && w in store && store[w].host == h;
        assert w in ids + {u};
      }
    }
  }

  /** The candidates that are live and that the volume does not use yet. */
  method Candidates(store: Store, v: string, live: set<string>, placement: seq<Host>) returns (c: seq<Host>)
    ensures c == Eligible(store, v, live, placement)
  {
    hide HostsOf, Mine, Eligible;
    c := [];
    var excluded := HostsOf(store, Mine(store, v));
    assert placement[0..] == placement;
    for i := 0 to |placement|
      invariant Eligible(store, v, live, placement) == c + Eligible(store, v, live, placement[i..])
    {
      EligibleStep(store, v, live, placement, i);
      if placement[i].uuid !in excluded && placement[i].uuid in live {
        c := c + [placement[i]];
      }
    }
    EligibleNone(store, v, live, placement);
  }

  lemma {:induction false} EligibleStep(store: Store, v: string, live: set<string>, placement: seq<Host>, i: nat)
    requires i < |placement|
    ensures Eligible(store, v, live, placement[i..]) ==
            (if placement[i].uuid !in HostsOf(store, Mine(store, v)) && placement[i].uuid in live then [placement[i]]
                else []) +
            Eligible(store, v, live, placement[i + 1..])
  {
    hide HostsOf, Mine;
    assert placement[i..][1..] == placement[i + 1..] && placement[i..][0] == placement[i];
  }

  lemma {:induction false} EligibleNone(store: Store, v: string, live: set<string>, placement: seq<Host>)
    ensures Eligible(store, v, live, placement[|placement|..]) == []
  {
  }

  /** Places `count` replacements on the candidates; none if placement refuses. */
  method Choose(candidates: seq<Host>, count: nat) returns (picks: seq<Host>)
    requires 0 < count <= |candidates|
    ensures Chosen(candidates, count, picks) && (picks == [] || |picks| == count)
    ensures forall h :: h in picks ==> h in candidates
    ensures DistinctHosts(candidates) ==> |picks| == count && DistinctHosts(picks)
  {
    hide Sorted, Picks, DistinctHosts;
    var placed := PlaceReplicas(candidates, count);
    if placed.Refused? {
      ghost var pool :| Sorted(pool) && multiset(pool) == multiset(candidates) && |Picks(pool, count)| != count;
      assert ChosenFrom(candidates, count, [], pool);
      return [];
    }
    picks := placed.hosts;
    ghost var pool :| Sorted(pool) && multiset(pool) == multiset(candidates) && picks == Picks(pool, count);
    assert ChosenFrom(candidates, count, picks, pool);
  }

  /** One more orphan marked. */
  lemma {:induction false} FaultNext(store: Store, ids: set<string>, todo: set<string>, u: string, now: Store)
    requires todo <= ids && u in todo && u in store && now == FaultAll(store, ids - todo)
    ensures u in now && now[u] == store[u]
    ensures FaultAll(store, ids - (todo - {u})) == now[u := now[u].(state := Faulted)]
    ensures store[u].state == Faulted ==> FaultAll(store, ids - (todo - {u})) == now
  {
    var next := FaultAll(store, ids - (todo - {u}));
    assert next == now[u := now[u].(state := Faulted)];
    if store[u].state == Faulted {
      assert now[u].(state := Faulted) == now[u];
    }
  }

  lemma {:induction false} NoneMarked(store: Store, ids: set<string>)
    ensures FaultAll(store, ids - ids) == store && Unmarked(store, ids - ids) == {}
  {
  }

  lemma {:induction false} UnmarkedNext(store: Store, ids: set<string>, todo: set<string>, u: string)
    requires todo <= ids && u in todo && u in store
    ensures var before, now := Unmarked(store, ids - todo), Unmarked(store, ids - (todo - {u}));
            |now| == if store[u].state != Faulted then |before| + 1 else |before|
  {
    var before, now := Unmarked(store, ids - todo), Unmarked(store, ids - (todo - {u}));
    if store[u].state != Faulted {
      assert now == before + {u} && u !in before;
    } else {
      assert now == before;
    }
  }

  class ControlPlane {
    var replicas: Store

    constructor (replicas: Store)
      ensures this.replicas == replicas
    {
      this.replicas := replicas;
    }

    method MarkFaulted(orphans: set<string>) returns (n: nat)
      requires orphans <= replicas.Keys
      modifies this
      ensures replicas == FaultAll(old(replicas), orphans) && n == |Unmarked(old(replicas), orphans)|
    {
      hide FaultAll, Unmarked;
      n := 0;
      var todo := orphans;
      NoneMarked(replicas, orphans);
      while todo != {}
        invariant todo <= orphans && replicas == FaultAll(old(replicas), orphans - todo)
        invariant n == |Unmarked(old(replicas), orphans - todo)|
        decreases |todo|
      {
        var u :| u in todo;
        UnmarkedNext(old(replicas), orphans, todo, u);
        FaultNext(old(replicas), orphans, todo, u, replicas);
        if replicas[u].state != Faulted {
          replicas := replicas[u := replicas[u].(state := Faulted)];
          n := n + 1;
        }
        todo := todo - {u};
      }
      assert orphans - todo == orphans;
    }

    method Schedule(v: string, picks: seq<Host>)
      modifies this
      ensures replicas == AddAll(old(replicas), v, picks)
    {
      hide NewUuid;
      for i := 0 to |picks|
        invariant replicas == AddAll(old(replicas), v, picks[..i])
      {
        assert picks[..i + 1][..i] == picks[..i];
        replicas := replicas[NewUuid(v, picks[i].uuid) := NewReplica(v, picks[i])];
      }
      assert picks[..|picks|] == picks;
    }

    /** One volume's part of a sweep by the agent on host `local`; an empty name acts for every volume. */
    method ProcessVolume(v: Volume, live: set<string>, placement: seq<Host>, local: string, stats: Stats)
      returns (stats': Stats)
      modifies this
      ensures !Acts(old(replicas), v, live, local) ==> replicas == old(replicas)
      ensures Acts(old(replicas), v, live, local) ==> SweptSome(old(replicas), v, live, placement, replicas)
      ensures Acts(old(replicas), v, live, local) && DistinctHosts(placement) ==>
                Swept(old(replicas), v, live, placement, replicas)
      ensures Quiet(old(replicas), v, live, placement) ==> replicas == old(replicas)
      ensures stats'.scanned == stats.scanned
      ensures Tallied(old(replicas), v, live, placement, local, replicas, stats, stats')
    {
      hide Alive, Orphans, HostsOf, IsLeast, Eligible, SweptSome, Quiet, FaultAll, Unmarked, RunsShort, SweptSomeWith;
      QuietWrites(replicas, v, live, placement, local);
      var store := replicas;
      var alive, orphans, used := Partition(store, v.uuid, live);
      if orphans == {} {
        return stats;
      }
      var owner := "";
      if alive != {} {
        UsedHosts(store, v.uuid, live);
        owner := LeastHost(used);
      } else if live == {} {
        return stats;
      } else {
        owner := LeastHost(live);
      }
      OwnerUnique(store, v.uuid, live, owner, local);
      if local != "" && local != owner {
        return stats.(skipped := stats.skipped + 1);
      }
      OrphansStored(store, v.uuid, live);
      var n := MarkFaulted(orphans);
      stats' := stats.(faulted := stats.faulted + n);
      stats' := Replace(v, live, placement, stats', store, |alive|);
    }

    /** Schedules the replacements that the volume lacks. */
    method Replace(v: Volume, live: set<string>, placement: seq<Host>, stats: Stats, store: Store, alive: nat)
      returns (stats': Stats)
      requires replicas == FaultAll(store, Orphans(store, v.uuid, live)) && alive == |Alive(store, v.uuid, live)|
      modifies this
      ensures SweptSome(store, v, live, placement, replicas)
      ensures DistinctHosts(placement) ==> Swept(store, v, live, placement, replicas)
      ensures stats'.scanned == stats.scanned && stats'.faulted == stats.faulted && stats'.skipped == stats.skipped
      ensures stats'.short == stats.short + if RunsShort(store, v, live, placement) then 1 else 0
      ensures exists picks :: SweptSomeWith(store, v, live, placement, picks, replicas) &&
                              stats'.scheduled == stats.scheduled + |picks|
    {
      hide Alive, Orphans, HostsOf, Eligible, AddAll, DistinctHosts, Sorted, Picks, FaultAll;
      NoHosts();
      NothingAdded(replicas, v.uuid);
      var deficit := v.count - alive;
      if deficit <= 0 {
        assert SweptSomeWith(store, v, live, placement, [], replicas);
        assert SweptWith(store, v, live, placement, [], replicas);
        return stats;
      }
      stats' := stats;
      var candidates := Candidates(store, v.uuid, live, placement);
      if |candidates| < deficit {
        stats' := stats'.(short := stats'.short + 1);
        if |candidates| == 0 {
          assert SweptSomeWith(store, v, live, placement, [], replicas);
          assert SweptWith(store, v, live, placement, [], replicas);
          return;
        }
      }
      if DistinctHosts(placement) {
        EligibleDistinct(store, v.uuid, live, placement);
      }
      var picks := Choose(candidates, Min(deficit, |candidates|));
      if picks == [] {
        assert SweptSomeWith(store, v, live, placement, [], replicas);
        return;
      }
      Schedule(v.uuid, picks);
      assert SweptSomeWith(store, v, live, placement, picks, replicas);
      stats' := stats'.(scheduled := stats'.scheduled + |picks|);
      if DistinctHosts(placement) {
        assert SweptWith(store, v, live, placement, picks, replicas);
      }
    }

    /**
     A whole sweep of the agent on host `local`. A sweep of quiet volumes writes nothing; one of different volumes and
     candidates whose replacement ids are free heals and settles the volumes that the agent acts on.
     */
    method RereplicateOrphans(vols: seq<Volume>, live: set<string>, placement: seq<Host>, local: string)
      returns (stats: Stats)
      modifies this
      ensures Regular(old(replicas), vols, live, placement) ==>
                && Regular(replicas, vols, live, placement)
                && forall i :: 0 <= i < |vols| ==>
                     && Outcome(old(replicas), vols[i], live, placement, local, replicas)
                     && (Quiet(old(replicas), vols[i], live, placement) ==>
                         SameFor(old(replicas), replicas, vols[i].uuid))
      ensures (forall i :: 0 <= i < |vols| ==> Quiet(old(replicas), vols[i], live, placement)) ==>
                replicas == old(replicas)
      ensures stats.scanned == |vols|
      ensures Regular(old(replicas), vols, live, placement) ==>
                Counts(old(replicas), vols, |vols|, live, placement, local, replicas, stats)
    {
      hide DistinctHosts, IdsFree, Outcome, Quiet, SameFor, Swept, SweptSome, Acts, Regular, SweptUpTo, Tallied, Counts;
      stats := Stats(|vols|, 0, 0, 0, 0);
      NothingYet(replicas, vols, live, placement, local);
      NothingCounted(replicas, vols, live, placement, local);
      for i := 0 to |vols|
        invariant stats.scanned == |vols|
        invariant Regular(old(replicas), vols, live, placement) ==>
                    && SweptUpTo(old(replicas), vols, i, live, placement, local, replicas)
                    && Counts(old(replicas), vols, i, live, placement, local, replicas, stats)
        invariant (forall k :: 0 <= k < i ==> Quiet(old(replicas), vols[k], live, placement)) ==>
                    replicas == old(replicas)
      {
        ghost var before, tally := replicas, stats;
        stats := ProcessVolume(vols[i], live, placement, local, stats);
        if Regular(old(replicas), vols, live, placement) {
          RegularFacts(old(replicas), vols, live, placement);
          CountsNext(old(replicas), before, vols, i, live, placement, local, replicas, tally, stats);
          SweptNext(old(replicas), before, vols, i, live, placement, local, replicas);
        }
      }
      if Regular(old(replicas), vols, live, placement) {
        SweptAll(old(replicas), vols, live, placement, local, replicas);
      }
    }

    /**
     Two sweeps on the same liveness: whatever the first agent acted on, the second, any agent, leaves as it is; and
     after a sweep that acts for all it writes nothing at all.
     */
    method SweepTwice(vols: seq<Volume>, live: set<string>, placement: seq<Host>, first: string, second: string)
      returns (ghost between: Store)
      requires Regular(replicas, vols, live, placement)
      modifies this
      ensures forall i :: 0 <= i < |vols| ==> Outcome(old(replicas), vols[i], live, placement, first, between)
      ensures forall i :: 0 <= i < |vols| && Acts(old(replicas), vols[i], live, first) ==>
                SameFor(between, replicas, vols[i].uuid)
      ensures first == "" ==> replicas == between
    {
      hide Regular, Outcome, SameFor, Acts, Quiet;
      var stats := RereplicateOrphans(vols, live, placement, first);
      between := replicas;
      forall i | 0 <= i < |vols| && (first == "" || Acts(old(replicas), vols[i], live, first))
        ensures Quiet(between, vols[i], live, placement)
      {
        QuietAfter(old(replicas), vols[i], live, placement, first, between);
      }
      stats := RereplicateOrphans(vols, live, placement, second);
    }
  }

  /** What the statistics say about one volume. */
  ghost predicate Tallied(store: Store, v: Volume, live: set<string>, placement: seq<Host>, local: string, now: Store,
                          stats: Stats, stats': Stats) {
    && stats'.skipped == stats.skipped + (if Skips(store, v, live, local) then 1 else 0)
    && if Acts(store, v, live, local) then
         && stats'.faulted == stats.faulted + |Unmarked(store, Orphans(store, v.uuid, live))|
         && stats'.short == stats.short + (if RunsShort(store, v, live, placement) then 1 else 0)
         && exists picks :: SweptSomeWith(store, v, live, placement, picks, now) &&
                            stats'.scheduled == stats.scheduled + |picks|
       else stats'.faulted == stats.faulted && stats'.short == stats.short && stats'.scheduled == stats.scheduled
  }

  function FaultedIn(store: Store): set<string> {
    set u | u in store && store[u].state == Faulted
  }

  /** How many of the first `n` volumes another agent owns. */
  ghost function CountSkips(store: Store, vols: seq<Volume>, n: nat, live: set<string>, local: string): nat
    requires n <= |vols|
  {
    if n == 0 then 0
    else CountSkips(store, vols, n - 1, live, local) + if Skips(store, vols[n - 1], live, local) then 1 else 0
  }

  /** For how many of the first `n` volumes the agent did not find enough hosts. */
  ghost function CountShort(store: Store, vols: seq<Volume>, n: nat, live: set<string>, placement: seq<Host>,
                            local: string): nat
    requires n <= |vols|
  {
    if n == 0 then 0
    else
      var v := vols[n - 1];
      CountShort(store, vols, n - 1, live, placement, local) +
        if Acts(store, v, live, local) && RunsShort(store, v, live, placement) then 1 else 0
  }

  /** What the statistics say about a sweep: the replicas that it added and marked, and the volumes that it left. */
  ghost predicate Counts(store: Store, vols: seq<Volume>, n: nat, live: set<string>, placement: seq<Host>,
                         local: string, now: Store, stats: Stats) {
    && n <= |vols|
    && |now| == |store| + stats.scheduled && |FaultedIn(now)| == |FaultedIn(store)| + stats.faulted
    && stats.skipped == CountSkips(store, vols, n, live, local)
    && stats.short == CountShort(store, vols, n, live, placement, local)
  }

  lemma {:induction false} NothingCounted(store: Store, vols: seq<Volume>, live: set<string>, placement: seq<Host>,
                                          local: string)
    ensures Counts(store, vols, 0, live, placement, local, store, Stats(|vols|, 0, 0, 0, 0))
  {
  }

  /** With different candidates, what was chosen is what was swept with. */
  lemma {:induction false} SomeIsWith(store: Store, v: Volume, live: set<string>, placement: seq<Host>,
                                      picks: seq<Host>, now: Store)
    requires SweptSomeWith(store, v, live, placement, picks, now) && Swept(store, v, live, placement, now)
    ensures SweptWith(store, v, live, placement, picks, now)
  {
    hide Chosen, AddAll, Eligible;
    var x :| SweptWith(store, v, live, placement, x, now);
    var eligible := Eligible(store, v.uuid, live, placement);
    ChosenUnique(eligible, eligible, Wanted(store, v, live, placement), x, picks);
  }

  /** A sweep of a volume adds its replacements and marks its orphans, and that is all. */
  lemma {:induction false} SweptGrows(store: Store, v: Volume, live: set<string>, placement: seq<Host>,
                                      picks: seq<Host>, now: Store)
    requires SweptWith(store, v, live, placement, picks, now) && IdsFree(store, v.uuid, live, placement)
    ensures |now| == |store| + |picks|
    ensures |FaultedIn(now)| == |FaultedIn(store)| + |Unmarked(store, Orphans(store, v.uuid, live))|
  {
    hide NewUuid, AddAll, NewReplica, NewIds, Wanted, Chosen, Eligible, DistinctHosts, IdsFree;
    var left := FaultAll(store, Orphans(store, v.uuid, live));
    PicksFree(store, v, live, placement, picks, now);
    Added(left, v.uuid, picks);
    JoinedSize(store.Keys, NewIds(v.uuid, picks), now.Keys);
    var marked := Unmarked(store, Orphans(store, v.uuid, live));
    forall u
      ensures u in FaultedIn(now) <==> u in FaultedIn(store) || u in marked
    {
      EntryAfter(store, v, live, placement, picks, now, u);
    }
    JoinedSize(FaultedIn(store), marked, FaultedIn(now));
  }

  lemma {:induction false} SameTally(a: Store, b: Store, v: Volume, live: set<string>, placement: seq<Host>,
                                     local: string)
    requires SameFor(a, b, v.uuid)
    ensures Skips(a, v, live, local) <==> Skips(b, v, live, local)
    ensures Acts(a, v, live, local) <==> Acts(b, v, live, local)
    ensures RunsShort(a, v, live, placement) <==> RunsShort(b, v, live, placement)
  {
    hide IsLeast, Eligible;
    SameView(a, b, v.uuid, live, placement);
    SameActs(a, b, v, live, placement, local);
  }

  lemma {:induction false} CountsNext(store: Store, before: Store, vols: seq<Volume>, i: nat, live: set<string>,
                                      placement: seq<Host>, local: string, now: Store, stats: Stats, stats': Stats)
    requires i < |vols| && SweptUpTo(store, vols, i, live, placement, local, before)
    requires Counts(store, vols, i, live, placement, local, before, stats)
    requires Tallied(before, vols[i], live, placement, local, now, stats, stats')
    requires Acts(before, vols[i], live, local) ==> Swept(before, vols[i], live, placement, now)
    requires !Acts(before, vols[i], live, local) ==> now == before
    ensures Counts(store, vols, i + 1, live, placement, local, now, stats')
  {
    hide Acts, Skips, RunsShort, SameFor, Swept, SweptSomeWith, IdsFree, Outcome, Quiet, FaultedIn, Unmarked;
    var v := vols[i];
    SameTally(store, before, v, live, placement, local);
    if Acts(before, v, live, local) {
      var picks :| SweptSomeWith(before, v, live, placement, picks, now) &&
        stats'.scheduled == stats.scheduled + |picks|;
      SomeIsWith(before, v, live, placement, picks, now);
      SweptGrows(before, v, live, placement, picks, now);
    }
  }

  /** Volumes have different ids of one length. */
  ghost predicate DistinctVolumes(vols: seq<Volume>) {
    forall i, j :: 0 <= i < j < |vols| ==> vols[i].uuid != vols[j].uuid && |vols[i].uuid| == |vols[j].uuid|
  }

  /** What a sweep from `store` to `now` did for one volume: healed and settled it, or left it alone. */
  ghost predicate Outcome(store: Store, v: Volume, live: set<string>, placement: seq<Host>, local: string, now: Store) {
    if Acts(store, v, live, local) then
      var alive, free := |Alive(store, v.uuid, live)|, |Eligible(store, v.uuid, live, placement)|;
      |Alive(now, v.uuid, live)| == Max(alive, Min(v.count, alive + free)) && Settled(now, v, live, placement)
    else SameFor(store, now, v.uuid)
  }

  /** Different volumes and candidates, and the ids that replacements would get are not taken. */
  ghost predicate Regular(store: Store, vols: seq<Volume>, live: set<string>, placement: seq<Host>) {
    && DistinctHosts(placement) && DistinctVolumes(vols)
    && forall i :: 0 <= i < |vols| ==> IdsFree(store, vols[i].uuid, live, placement)
  }

  lemma {:induction false} RegularFacts(store: Store, vols: seq<Volume>, live: set<string>, placement: seq<Host>)
    requires Regular(store, vols, live, placement)
    ensures DistinctHosts(placement) && DistinctVolumes(vols)
  {
  }

  /** The sweep has dealt with the first `i` volumes. */
  ghost predicate SweptUpTo(store: Store, vols: seq<Volume>, i: nat, live: set<string>, placement: seq<Host>,
                            local: string, now: Store) {
    && i <= |vols|
    && (forall k :: 0 <= k < i ==> Outcome(store, vols[k], live, placement, local, now))
    && (forall k :: 0 <= k < i && Quiet(store, vols[k], live, placement) ==> SameFor(store, now, vols[k].uuid))
    && (forall k :: i <= k < |vols| ==> SameFor(store, now, vols[k].uuid))
    && (forall k :: 0 <= k < |vols| ==> IdsFree(now, vols[k].uuid, live, placement))
  }

  lemma {:induction false} NothingYet(store: Store, vols: seq<Volume>, live: set<string>, placement: seq<Host>,
                                      local: string)
    ensures Regular(store, vols, live, placement) ==> SweptUpTo(store, vols, 0, live, placement, local, store)
  {
    hide IdsFree, DistinctHosts, DistinctVolumes;
  }

  lemma {:induction false} SweptAll(store: Store, vols: seq<Volume>, live: set<string>, placement: seq<Host>,
                                    local: string, now: Store)
    requires Regular(store, vols, live, placement) && SweptUpTo(store, vols, |vols|, live, placement, local, now)
    ensures Regular(now, vols, live, placement)
    ensures forall i :: 0 <= i < |vols| ==>
              && Outcome(store, vols[i], live, placement, local, now)
              && (Quiet(store, vols[i], live, placement) ==> SameFor(store, now, vols[i].uuid))
  {
    hide IdsFree, DistinctHosts, DistinctVolumes, Outcome, SameFor, Quiet;
  }

  lemma {:induction false} SweptNext(store: Store, before: Store, vols: seq<Volume>, i: nat, live: set<string>,
                                     placement: seq<Host>, local: string, now: Store)
    requires i < |vols| && DistinctVolumes(vols) && DistinctHosts(placement)
    requires SweptUpTo(store, vols, i, live, placement, local, before)
    requires Acts(before, vols[i], live, local) ==> Swept(before, vols[i], live, placement, now)
    requires !Acts(before, vols[i], live, local) ==> now == before
    ensures SweptUpTo(store, vols, i + 1, live, placement, local, now)
  {
    hide Acts, SameFor, Settled, Quiet, Swept, IdsFree, DistinctHosts, Outcome;
    if Acts(before, vols[i], live, local) {
      AfterOne(store, before, vols, i, live, placement, local, now);
    } else {
      Skipped(store, before, vols[i], live, placement, local);
    }
  }

  /** A sweep of a quiet volume, by whoever acts on it, writes nothing. */
  lemma {:induction false} QuietWrites(store: Store, v: Volume, live: set<string>, placement: seq<Host>, local: string)
    ensures Quiet(store, v, live, placement) && Acts(store, v, live, local) ==>
              forall now :: SweptSome(store, v, live, placement, now) ==> now == store
  {
    hide Acts, Quiet, Settled, SweptSome;
    if Quiet(store, v, live, placement) && Acts(store, v, live, local) {
      QuietActs(store, v, live, placement, local);
      forall now | SweptSome(store, v, live, placement, now)
        ensures now == store
      {
        SettledStays(store, v, live, placement, now);
      }
    }
  }

  lemma {:induction false} SameActs(a: Store, b: Store, v: Volume, live: set<string>, placement: seq<Host>,
                                    local: string)
    requires SameFor(a, b, v.uuid)
    ensures Acts(a, v, live, local) <==> Acts(b, v, live, local)
    ensures Settled(a, v, live, placement) <==> Settled(b, v, live, placement)
    ensures |Alive(a, v.uuid, live)| == |Alive(b, v.uuid, live)|
    ensures |Eligible(a, v.uuid, live, placement)| == |Eligible(b, v.uuid, live, placement)|
  {
    SameView(a, b, v.uuid, live, placement);
    assert forall u :: u in Orphans(a, v.uuid, live) ==> u in Mine(a, v.uuid);
  }

  lemma {:induction false} SameTrans(a: Store, b: Store, c: Store, w: string)
    requires SameFor(a, b, w) && SameFor(b, c, w)
    ensures SameFor(a, c, w)
  {
  }

  lemma {:induction false} Skipped(store: Store, before: Store, v: Volume, live: set<string>, placement: seq<Host>,
                                   local: string)
    requires SameFor(store, before, v.uuid) && !Acts(before, v, live, local)
    ensures Outcome(store, v, live, placement, local, before)
  {
    hide Acts, SameFor, Settled, Alive, Eligible;
    SameActs(store, before, v, live, placement, local);
  }

  /** Later changes to other volumes do not undo an outcome. */
  lemma {:induction false} OutcomeStays(store: Store, v: Volume, live: set<string>, placement: seq<Host>, local: string,
                                        before: Store, now: Store)
    requires Outcome(store, v, live, placement, local, before) && SameFor(before, now, v.uuid)
    ensures Outcome(store, v, live, placement, local, now)
  {
    hide Acts, SameFor, Settled, Alive, Eligible;
    SameActs(before, now, v, live, placement, local);
    if !Acts(store, v, live, local) {
      SameTrans(store, before, now, v.uuid);
    }
  }

  /** The invariant of the sweep after it acted on volume `i`. */
  lemma {:induction false} AfterOne(store: Store, before: Store, vols: seq<Volume>, i: nat, live: set<string>,
                                    placement: seq<Host>, local: string, now: Store)
    requires i < |vols| && DistinctVolumes(vols) && DistinctHosts(placement)
    requires SweptUpTo(store, vols, i, live, placement, local, before)
    requires Acts(before, vols[i], live, local) && Swept(before, vols[i], live, placement, now)
    ensures SweptUpTo(store, vols, i + 1, live, placement, local, now)
  {
    hide Acts, SameFor, Settled, Quiet, Swept, IdsFree, DistinctHosts, Outcome;
    var v := vols[i];
    ActedOutcome(store, before, v, live, placement, local, now);
    FreeAfter(before, v, live, placement, now);
    forall k | 0 <= k < |vols| && k != i
      ensures SameFor(before, now, vols[k].uuid) && IdsFree(now, vols[k].uuid, live, placement)
    {
      OthersUntouched(before, v, live, placement, now, vols[k].uuid);
      OthersFree(before, v, live, placement, now, vols[k].uuid);
    }
    forall k | 0 <= k < i
      ensures Outcome(store, vols[k], live, placement, local, now)
    {
      OutcomeStays(store, vols[k], live, placement, local, before, now);
    }
    forall k | 0 <= k < |vols| && k != i && SameFor(store, before, vols[k].uuid)
      ensures SameFor(store, now, vols[k].uuid)
    {
      SameTrans(store, before, now, vols[k].uuid);
    }
  }

  /** What the sweep did for the volume that it acted on. */
  lemma {:induction false} ActedOutcome(store: Store, before: Store, v: Volume, live: set<string>, placement: seq<Host>,
                                        local: string, now: Store)
    requires SameFor(store, before, v.uuid) && IdsFree(before, v.uuid, live, placement) && DistinctHosts(placement)
    requires Acts(before, v, live, local) && Swept(before, v, live, placement, now)
    ensures Outcome(store, v, live, placement, local, now)
    ensures Quiet(store, v, live, placement) ==> SameFor(store, now, v.uuid)
  {
    hide Acts, SameFor, Settled, Quiet, Alive, Eligible, Swept, SweptSome, IdsFree, DistinctHosts;
    SameActs(store, before, v, live, placement, local);
    SweepHeals(before, v, live, placement, now);
    SweepSettles(before, v, live, placement, now);
    if Quiet(store, v, live, placement) {
      QuietActs(store, v, live, placement, local);
      SweptIsSome(before, v, live, placement, now);
      SettledStays(before, v, live, placement, now);
    }
  }

  /** After the sweep the ids of further replacements are still free. */
  lemma {:induction false} FreeAfter(store: Store, v: Volume, live: set<string>, placement: seq<Host>, now: Store)
    requires Swept(store, v, live, placement, now) && IdsFree(store, v.uuid, live, placement)
    ensures IdsFree(now, v.uuid, live, placement)
  {
    var picks :| SweptWith(store, v, live, placement, picks, now);
    Added(FaultAll(store, Orphans(store, v.uuid, live)), v.uuid, picks);
    NoHostReused(store, v, live, placement, now);
    forall h | h in Eligible(now, v.uuid, live, placement)
      ensures NewUuid(v.uuid, h.uuid) !in now
    {
      FreeHost(store, v, live, placement, picks, now, h);
    }
  }

  lemma {:induction false} FreeHost(store: Store, v: Volume, live: set<string>, placement: seq<Host>, picks: seq<Host>,
                                    now: Store, h: Host)
    requires SweptWith(store, v, live, placement, picks, now) && IdsFree(store, v.uuid, live, placement)
    requires HasAdded(FaultAll(store, Orphans(store, v.uuid, live)), v.uuid, picks, now)
    requires forall u :: u in store ==> u in now && now[u].host == store[u].host && now[u].volume == store[u].volume
    requires h in Eligible(now, v.uuid, live, placement)
    ensures NewUuid(v.uuid, h.uuid) !in now
  {
    hide NewUuid;
    forall u | u in Mine(store, v.uuid)
      ensures store[u].host != h.uuid
    {
      assert u in Mine(now, v.uuid) && now[u].host in HostsOf(now, Mine(now, v.uuid));
    }
    assert h in Eligible(store, v.uuid, live, placement);
    forall i | 0 <= i < |picks|
      ensures NewUuid(v.uuid, picks[i].uuid) != NewUuid(v.uuid, h.uuid)
    {
      var u := NewUuid(v.uuid, picks[i].uuid);
      assert u in Mine(now, v.uuid) && now[u].host in HostsOf(now, Mine(now, v.uuid));
      assert picks[i].uuid != h.uuid;
      if NewUuid(v.uuid, picks[i].uuid) == NewUuid(v.uuid, h.uuid) {
        NewUuidInjective(v.uuid, picks[i].uuid, v.uuid, h.uuid);
      }
    }
  }

  /** If an agent acts on a quiet volume, the volume is settled. */
  lemma {:induction false} QuietActs(store: Store, v: Volume, live: set<string>, placement: seq<Host>, local: string)
    requires Quiet(store, v, live, placement) && Acts(store, v, live, local)
    ensures Settled(store, v, live, placement)
  {
    hide Settled;
  }

  /** After a sweep that acted on the volume, or that acts for all, no agent has anything left to write for it. */
  lemma {:induction false} QuietAfter(store: Store, v: Volume, live: set<string>, placement: seq<Host>, local: string,
                                      now: Store)
    requires Outcome(store, v, live, placement, local, now) && (local == "" || Acts(store, v, live, local))
    ensures Quiet(now, v, live, placement)
  {
    hide Settled, SameFor;
    if !Acts(store, v, live, local) {
      SameActs(store, now, v, live, placement, local);
    }
  }

  /** The agent on `local` acts on the volume: there are orphans, and it owns the volume or acts for all. */
  ghost predicate Acts(store: Store, v: Volume, live: set<string>, local: string) {
    && Orphans(store, v.uuid, live) != {} && (Alive(store, v.uuid, live) != {} || live != {})
    && (local == "" || Owns(local, store, v.uuid, live))
  }

  lemma {:induction false} NoHosts()
    ensures DistinctHosts([])
  {
  }

  lemma {:induction false} NothingAdded(store: Store, v: string)
    ensures AddAll(store, v, []) == store
  {
  }

  lemma {:induction false} UsedHosts(store: Store, v: string, live: set<string>)
    requires Alive(store, v, live) != {}
    ensures HostsOf(store, Alive(store, v, live)) != {}
  {
    var u :| u in Alive(store, v, live);
    assert store[u].host in HostsOf(store, Alive(store, v, live));
  }

  lemma {:induction false} OwnerUnique(store: Store, v: string, live: set<string>, owner: string, local: string)
    requires Owns(owner, store, v, live)
    ensures Owns(local, store, v, live) <==> local == owner
  {
    LessTotal(owner, local);
  }

  lemma {:induction false} OrphansStored(store: Store, v: string, live: set<string>)
    ensures Orphans(store, v, live) <= store.Keys
  {
  }
}
