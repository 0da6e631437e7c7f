/**
 Replica placement (control/placement.go): hosts are picked in the order of (DC, UUID),
 first one per DC and then from the rest.
 */
module Placement {
  import opened Sectors
  import opened Sets

  datatype Host = Host(uuid: string, dc: string)

  datatype PlaceResult = Placed(hosts: seq<Host>) | Refused

  // ---------------------------------------------------------------- the order of hosts

  /** Lexical order of strings. */
  predicate Less(a: string, b: string) {
    if b == [] then false
    else if a == [] then true
    else if a[0] != b[0] then a[0] < b[0]
    else Less(a[1..], b[1..])
  }

  lemma {:induction false} LessTotal(a: string, b: string)
    ensures !(Less(a, b) && Less(b, a))
    ensures a == b || Less(a, b) || Less(b, a)
    ensures a == b ==> !Less(a, b)
    decreases |a|
  {
    if a != [] && b != [] && a[0] == b[0] {
      LessTotal(a[1..], b[1..]);
      assert a == [a[0]] + a[1..] && b == [b[0]] + b[1..];
    }
  }

  /** The first difference decides, and a string comes before its extensions. */
  lemma {:induction false} LessLexical(a: string, b: string)
    ensures Less(a, b) <==> exists k :: Decides(a, b, k)
    decreases |a|
  {
    if a == [] {
      assert b != [] ==> Decides(a, b, 0);
    } else if b != [] && a[0] == b[0] {
      LessLexical(a[1..], b[1..]);
      if Less(a[1..], b[1..]) {
        var k :| Decides(a[1..], b[1..], k);
        assert forall i :: 0 <= i < k ==> a[1..][i] == a[i + 1] && b[1..][i] == b[i + 1];
        assert Decides(a, b, k + 1);
      }
      if exists k :: Decides(a, b, k) {
        var k :| Decides(a, b, k);
        assert Decides(a[1..], b[1..], k - 1);
      }
    } else if b != [] {
      if a[0] < b[0] {
        assert Decides(a, b, 0);
      }
      forall k | Decides(a, b, k)
        ensures k == 0
      {
        DecidesLater(a, b, k);
      }
    }
  }

  /** The strings agree on their first `k` characters, and there `a` ends or has the smaller character. */
  ghost predicate Decides(a: string, b: string, k: int) {
    0 <= k <= |a| && k < |b| && a[..k] == b[..k] && (k == |a| || a[k] < b[k])
  }

  lemma {:induction false} DecidesLater(a: string, b: string, k: int)
    requires Decides(a, b, k)
    ensures k > 0 ==> a[0] == b[0]
  {
    if k > 0 {
      assert a[..k][0] == a[0] && b[..k][0] == b[0];
    }
  }

  lemma {:induction false} LessTransitive(a: string, b: string, c: string)
    requires Less(a, b) && Less(b, c)
    ensures Less(a, c)
    decreases |a|
  {
    if a != [] && a[0] == b[0] && b[0] == c[0] {
      LessTransitive(a[1..], b[1..], c[1..]);
    }
  }

  predicate Before(x: Host, y: Host) {
    if x.dc != y.dc then Less(x.dc, y.dc) else Less(x.uuid, y.uuid)
  }

  lemma {:induction false} BeforeTotal(x: Host, y: Host)
    ensures !(Before(x, y) && Before(y, x)) && (x == y || Before(x, y) || Before(y, x)) && !Before(x, x)
  {
    LessTotal(x.dc, y.dc);
    LessTotal(x.uuid, y.uuid);
    LessTotal(x.uuid, x.uuid);
  }

  lemma {:induction false} BeforeTransitive(x: Host, y: Host, z: Host)
    requires Before(x, y) && Before(y, z)
    ensures Before(x, z)
  {
    LessTotal(x.dc, y.dc);
    if x.dc == y.dc && y.dc == z.dc {
      LessTransitive(x.uuid, y.uuid, z.uuid);
    } else if x.dc != y.dc && y.dc != z.dc {
      LessTransitive(x.dc, y.dc, z.dc);
      LessTotal(x.dc, z.dc);
    }
  }

  ghost predicate Sorted(s: seq<Host>) {
    forall i, j :: 0 <= i < j < |s| ==> !Before(s[j], s[i])
  }

  /** Sorted orders of one collection begin with the same host. */
  lemma {:induction false} SameFirst(s: seq<Host>, t: seq<Host>)
    requires Sorted(s) && Sorted(t) && multiset(s) == multiset(t) && s != [] && t != []
    ensures s[0] == t[0]
  {
    assert s[0] in multiset(s) && t[0] in multiset(t);
    var i :| 0 <= i < |t| && t[i] == s[0];
    var j :| 0 <= j < |s| && s[j] == t[0];
    BeforeTotal(s[0], t[0]);
  }

  lemma {:induction false} TailSorted(s: seq<Host>)
    requires Sorted(s) && s != []
    ensures Sorted(s[1..]) && multiset(s[1..]) == multiset(s) - multiset{s[0]}
  {
    hide Before;
    assert s == [s[0]] + s[1..];
  }

  /** There is one sorted order of a collection of hosts. */
  lemma {:induction false} SortedUnique(s: seq<Host>, t: seq<Host>)
    requires Sorted(s) && Sorted(t) && multiset(s) == multiset(t)
    ensures s == t
    decreases |s|
  {
    hide Before, Sorted;
    assert |s| == |multiset(s)| == |multiset(t)| == |t|;
    if s != [] {
      SameFirst(s, t);
      TailSorted(s);
      TailSorted(t);
      SortedUnique(s[1..], t[1..]);
      assert s == [s[0]] + s[1..] && t == [t[0]] + t[1..];
    }
  }

  /** The hosts in order, by insertion. */
  method SortHosts(candidates: seq<Host>) returns (pool: seq<Host>)
    ensures Sorted(pool) && multiset(pool) == multiset(candidates)
  {
    pool := [];
    for n := 0 to |candidates|
      invariant Sorted(pool) && multiset(pool) == multiset(candidates[..n])
    {
      var i := 0;
      while i < |pool| && !Before(candidates[n], pool[i])
        invariant 0 <= i <= |pool|
        invariant forall k :: 0 <= k < i ==> !Before(candidates[n], pool[k])
      {
        i := i + 1;
      }
      InsertSorted(pool, candidates[n], i);
      assert candidates[..n + 1] == candidates[..n] + [candidates[n]];
      pool := pool[..i] + [candidates[n]] + pool[i..];
    }
    assert candidates[..|candidates|] == candidates;
  }

  lemma {:induction false} InsertSorted(pool: seq<Host>, h: Host, i: nat)
    requires Sorted(pool) && i <= |pool| && (forall k :: 0 <= k < i ==> !Before(h, pool[k])) &&
             (i < |pool| ==> Before(h, pool[i]))
    ensures Sorted(pool[..i] + [h] + pool[i..])
    ensures multiset(pool[..i] + [h] + pool[i..]) == multiset(pool) + multiset{h}
  {
    hide Before;
    assert pool == pool[..i] + pool[i..];
    forall k | i <= k < |pool|
      ensures !Before(pool[k], h)
    {
      BeforeTotal(pool[i], pool[k]);
      if k > i && pool[i] != pool[k] {
        BeforeTransitive(h, pool[i], pool[k]);
      }
      BeforeTotal(h, pool[k]);
    }
    PutBetween(pool, h, i, pool[..i] + [h] + pool[i..]);
  }

  lemma {:induction false} PutBetween(pool: seq<Host>, h: Host, i: nat, r: seq<Host>)
    requires Sorted(pool) && i <= |pool| && r == pool[..i] + [h] + pool[i..]
    requires (forall k :: 0 <= k < i ==> !Before(h, pool[k])) && (forall k :: i <= k < |pool| ==> !Before(pool[k], h))
    ensures Sorted(r)
  {
    hide Before;
    assert forall k :: 0 <= k < |r| ==> r[k] == if k < i then pool[k] else if k == i then h else pool[k - 1];
  }

  // ---------------------------------------------------------------- picking

  function Dcs(hosts: seq<Host>): set<string> {
    set i | 0 <= i < |hosts| :: hosts[i].dc
  }

  function Uuids(hosts: seq<Host>): set<string> {
    set i | 0 <= i < |hosts| :: hosts[i].uuid
  }

  /** The first pass: one host per DC, until there are `count`. */
  function First(pool: seq<Host>, count: nat, picked: seq<Host>): seq<Host>
    decreases |pool|
  {
    if pool == [] || |picked| == count then picked
    else if pool[0].dc in Dcs(picked) then First(pool[1..], count, picked)
    else First(pool[1..], count, picked + [pool[0]])
  }

  /** The second pass: hosts that were not picked yet, until there are `count`. */
  function Second(pool: seq<Host>, count: nat, picked: seq<Host>): seq<Host>
    decreases |pool|
  {
    if pool == [] || |picked| == count then picked
    else if pool[0].uuid in Uuids(picked) then Second(pool[1..], count, picked)
    else Second(pool[1..], count, picked + [pool[0]])
  }

  function Picks(pool: seq<Host>, count: nat): seq<Host> {
    Second(pool, count, First(pool, count, []))
  }

  method PlaceReplicas(candidates: seq<Host>, count: int) returns (r: PlaceResult)
    ensures count <= 0 || |candidates| < count ==> r == Refused
    ensures r.Placed? ==>
              |r.hosts| == count &&
              exists pool :: Sorted(pool) && multiset(pool) == multiset(candidates) && r.hosts == Picks(pool, count)
    ensures count > 0 && r == Refused ==>
              exists pool :: Sorted(pool) && multiset(pool) == multiset(candidates) &&
                  (|candidates| < count || |Picks(pool, count)| != count)
    ensures r.Placed? ==> forall h :: h in r.hosts ==> h in candidates
    ensures 0 < count <= |candidates| && DistinctHosts(candidates) ==>
              && r.Placed? && |r.hosts| == count && DistinctHosts(r.hosts) &&
                  (forall h :: h in r.hosts ==> h in candidates)
              && |Dcs(r.hosts)| == Min(count, |Dcs(candidates)|)
  {
    if count <= 0 {
      return Refused;
    }
    var pool := SortHosts(candidates);
    if |candidates| < count {
      return Refused;
    }
    var usedDC: set<string>, usedHost: set<string>, picked: seq<Host> := {}, {}, [];
    var i := 0;
    assert pool[0..] == pool;
    while i < |pool| && |picked| != count
      invariant 0 <= i <= |pool| && usedDC == Dcs(picked) && usedHost == Uuids(picked)
      invariant First(pool, count, []) == First(pool[i..], count, picked)
    {
      var h := pool[i];
      assert pool[i..][1..] == pool[i + 1..];
      if h.dc !in usedDC {
        PickedNext(picked, h);
        picked := picked + [h];
        usedDC := usedDC + {h.dc};
        usedHost := usedHost + {h.uuid};
      }
      i := i + 1;
    }
    i := 0;
    while i < |pool| && |picked| != count
      invariant 0 <= i <= |pool| && usedHost == Uuids(picked)
      invariant Picks(pool, count) == Second(pool[i..], count, picked)
    {
      var h := pool[i];
      assert pool[i..][1..] == pool[i + 1..];
      if h.uuid !in usedHost {
        PickedNext(picked, h);
        picked := picked + [h];
        usedHost := usedHost + {h.uuid};
      }
      i := i + 1;
    }
    assert picked == Picks(pool, count);
    PicksFrom(pool, count);
    SameMembers(pool, candidates);
    if DistinctHosts(candidates) {
      PlacesWell(candidates, pool, count);
    }
    if |picked| != count {
      return Refused;
    }
    return Placed(picked);
  }

  /** The picks are hosts of the pool. */
  lemma {:induction false} PicksFrom(pool: seq<Host>, count: nat)
    ensures forall h :: h in Picks(pool, count) ==> h in pool
  {
    FirstFrom(pool, count, []);
    SecondFrom(pool, count, First(pool, count, []));
  }

  lemma {:induction false} FirstFrom(pool: seq<Host>, count: nat, picked: seq<Host>)
    ensures forall h :: h in First(pool, count, picked) ==> h in picked || h in pool
    decreases |pool|
  {
    if pool != [] && |picked| != count {
      FirstFrom(pool[1..], count, if pool[0].dc in Dcs(picked) then picked else picked + [pool[0]]);
    }
  }

  lemma {:induction false} SecondFrom(pool: seq<Host>, count: nat, picked: seq<Host>)
    ensures forall h :: h in Second(pool, count, picked) ==> h in picked || h in pool
    decreases |pool|
  {
    if pool != [] && |picked| != count {
      SecondFrom(pool[1..], count, if pool[0].uuid in Uuids(picked) then picked else picked + [pool[0]]);
    }
  }

  lemma {:induction false} SameMembers(pool: seq<Host>, candidates: seq<Host>)
    requires multiset(pool) == multiset(candidates)
    ensures forall h :: h in pool ==> h in candidates
  {
    assert forall h :: h in pool ==> h in multiset(pool);
  }

  lemma {:induction false} PickedNext(picked: seq<Host>, h: Host)
    ensures Dcs(picked + [h]) == Dcs(picked) + {h.dc} && Uuids(picked + [h]) == Uuids(picked) + {h.uuid}
  {
    var now := picked + [h];
    assert now[|picked|] == h;
    forall i | 0 <= i < |picked|
      ensures now[i] == picked[i]
    {
    }
  }

  // ---------------------------------------------------------------- what the picks are like

  ghost predicate DistinctDcs(hosts: seq<Host>) {
    forall i, j :: 0 <= i < j < |hosts| ==> hosts[i].dc != hosts[j].dc
  }

  ghost predicate DistinctHosts(hosts: seq<Host>) {
    forall i, j :: 0 <= i < j < |hosts| ==> hosts[i].uuid != hosts[j].uuid
  }

  /** `r` extends `picked` with hosts of the pool. */
  ghost predicate Extends(pool: seq<Host>, count: nat, picked: seq<Host>, r: seq<Host>) {
    |picked| <= |r| <= count && picked == r[..|picked|] && forall h :: h in r ==> h in picked || h in pool
  }

  lemma {:induction false} FirstSpreads(pool: seq<Host>, count: nat, picked: seq<Host>)
    requires DistinctDcs(picked) && |picked| <= count
    ensures var r := First(pool, count, picked);
            Extends(pool, count, picked, r) && DistinctDcs(r) &&
                (|r| < count ==> forall h :: h in pool ==> h.dc in Dcs(r))
    decreases |pool|
  {
    var r := First(pool, count, picked);
    if pool != [] && |picked| < count {
      var next := if pool[0].dc in Dcs(picked) then picked else picked + [pool[0]];
      PickedNext(picked, pool[0]);
      FirstSpreads(pool[1..], count, next);
      assert next == r[..|next|];
      forall h | h in pool && |r| < count
        ensures h.dc in Dcs(r)
      {
        if h == pool[0] {
          DcsPrefix(next, r);
        } else {
          assert h in pool[1..];
        }
      }
    }
  }

  lemma {:induction false} DcsPrefix(a: seq<Host>, b: seq<Host>)
    requires |a| <= |b| && a == b[..|a|]
    ensures Dcs(a) <= Dcs(b) && Uuids(a) <= Uuids(b)
  {
    forall i | 0 <= i < |a|
      ensures a[i] == b[i]
    {
    }
  }

  lemma {:induction false} SecondFills(pool: seq<Host>, count: nat, picked: seq<Host>)
    requires DistinctHosts(picked) && |picked| <= count
    ensures var r := Second(pool, count, picked);
            Extends(pool, count, picked, r) && DistinctHosts(r) &&
                (|r| < count ==> forall h :: h in pool ==> h.uuid in Uuids(r))
    decreases |pool|
  {
    var r := Second(pool, count, picked);
    if pool != [] && |picked| < count {
      var next := if pool[0].uuid in Uuids(picked) then picked else picked + [pool[0]];
      PickedNext(picked, pool[0]);
      SecondFills(pool[1..], count, next);
      assert next == r[..|next|];
      forall h | h in pool && |r| < count
        ensures h.uuid in Uuids(r)
      {
        if h == pool[0] {
          DcsPrefix(next, r);
        } else {
          assert h in pool[1..];
        }
      }
    }
  }

  /** As many ids as hosts, if no two hosts share one. */
  lemma {:induction false} CountUuids(hosts: seq<Host>)
    requires DistinctHosts(hosts)
    ensures |Uuids(hosts)| == |hosts|
    decreases |hosts|
  {
    if hosts != [] {
      var last := |hosts| - 1;
      assert hosts == hosts[..last] + [hosts[last]];
      CountUuids(hosts[..last]);
      PickedNext(hosts[..last], hosts[last]);
      assert hosts[last].uuid !in Uuids(hosts[..last]);
    }
  }

  lemma {:induction false} CountDcs(hosts: seq<Host>)
    requires DistinctDcs(hosts)
    ensures |Dcs(hosts)| == |hosts|
    decreases |hosts|
  {
    if hosts != [] {
      var last := |hosts| - 1;
      assert hosts == hosts[..last] + [hosts[last]];
      CountDcs(hosts[..last]);
      PickedNext(hosts[..last], hosts[last]);
      assert hosts[last].dc !in Dcs(hosts[..last]);
    }
  }

  /** Hosts of the pool in different DCs have different ids. */
  lemma {:induction false} SpreadHosts(pool: seq<Host>, picked: seq<Host>)
    requires DistinctHosts(pool) && DistinctDcs(picked) && forall h :: h in picked ==> h in pool
    ensures DistinctHosts(picked)
  {
    forall i, j | 0 <= i < j < |picked|
      ensures picked[i].uuid != picked[j].uuid
    {
      assert picked[i] in pool && picked[j] in pool && picked[i].dc != picked[j].dc;
      var a :| 0 <= a < |pool| && pool[a] == picked[i];
      var b :| 0 <= b < |pool| && pool[b] == picked[j];
      if a < b {
        assert pool[a].uuid != pool[b].uuid;
      } else {
        assert pool[b].uuid != pool[a].uuid;
      }
    }
  }

  /** With enough hosts, none twice, placement picks exactly `count` different hosts of the pool. */
  lemma {:induction false} PicksHosts(pool: seq<Host>, count: nat)
    requires DistinctHosts(pool) && count <= |pool|
    ensures |Picks(pool, count)| == count && DistinctHosts(Picks(pool, count))
    ensures forall h :: h in Picks(pool, count) ==> h in pool
  {
    var first := First(pool, count, []);
    FirstSpreads(pool, count, []);
    SpreadHosts(pool, first);
    SecondFills(pool, count, first);
    var r := Picks(pool, count);
    if |r| < count {
      forall u | u in Uuids(pool)
        ensures u in Uuids(r)
      {
        var i :| 0 <= i < |pool| && pool[i].uuid == u;
        assert pool[i] in pool;
      }
      CountUuids(pool);
      CountUuids(r);
      SubsetSize(Uuids(pool), Uuids(r));
    }
  }

  /** The picks reach as many DCs as possible. */
  lemma {:induction false} PicksDcs(pool: seq<Host>, count: nat)
    requires DistinctHosts(pool) && count <= |pool|
    ensures |Dcs(Picks(pool, count))| == Min(count, |Dcs(pool)|)
  {
    var first, r := First(pool, count, []), Picks(pool, count);
    FirstSpreads(pool, count, []);
    SpreadHosts(pool, first);
    SecondFills(pool, count, first);
    CountDcs(first);
    DcsWithin(pool, first);
    DcsWithin(pool, r);
    DcsPrefix(first, r);
    SubsetSize(Dcs(first), Dcs(pool));
    if |first| == count {
      assert r == first;
    } else {
      forall d | d in Dcs(pool)
        ensures d in Dcs(first)
      {
        var i :| 0 <= i < |pool| && pool[i].dc == d;
        assert pool[i] in pool;
      }
      assert Dcs(first) == Dcs(pool) == Dcs(r);
    }
  }

  lemma {:induction false} DcsWithin(pool: seq<Host>, r: seq<Host>)
    requires forall h :: h in r ==> h in pool
    ensures Dcs(r) <= Dcs(pool)
  {
    forall d | d in Dcs(r)
      ensures d in Dcs(pool)
    {
      var i :| 0 <= i < |r| && r[i].dc == d;
      assert r[i] in r;
      var j :| 0 <= j < |pool| && pool[j] == r[i];
    }
  }

  /** The order in which the candidates are given does not matter. */
  lemma {:induction false} PlacementPermutes(a: seq<Host>, b: seq<Host>, poolA: seq<Host>, poolB: seq<Host>, count: nat)
    requires multiset(a) == multiset(b)
    requires Sorted(poolA) && multiset(poolA) == multiset(a) && Sorted(poolB) && multiset(poolB) == multiset(b)
    ensures Picks(poolA, count) == Picks(poolB, count)
  {
    SortedUnique(poolA, poolB);
  }

  /** The second pass takes the lowest hosts that are left. */
  lemma {:induction false} SecondPicksLowest(pool: seq<Host>, count: nat, picked: seq<Host>)
    requires Sorted(pool)
    ensures var r := Second(pool, count, picked);
            && picked <= r
            && (forall k :: |picked| <= k < |r| ==> r[k] in pool)
            && (forall k, g :: |picked| <= k < |r| && g in pool && g.uuid !in Uuids(r) ==> !Before(g, r[k]))
    decreases |pool|
  {
    hide Before;
    var r := Second(pool, count, picked);
    if pool != [] && |picked| != count {
      var next := if pool[0].uuid in Uuids(picked) then picked else picked + [pool[0]];
      PickedNext(picked, pool[0]);
      TailSorted(pool);
      SecondPicksLowest(pool[1..], count, next);
      assert next <= r && Uuids(next) <= Uuids(r) by {
        UuidsPrefix(next, r);
      }
      forall k, g | |picked| <= k < |r| && g in pool && g.uuid !in Uuids(r)
        ensures !Before(g, r[k])
      {
        assert g != pool[0];
        assert g in pool[1..];
        if k == |picked| && |next| > |picked| {
          var i :| 0 < i < |pool| && pool[i] == g;
          assert r[k] == pool[0];
        }
      }
    }
  }

  lemma {:induction false} UuidsPrefix(a: seq<Host>, b: seq<Host>)
    requires a <= b
    ensures Uuids(a) <= Uuids(b)
  {
    forall x | x in Uuids(a)
      ensures x in Uuids(b)
    {
      var i :| 0 <= i < |a| && a[i].uuid == x;
      assert b[i].uuid == x;
    }
  }

  // ---------------------------------------------------------------- exactly when the picks are different hosts

  /** How many DCs there are before host `j`. */
  function Rank(pool: seq<Host>, j: nat): nat
    requires j <= |pool|
  {
    |Dcs(pool[..j])|
  }

  /** Host `j` is the first of its DC. */
  predicate Leads(pool: seq<Host>, j: nat)
    requires j < |pool|
  {
    pool[j].dc !in Dcs(pool[..j])
  }

  /** The first hosts of two of the first `count` DCs share an id. */
  ghost predicate LeadersClash(pool: seq<Host>, count: nat) {
    exists i, j :: 0 <= i < j < |pool| && Leads(pool, i) && Leads(pool, j) && Rank(pool, j) < count &&
        pool[i].uuid == pool[j].uuid
  }

  /** The picks among the first `k` hosts are the leaders of the first `count` DCs, in order. */
  ghost predicate LeadersOf(pool: seq<Host>, k: nat, count: nat, picked: seq<Host>) {
    && k <= |pool| && |picked| == Min(count, Rank(pool, k))
    && (|picked| < count ==> Dcs(picked) == Dcs(pool[..k]))
    && (forall j :: 0 <= j < k && Leads(pool, j) && Rank(pool, j) < count ==> At(picked, Rank(pool, j), pool[j]))
    && (forall p :: 0 <= p < |picked| ==> IsLeader(pool, k, p, picked[p]))
  }

  ghost predicate At(picked: seq<Host>, p: nat, h: Host) {
    p < |picked| && picked[p] == h
  }

  ghost predicate IsLeader(pool: seq<Host>, k: nat, p: nat, h: Host) {
    exists j :: 0 <= j < k <= |pool| && Leads(pool, j) && Rank(pool, j) == p && pool[j] == h
  }

  /** Looking at one more host. */
  lemma {:induction false} RankNext(pool: seq<Host>, k: nat)
    requires k < |pool|
    ensures Dcs(pool[..k + 1]) == Dcs(pool[..k]) + {pool[k].dc}
    ensures Leads(pool, k) ==> Rank(pool, k + 1) == Rank(pool, k) + 1
    ensures !Leads(pool, k) ==> Dcs(pool[..k + 1]) == Dcs(pool[..k]) && Rank(pool, k + 1) == Rank(pool, k)
  {
    assert pool[..k + 1] == pool[..k] + [pool[k]];
    PickedNext(pool[..k], pool[k]);
  }

  lemma {:induction false} LeadersNext(pool: seq<Host>, k: nat, count: nat, picked: seq<Host>, next: seq<Host>)
    requires k < |pool| && LeadersOf(pool, k, count, picked)
    requires next == if |picked| == count || !Leads(pool, k) then picked else picked + [pool[k]]
    ensures LeadersOf(pool, k + 1, count, next)
  {
    hide Dcs, Rank, Leads, IsLeader;
    RankNext(pool, k);
    PickedNext(picked, pool[k]);
    forall p | 0 <= p < |next|
      ensures IsLeader(pool, k + 1, p, next[p])
    {
      LeaderStays(pool, k, p, next[p]);
      if p < |picked| {
        assert IsLeader(pool, k, p, picked[p]);
      }
    }
  }

  lemma {:induction false} LeaderStays(pool: seq<Host>, k: nat, p: nat, h: Host)
    requires k < |pool|
    ensures IsLeader(pool, k, p, h) ==> IsLeader(pool, k + 1, p, h)
    ensures Leads(pool, k) && Rank(pool, k) == p && pool[k] == h ==> IsLeader(pool, k + 1, p, h)
  {
    hide Dcs, Rank, Leads;
  }

  lemma {:induction false} FirstTakesLeaders(pool: seq<Host>, k: nat, count: nat, picked: seq<Host>)
    requires LeadersOf(pool, k, count, picked)
    ensures LeadersOf(pool, |pool|, count, First(pool[k..], count, picked))
    decreases |pool| - k
  {
    hide Dcs, Rank, IsLeader;
    if k < |pool| {
      var next := if |picked| == count || !Leads(pool, k) then picked else picked + [pool[k]];
      LeadersNext(pool, k, count, picked, next);
      FirstTakesLeaders(pool, k + 1, count, next);
      assert pool[k..][0] == pool[k] && pool[k..][1..] == pool[k + 1..];
      assert |picked| < count ==> (Leads(pool, k) <==> pool[k].dc !in Dcs(picked));
    }
  }

  /** The first pass picks the leaders of the first `count` DCs. */
  lemma {:induction false} FirstLeaders(pool: seq<Host>, count: nat)
    ensures LeadersOf(pool, |pool|, count, First(pool, count, []))
  {
    assert pool[0..] == pool && pool[..0] == [];
    assert LeadersOf(pool, 0, count, []);
    FirstTakesLeaders(pool, 0, count, []);
  }

  /** A leader comes after every leader before it. */
  lemma {:induction false} RanksGrow(pool: seq<Host>, i: nat, j: nat)
    requires i < j < |pool| && Leads(pool, i)
    ensures Rank(pool, i) < Rank(pool, j)
  {
    assert pool[..i + 1] == pool[..i] + [pool[i]];
    PickedNext(pool[..i], pool[i]);
    assert pool[..i + 1] == pool[..j][..i + 1];
    DcsPrefix(pool[..i + 1], pool[..j]);
    SubsetSize(Dcs(pool[..i + 1]), Dcs(pool[..j]));
  }

  /** The second pass keeps what the first one picked. */
  lemma {:induction false} SecondExtends(pool: seq<Host>, count: nat, picked: seq<Host>)
    ensures var r := Second(pool, count, picked);
            |picked| <= |r| && picked == r[..|picked|]
    decreases |pool|
  {
    if pool != [] && |picked| != count {
      var next := if pool[0].uuid in Uuids(picked) then picked else picked + [pool[0]];
      SecondExtends(pool[1..], count, next);
    }
  }

  lemma {:induction false} ClashShows(pool: seq<Host>, count: nat, first: seq<Host>, i: nat, j: nat)
    requires LeadersOf(pool, |pool|, count, first)
    requires i < j < |pool| && Leads(pool, i) && Leads(pool, j) && Rank(pool, j) < count && pool[i].uuid == pool[j].uuid
    ensures !DistinctHosts(first)
  {
    hide Rank, Leads, IsLeader, Dcs;
    RanksGrow(pool, i, j);
    var p, q := Rank(pool, i), Rank(pool, j);
    assert At(first, p, pool[i]) && At(first, q, pool[j]);
    assert first[p].uuid == first[q].uuid;
  }

  lemma {:induction false} NoClashDiffers(pool: seq<Host>, count: nat, first: seq<Host>, p: nat, q: nat)
    requires LeadersOf(pool, |pool|, count, first) && !LeadersClash(pool, count) && p < q < |first|
    ensures first[p].uuid != first[q].uuid
  {
    hide Rank, Leads, Dcs, At;
    assert IsLeader(pool, |pool|, p, first[p]) && IsLeader(pool, |pool|, q, first[q]);
    var i: nat :| 0 <= i < |pool| && Leads(pool, i) && Rank(pool, i) == p && pool[i] == first[p];
    var j: nat :| 0 <= j < |pool| && Leads(pool, j) && Rank(pool, j) == q && pool[j] == first[q];
    if j < i {
      RanksGrow(pool, j, i);
    }
  }

  lemma {:induction false} LeadersDistinct(pool: seq<Host>, count: nat, first: seq<Host>)
    requires LeadersOf(pool, |pool|, count, first)
    ensures DistinctHosts(first) <==> !LeadersClash(pool, count)
  {
    hide LeadersOf, Rank, Leads;
    if LeadersClash(pool, count) {
      var i: nat, j: nat :| i < j < |pool| && Leads(pool, i) && Leads(pool, j) && Rank(pool, j) < count &&
                            pool[i].uuid == pool[j].uuid;
      ClashShows(pool, count, first, i, j);
    } else {
      forall p, q | 0 <= p < q < |first|
        ensures first[p].uuid != first[q].uuid
      {
        NoClashDiffers(pool, count, first, p, q);
      }
    }
  }

  /** The picks are different hosts exactly if the first hosts of the first `count` DCs are. */
  lemma {:induction false} PicksDistinctIff(pool: seq<Host>, count: nat)
    ensures DistinctHosts(Picks(pool, count)) <==> !LeadersClash(pool, count)
  {
    var first := First(pool, count, []);
    FirstLeaders(pool, count);
    LeadersDistinct(pool, count, first);
    SecondExtends(pool, count, first);
    var r := Picks(pool, count);
    if DistinctHosts(first) {
      SecondFills(pool, count, first);
    } else {
      var i, j :| 0 <= i < j < |first| && first[i].uuid == first[j].uuid;
      assert r[i] == first[i] && r[j] == first[j];
    }
  }

  /** Without unique ids the first pass can pick one host twice, once for each of two DCs. */
  lemma {:induction false} SharedIdPickedTwice(uuid: string, d: string, e: string)
    requires Less(d, e)
    ensures var pool := [Host(uuid, d), Host(uuid, e)];
            Sorted(pool) && Picks(pool, 2) == pool && !DistinctHosts(Picks(pool, 2))
  {
    LessTotal(d, e);
    var x, y := Host(uuid, d), Host(uuid, e);
    var pool := [x, y];
    assert pool[1..] == [y] && [y][1..] == [];
    assert Dcs([x]) == {d} by {
      assert [x][0].dc == d;
    }
    assert First([y], 2, [x]) == First([], 2, [x] + [y]);
    assert First(pool, 2, []) == First([y], 2, [] + [x]);
    assert [] + [x] == [x] && [x] + [y] == pool;
    assert pool[0].uuid == pool[1].uuid;
  }

  /** Candidates without a host twice stay so when sorted. */
  lemma {:induction false} DistinctPermuted(a: seq<Host>, b: seq<Host>)
    requires multiset(a) == multiset(b) && DistinctHosts(a)
    ensures DistinctHosts(b) && |a| == |b| && (forall h :: h in a <==> h in b)
  {
    assert |a| == |multiset(a)| == |multiset(b)| == |b|;
    assert forall h :: h in a <==> h in multiset(a);
    assert forall h :: h in b <==> h in multiset(b);
    CountUuids(a);
    UuidsSame(a, b);
    DistinctByCount(b);
  }

  lemma {:induction false} PlacesWell(candidates: seq<Host>, pool: seq<Host>, count: nat)
    requires multiset(pool) == multiset(candidates) && DistinctHosts(candidates) && count <= |candidates|
    ensures |Picks(pool, count)| == count && DistinctHosts(Picks(pool, count))
    ensures forall h :: h in Picks(pool, count) ==> h in candidates
    ensures |Dcs(Picks(pool, count))| == Min(count, |Dcs(candidates)|)
  {
    DistinctPermuted(candidates, pool);
    PicksHosts(pool, count);
    PicksDcs(pool, count);
    DcsWithin(pool, candidates);
    DcsWithin(candidates, pool);
    assert Dcs(pool) == Dcs(candidates);
  }

  lemma {:induction false} UuidsSame(a: seq<Host>, b: seq<Host>)
    requires forall h :: h in a <==> h in b
    ensures Uuids(a) == Uuids(b)
  {
    forall u
      ensures u in Uuids(a) <==> u in Uuids(b)
    {
      if u in Uuids(a) {
        var i :| 0 <= i < |a| && a[i].uuid == u;
        assert a[i] in b;
      }
      if u in Uuids(b) {
        var i :| 0 <= i < |b| && b[i].uuid == u;
        assert b[i] in a;
      }
    }
  }

  /** Hosts with as many ids as there are hosts have different ids. */
  lemma {:induction false} DistinctByCount(b: seq<Host>)
    ensures |Uuids(b)| <= |b|
    ensures |Uuids(b)| == |b| ==> DistinctHosts(b)
    decreases |b|
  {
    if b != [] {
      var last := |b| - 1;
      assert b == b[..last] + [b[last]];
      DistinctByCount(b[..last]);
      PickedNext(b[..last], b[last]);
      if |Uuids(b)| == |b| {
        assert b[last].uuid !in Uuids(b[..last]);
        forall i | 0 <= i < last
          ensures b[i].uuid != b[last].uuid
        {
          assert b[..last][i].uuid in Uuids(b[..last]);
        }
      }
    }
  }

  // ---------------------------------------------------------------- which hosts the first pass picks

  /** The first pass takes the lowest host of each of the lowest DCs. */
  lemma {:induction false} FirstPicksLowest(pool: seq<Host>, count: nat, p: nat, g: Host)
    requires Sorted(pool) && p < |First(pool, count, [])| && g in pool
    ensures var first := First(pool, count, []);
            && (g.dc == first[p].dc ==> !Before(g, first[p]))
            && (g.dc !in Dcs(first) ==> Less(first[p].dc, g.dc))
  {
    hide First, Leads;
    var first := First(pool, count, []);
    FirstLeaders(pool, count);
    assert IsLeader(pool, |pool|, p, first[p]);
    var j :| 0 <= j < |pool| && Leads(pool, j) && Rank(pool, j) == p && pool[j] == first[p];
    var i :| 0 <= i < |pool| && pool[i] == g;
    if i < j {
      BeforeLeader(pool, count, first, i, j);
    }
    LessTotal(g.dc, first[p].dc);
    BeforeTotal(g, first[p]);
  }

  /** A host before a leader is of another DC, which has a leader among the picks. */
  lemma {:induction false} BeforeLeader(pool: seq<Host>, count: nat, first: seq<Host>, i: nat, j: nat)
    requires LeadersOf(pool, |pool|, count, first) && i < j < |pool| && Leads(pool, j) && Rank(pool, j) < |first|
    ensures pool[i].dc != pool[j].dc && pool[i].dc in Dcs(first)
    decreases i
  {
    assert pool[..j][i] == pool[i];
    RankMono(pool, i, j);
    if Leads(pool, i) {
      assert At(first, Rank(pool, i), pool[i]);
    } else {
      var k :| 0 <= k < |pool[..i]| && pool[..i][k].dc == pool[i].dc;
      BeforeLeader(pool, count, first, k, j);
    }
  }

  lemma {:induction false} RankMono(pool: seq<Host>, i: nat, j: nat)
    requires i <= j <= |pool|
    ensures Rank(pool, i) <= Rank(pool, j)
  {
    forall d | d in Dcs(pool[..i])
      ensures d in Dcs(pool[..j])
    {
      var k :| 0 <= k < |pool[..i]| && pool[..i][k].dc == d;
      assert pool[..j][k].dc == d;
    }
    SubsetSize(Dcs(pool[..i]), Dcs(pool[..j]));
  }
}
