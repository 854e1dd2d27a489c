/** Which UDP port a node's topics live on: one shared by all, or with multiplexing off one per topic, except that
    topics paired under one pair id share, and image topics stay on the shared one. */
module Transports {
  import opened Wire

  const PAIR_KEY_TAG := 0x1_0000_0000

  datatype Transport = Shared | Dedicated(id: nat)

  datatype State = State(pairId: map<u32, u32>, transports: map<nat, nat>, next: nat, declared: set<u32>)

  const EMPTY := State(map[], map[], 0, {})

  /** Advertising or subscribing, with or without pairing; or the same for an image topic. */
  datatype Call = Declare(topic: u32, pair: bool, id: u32) | DeclareImage(topic: u32)

  function GroupKey(pairId: map<u32, u32>, t: u32): nat
  {
    if t in pairId then PAIR_KEY_TAG + pairId[t] else t
  }

  predicate OnDedicated(st: State, t: u32)
  {
    GroupKey(st.pairId, t) in st.transports
  }

  /** Where a topic's traffic goes. */
  function Route(st: State, t: u32): Transport
  {
    if OnDedicated(st, t) then Dedicated(st.transports[GroupKey(st.pairId, t)]) else Shared
  }

  /** The state as routing sees it: with multiplexing on, dedicated transports are not looked at. */
  function Seen(st: State, multiplex: bool): State
  {
    if multiplex then st.(transports := map[]) else st
  }

  // ----- What a call does -----

  /** Pairing is refused once the topic is paired otherwise, and unpairing once it is paired. */
  predicate PairRefused(st: State, t: u32, pair: bool, id: u32)
  {
    t in st.pairId && (!pair || st.pairId[t] != id)
  }

  function Paired(st: State, t: u32, pair: bool, id: u32): State
  {
    if pair then st.(pairId := st.pairId[t := id]) else st
  }

  function WithTransport(st: State, t: u32, multiplex: bool): State
  {
    var key := GroupKey(st.pairId, t);
    if multiplex || key in st.transports then st
    else st.(transports := st.transports[key := st.next], next := st.next + 1)
  }

  predicate Refused(st: State, call: Call)
  {
    call.Declare? && PairRefused(st, call.topic, call.pair, call.id)
  }

  function After(st: State, call: Call, multiplex: bool): State
  {
    if Refused(st, call) then st
    else match call
      case Declare(t, pair, id) =>
        var st1 := WithTransport(Paired(st, t, pair, id), t, multiplex);
        st1.(declared := st1.declared + {t})
      case DeclareImage(t) => st.(declared := st.declared + {t})
  }

  function Run(calls: seq<Call>, multiplex: bool): State
    decreases |calls|
  {
    if calls == [] then EMPTY else After(Run(calls[..|calls| - 1], multiplex), calls[|calls| - 1], multiplex)
  }

  datatype TopicGroup = TopicGroup(transport: Transport, topics: seq<u32>)

  ghost predicate NoRepeats<T>(s: seq<T>)
  {
    forall i, j :: 0 <= i < j < |s| ==> s[i] != s[j]
  }

  ghost predicate IsGroup(st: State, g: TopicGroup)
  {
    && g.topics != [] && NoRepeats(g.topics)
    && forall t :: t in g.topics <==> t in st.declared && Route(st, t) == g.transport
  }

  /** The groups partition the declared topics by transport. */
  ghost predicate Partition(st: State, groups: seq<TopicGroup>)
  {
    && (forall i :: 0 <= i < |groups| ==> IsGroup(st, groups[i]))
    && (forall i, j :: 0 <= i < j < |groups| ==> groups[i].transport != groups[j].transport)
    && (forall t :: t in st.declared ==> HasGroup(groups, Route(st, t)))
  }

  ghost predicate HasGroup(groups: seq<TopicGroup>, tr: Transport)
  {
    exists i :: 0 <= i < |groups| && groups[i].transport == tr
  }

  // ----- The node -----

  class Node {
    var multiplex: bool
    var pairId: map<u32, u32>
    var transports: map<nat, nat>
    var next: nat
    var declared: set<u32>
    var route: map<u32, Transport>

    ghost function View(): State
      reads this
    {
      State(pairId, transports, next, declared)
    }

    constructor (multiplex: bool)
      ensures this.multiplex == multiplex && View() == EMPTY && route == map[]
    {
      this.multiplex := multiplex;
      pairId, transports, next, declared, route := map[], map[], 0, {}, map[];
    }

    method SetMultiplex(enabled: bool)
      modifies this`multiplex
      ensures multiplex == enabled && View() == old(View()) && route == old(route)
    {
      multiplex := enabled;
    }

    method RegisterPair(t: u32, pair: bool, id: u32) returns (ok: bool)
      modifies this`pairId
      ensures ok <==> !PairRefused(old(View()), t, pair, id)
      ensures View() == if ok then Paired(old(View()), t, pair, id) else old(View())
    {
      if !pair {
        return t !in pairId;
      }
      if t in pairId && pairId[t] != id {
        return false;
      }
      pairId := pairId[t := id];
      return true;
    }

    method TransportFor(t: u32) returns (tr: Transport)
      modifies this`transports, this`next
      ensures View() == WithTransport(old(View()), t, multiplex)
      ensures tr == Route(Seen(View(), multiplex), t)
      ensures tr.Dedicated? <==> !multiplex
    {
      if multiplex {
        return Shared;
      }
      var key := GroupKey(pairId, t);
      if key in transports {
        return Dedicated(transports[key]);
      }
      transports := transports[key := next];
      next := next + 1;
      return Dedicated(transports[key]);
    }

    /** Advertise or subscribe. A refused pairing changes nothing. */
    method DeclareTopic(t: u32, pair: bool, id: u32) returns (ok: bool)
      modifies this`pairId, this`transports, this`next, this`declared
      ensures ok <==> !Refused(old(View()), Declare(t, pair, id))
      ensures View() == After(old(View()), Declare(t, pair, id), multiplex)
    {
      ok := RegisterPair(t, pair, id);
      if ok {
        var _ := TransportFor(t);
        declared := declared + {t};
      }
    }

    method DeclareImageTopic(t: u32)
      modifies this`declared
      ensures View() == After(old(View()), DeclareImage(t), multiplex)
    {
      declared := declared + {t};
    }

    /** Topics by the dedicated transport they are on, and the rest. */
    method Bucket() returns (buckets: map<Transport, seq<u32>>, leftover: seq<u32>)
      ensures Bucketed(Seen(View(), multiplex), {}, buckets) && IsLeftover(Seen(View(), multiplex), {}, leftover)
    {
      hide Route, OnDedicated;
      ghost var st := Seen(View(), multiplex);
      buckets, leftover := map[], [];
      var todo := declared;
      while todo != {}
        invariant todo <= declared
        invariant Bucketed(st, todo, buckets) && IsLeftover(st, todo, leftover)
        decreases |todo|
      {
        var t :| t in todo;
        RouteIs(st, t);
        Placed(st, todo, t, buckets, leftover);
        var key := GroupKey(pairId, t);
        if !multiplex && key in transports {
          var tr := Dedicated(transports[key]);
          buckets := buckets[tr := BucketAt(buckets, tr) + [t]];
        } else {
          leftover := leftover + [t];
        }
        todo := todo - {t};
      }
    }

    method MakeGroups() returns (groups: seq<TopicGroup>)
      ensures Partition(Seen(View(), multiplex), groups)
    {
      hide Route, Bucketed, IsLeftover, Grouped, Partition;
      groups := [];
      var buckets, leftover := Bucket();
      var todo := buckets.Keys;
      NothingGrouped(buckets);
      while todo != {}
        invariant todo <= buckets.Keys && Grouped(buckets, todo, groups)
        decreases |todo|
      {
        var tr :| tr in todo;
        GroupedStep(buckets, todo, groups, tr);
        groups := groups + [TopicGroup(tr, buckets[tr])];
        todo := todo - {tr};
      }
      GroupsPartition(Seen(View(), multiplex), buckets, leftover, groups);
      if leftover != [] {
        groups := groups + [TopicGroup(Shared, leftover)];
      }
    }

    /** The groups registered or beaconed with each port, and the route of every declared topic. */
    method EnsureStarted() returns (groups: seq<TopicGroup>)
      modifies this`route
      ensures Partition(Seen(View(), multiplex), groups)
      ensures forall t :: t in declared ==> t in route && route[t] == Route(Seen(View(), multiplex), t)
      ensures forall t :: t !in declared ==>
                (t in route <==> t in old(route)) && (t in route ==> route[t] == old(route)[t])
    {
      hide Route, Partition, Routed;
      groups := MakeGroups();
      ghost var st := Seen(View(), multiplex);
      SetRoutes(groups);
      assert Seen(View(), multiplex) == st;
      RoutesAgree(st, groups, old(route), route);
    }

    method SetRoutes(groups: seq<TopicGroup>)
      modifies this`route
      ensures route == Routed(old(route), groups)
    {
      for i := 0 to |groups|
        invariant route == Routed(old(route), groups[..i])
      {
        assert groups[..i + 1][..i] == groups[..i];
        ghost var before := route;
        var topics := groups[i].topics;
        for j := 0 to |topics|
          invariant route == RoutedTo(before, topics[..j], groups[i].transport)
        {
          assert topics[..j + 1][..j] == topics[..j];
          route := route[topics[j] := groups[i].transport];
        }
        assert topics[..|topics|] == topics;
      }
      assert groups[..|groups|] == groups;
    }
  }

  lemma RouteIs(st: State, t: u32)
    ensures Route(st, t) == if GroupKey(st.pairId, t) in st.transports
                            then Dedicated(st.transports[GroupKey(st.pairId, t)]) else Shared
  {}

  // ----- Grouping -----

  function BucketAt(buckets: map<Transport, seq<u32>>, tr: Transport): seq<u32>
  {
    if tr in buckets then buckets[tr] else []
  }

  /** Of the declared topics outside `todo`, exactly those on `tr`, each once. */
  ghost predicate Lists(st: State, todo: set<u32>, tr: Transport, topics: seq<u32>)
  {
    NoRepeats(topics) && forall t :: t in topics <==> t in st.declared && t !in todo && Route(st, t) == tr
  }

  ghost predicate Bucketed(st: State, todo: set<u32>, buckets: map<Transport, seq<u32>>)
  {
    && Shared !in buckets
    && (forall tr :: tr in buckets ==> buckets[tr] != [])
    && forall tr: Transport :: tr != Shared ==> Lists(st, todo, tr, BucketAt(buckets, tr))
  }

  ghost predicate IsLeftover(st: State, todo: set<u32>, leftover: seq<u32>)
  {
    Lists(st, todo, Shared, leftover)
  }

  lemma ListsStep(st: State, todo: set<u32>, tr: Transport, topics: seq<u32>, t: u32)
    requires Lists(st, todo, tr, topics) && t in todo && t in st.declared
    ensures Lists(st, todo - {t}, tr, if Route(st, t) == tr then topics + [t] else topics)
  {}

  lemma Placed(st: State, todo: set<u32>, t: u32, buckets: map<Transport, seq<u32>>, leftover: seq<u32>)
    requires Bucketed(st, todo, buckets) && IsLeftover(st, todo, leftover) && t in todo && t in st.declared
    ensures Route(st, t) == Shared ==> Bucketed(st, todo - {t}, buckets) && IsLeftover(st, todo - {t}, leftover + [t])
    ensures var tr := Route(st, t);
      tr != Shared ==> Bucketed(st, todo - {t}, buckets[tr := BucketAt(buckets, tr) + [t]])
                       && IsLeftover(st, todo - {t}, leftover)
  {
    hide Route, Lists;
    var tr := Route(st, t);
    ListsStep(st, todo, Shared, leftover, t);
    var grown := buckets[tr := BucketAt(buckets, tr) + [t]];
    forall other: Transport | other != Shared
      ensures tr == Shared ==> Lists(st, todo - {t}, other, BucketAt(buckets, other))
      ensures tr != Shared ==> Lists(st, todo - {t}, other, BucketAt(grown, other))
    {
      ListsStep(st, todo, other, BucketAt(buckets, other), t);
    }
  }

  /** One group per bucket done. */
  ghost predicate Grouped(buckets: map<Transport, seq<u32>>, todo: set<Transport>, groups: seq<TopicGroup>)
  {
    && (forall i :: 0 <= i < |groups| ==>
          && groups[i].transport in buckets && groups[i].transport !in todo
          && groups[i].topics == buckets[groups[i].transport])
    && (forall i, j :: 0 <= i < j < |groups| ==> groups[i].transport != groups[j].transport)
    && (forall tr :: tr in buckets && tr !in todo ==> HasGroup(groups, tr))
  }

  lemma NothingGrouped(buckets: map<Transport, seq<u32>>)
    ensures Grouped(buckets, buckets.Keys, [])
  {}

  lemma GroupedStep(buckets: map<Transport, seq<u32>>, todo: set<Transport>, groups: seq<TopicGroup>, tr: Transport)
    requires Grouped(buckets, todo, groups) && tr in todo && tr in buckets
    ensures Grouped(buckets, todo - {tr}, groups + [TopicGroup(tr, buckets[tr])])
  {
    var grown := groups + [TopicGroup(tr, buckets[tr])];
    forall other | other in buckets && other !in todo - {tr}
      ensures HasGroup(grown, other)
    {
      if other == tr {
        assert grown[|groups|].transport == tr;
      } else {
        var i :| 0 <= i < |groups| && groups[i].transport == other;
        assert grown[i].transport == other;
      }
    }
  }

  lemma GroupsPartition(st: State, buckets: map<Transport, seq<u32>>, leftover: seq<u32>, groups: seq<TopicGroup>)
    requires Bucketed(st, {}, buckets) && IsLeftover(st, {}, leftover) && Grouped(buckets, {}, groups)
    ensures Partition(st, if leftover == [] then groups else groups + [TopicGroup(Shared, leftover)])
  {
    hide Route;
    var all := if leftover == [] then groups else groups + [TopicGroup(Shared, leftover)];
    forall i | 0 <= i < |all|
      ensures IsGroup(st, all[i])
    {
      if i < |groups| {
        assert all[i] == groups[i];
        assert Lists(st, {}, all[i].transport, BucketAt(buckets, all[i].transport));
      }
    }
    forall t | t in st.declared
      ensures HasGroup(all, Route(st, t))
    {
      var tr := Route(st, t);
      if tr == Shared {
        assert t in leftover;
        assert all[|groups|].transport == tr;
      } else {
        assert Lists(st, {}, tr, BucketAt(buckets, tr));
        var i :| 0 <= i < |groups| && groups[i].transport == tr;
        assert all[i].transport == tr;
      }
    }
  }

  function RoutedTo(route: map<u32, Transport>, topics: seq<u32>, tr: Transport): map<u32, Transport>
    decreases |topics|
  {
    if topics == [] then route else RoutedTo(route, topics[..|topics| - 1], tr)[topics[|topics| - 1] := tr]
  }

  function Routed(route: map<u32, Transport>, groups: seq<TopicGroup>): map<u32, Transport>
    decreases |groups|
  {
    if groups == [] then route
    else RoutedTo(Routed(route, groups[..|groups| - 1]), groups[|groups| - 1].topics, groups[|groups| - 1].transport)
  }

  lemma {:induction false} RoutedToAt(route: map<u32, Transport>, topics: seq<u32>, tr: Transport, t: u32)
    ensures var after := RoutedTo(route, topics, tr);
      if t in topics then t in after && after[t] == tr
      else (t in after <==> t in route) && (t in after ==> after[t] == route[t])
    decreases |topics|
  {
    if topics != [] {
      RoutedToAt(route, topics[..|topics| - 1], tr, t);
      assert topics == topics[..|topics| - 1] + [topics[|topics| - 1]];
    }
  }

  ghost predicate Consistent(groups: seq<TopicGroup>, t: u32, tr: Transport)
  {
    forall i :: 0 <= i < |groups| ==> (t in groups[i].topics <==> groups[i].transport == tr)
  }

  lemma {:induction false} RoutedAt(route: map<u32, Transport>, groups: seq<TopicGroup>, t: u32, tr: Transport)
    requires Consistent(groups, t, tr)
    ensures var after := Routed(route, groups);
      if HasGroup(groups, tr) then t in after && after[t] == tr
      else (t in after <==> t in route) && (t in after ==> after[t] == route[t])
    decreases |groups|
  {
    if groups != [] {
      var n := |groups| - 1;
      var front := groups[..n];
      assert Consistent(front, t, tr);
      RoutedAt(route, front, t, tr);
      RoutedToAt(Routed(route, front), groups[n].topics, groups[n].transport, t);
      if HasGroup(front, tr) {
        var i :| 0 <= i < n && front[i].transport == tr;
        assert groups[i].transport == tr;
      }
      if HasGroup(groups, tr) && groups[n].transport != tr {
        var i :| 0 <= i < |groups| && groups[i].transport == tr;
        assert front[i].transport == tr;
      }
    }
  }

  lemma {:induction false} RoutedElsewhere(route: map<u32, Transport>, groups: seq<TopicGroup>, t: u32)
    requires forall i :: 0 <= i < |groups| ==> t !in groups[i].topics
    ensures var after := Routed(route, groups);
      (t in after <==> t in route) && (t in after ==> after[t] == route[t])
    decreases |groups|
  {
    if groups != [] {
      var n := |groups| - 1;
      RoutedElsewhere(route, groups[..n], t);
      RoutedToAt(Routed(route, groups[..n]), groups[n].topics, groups[n].transport, t);
    }
  }

  lemma RoutesAgree(st: State, groups: seq<TopicGroup>, route: map<u32, Transport>, after: map<u32, Transport>)
    requires Partition(st, groups) && after == Routed(route, groups)
    ensures forall t :: t in st.declared ==> t in after && after[t] == Route(st, t)
    ensures forall t :: t !in st.declared ==> (t in after <==> t in route) && (t in after ==> after[t] == route[t])
  {
    hide Route, Routed;
    forall t | t in st.declared
      ensures t in after && after[t] == Route(st, t)
    {
      RoutedAt(route, groups, t, Route(st, t));
    }
    forall t | t !in st.declared
      ensures (t in after <==> t in route) && (t in after ==> after[t] == route[t])
    {
      RoutedElsewhere(route, groups, t);
    }
  }

  // ----- Over every sequence of calls, with multiplexing off -----

  /** Every transport in the table is one of those created, and no two keys have the same. */
  ghost predicate DistinctIds(transports: map<nat, nat>, next: nat)
  {
    && (forall k :: k in transports ==> transports[k] < next)
    && (forall j, k :: j in transports && k in transports && transports[j] == transports[k] ==> j == k)
  }

  ghost predicate Inv(st: State)
  {
    && DistinctIds(st.transports, st.next)
    && (forall t :: t in st.pairId ==> OnDedicated(st, t))
  }

  lemma AfterInv(st: State, call: Call)
    requires Inv(st)
    ensures Inv(After(st, call, false))
  {
    hide DistinctIds;
    if call.Declare? && !Refused(st, call) {
      var paired := Paired(st, call.topic, call.pair, call.id);
      IdAdded(st.transports, st.next, GroupKey(paired.pairId, call.topic));
    }
  }

  lemma IdAdded(transports: map<nat, nat>, next: nat, key: nat)
    requires DistinctIds(transports, next)
    ensures DistinctIds(transports[key := next], next + 1)
  {}

  lemma {:induction false} RunInv(calls: seq<Call>)
    ensures Inv(Run(calls, false))
    decreases |calls|
  {
    hide Inv, After;
    if calls == [] {
      EmptyInv();
    } else {
      RunInv(calls[..|calls| - 1]);
      AfterInv(Run(calls[..|calls| - 1], false), calls[|calls| - 1]);
    }
  }

  lemma EmptyInv()
    ensures Inv(EMPTY)
  {}

  /** Call `i` declared topic `t`, not as an image topic, and was not refused. */
  ghost predicate Declares(calls: seq<Call>, i: nat, t: u32)
    requires i < |calls|
  {
    calls[i].Declare? && calls[i].topic == t && !Refused(Run(calls[..i], false), calls[i])
  }

  /** A topic has a dedicated transport exactly when it was declared other than as an image topic. */
  lemma {:induction false} DedicatedExactly(calls: seq<Call>, t: u32)
    ensures OnDedicated(Run(calls, false), t) <==> exists i :: 0 <= i < |calls| && Declares(calls, i, t)
    decreases |calls|
  {
    if calls != [] {
      var n := |calls| - 1;
      var front := calls[..n];
      DedicatedExactly(front, t);
      RunInv(front);
      DedicatedStep(Run(front, false), calls[n], t);
      forall i | 0 <= i < n
        ensures Declares(calls, i, t) <==> Declares(front, i, t)
      {
        assert calls[..i] == front[..i];
      }
      hide Declares, Run, After;
      LastDeclares(calls, t);
      if i :| 0 <= i < n && Declares(front, i, t) {
        assert Declares(calls, i, t);
      }
    }
  }

  lemma LastDeclares(calls: seq<Call>, t: u32)
    requires calls != []
    ensures var n := |calls| - 1;
      && Run(calls, false) == After(Run(calls[..n], false), calls[n], false)
      && (Declares(calls, n, t) <==>
          calls[n].Declare? && calls[n].topic == t && !Refused(Run(calls[..n], false), calls[n]))
  {}

  lemma DedicatedStep(st: State, call: Call, t: u32)
    requires Inv(st)
    ensures OnDedicated(After(st, call, false), t) <==>
            OnDedicated(st, t) || (call.Declare? && call.topic == t && !Refused(st, call))
  {}

  /** Call `i` was accepted and paired topic `t` under `id`. */
  ghost predicate PairsAs(calls: seq<Call>, i: nat, t: u32, id: u32)
    requires i < |calls|
  {
    calls[i] == Declare(t, true, id) && !Refused(Run(calls[..i], false), calls[i])
  }

  /** A topic's pair id is the one it was first paired under. */
  lemma {:induction false} PairedExactly(calls: seq<Call>, t: u32, id: u32)
    ensures var pairId := Run(calls, false).pairId;
      (t in pairId && pairId[t] == id) <==> exists i :: 0 <= i < |calls| && PairsAs(calls, i, t, id)
    decreases |calls|
  {
    if calls != [] {
      var n := |calls| - 1;
      var front := calls[..n];
      PairedExactly(front, t, id);
      forall i | 0 <= i < n
        ensures PairsAs(calls, i, t, id) <==> PairsAs(front, i, t, id)
      {
        assert calls[..i] == front[..i];
      }
      assert PairsAs(calls, n, t, id) <==> calls[n] == Declare(t, true, id) && !Refused(Run(front, false), calls[n]);
      hide PairsAs;
      if i :| 0 <= i < n && PairsAs(front, i, t, id) {
        assert PairsAs(calls, i, t, id);
      }
    }
  }

  /** A call is refused exactly when it would unpair a topic or pair it under another id than it was paired under;
      declaring it again under the same id is accepted. */
  lemma RefusedExactly(calls: seq<Call>, call: Call)
    ensures Refused(Run(calls, false), call) <==>
            call.Declare? && exists id :: PairedUnder(calls, call.topic, id) && !(call.pair && call.id == id)
  {
    hide Run;
    var pairId := Run(calls, false).pairId;
    if call.Declare? {
      if call.topic in pairId {
        PairedExactly(calls, call.topic, pairId[call.topic]);
      }
      if id :| PairedUnder(calls, call.topic, id) && !(call.pair && call.id == id) {
        PairedExactly(calls, call.topic, id);
      }
      if Refused(Run(calls, false), call) {
        assert PairedUnder(calls, call.topic, pairId[call.topic]);
      }
    }
  }

  ghost predicate PairedUnder(calls: seq<Call>, t: u32, id: u32)
  {
    exists i :: 0 <= i < |calls| && PairsAs(calls, i, t, id)
  }

  /** The declared topics are those of the calls that were not refused. */
  lemma {:induction false} DeclaredExactly(calls: seq<Call>, t: u32)
    ensures t in Run(calls, false).declared <==>
            exists i :: 0 <= i < |calls| && calls[i].topic == t && !Refused(Run(calls[..i], false), calls[i])
    decreases |calls|
  {
    if calls != [] {
      var n := |calls| - 1;
      var front := calls[..n];
      DeclaredExactly(front, t);
      assert forall i :: 0 <= i < n ==> front[..i] == calls[..i] && front[i] == calls[i];
      if t in Run(front, false).declared {
        var i :| 0 <= i < n && front[i].topic == t && !Refused(Run(front[..i], false), front[i]);
        assert calls[i].topic == t && !Refused(Run(calls[..i], false), calls[i]);
      }
      if i :| 0 <= i < n && calls[i].topic == t && !Refused(Run(calls[..i], false), calls[i]) {
        assert front[i].topic == t && !Refused(Run(front[..i], false), front[i]);
      }
    }
  }

  /** Two topics with dedicated transports share a port exactly when they are paired under one pair id. */
  lemma SharesPort(calls: seq<Call>, a: u32, b: u32)
    requires var st := Run(calls, false); a != b && OnDedicated(st, a) && OnDedicated(st, b)
    ensures var st := Run(calls, false);
      Route(st, a) == Route(st, b) <==> a in st.pairId && b in st.pairId && st.pairId[a] == st.pairId[b]
  {
    RunInv(calls);
  }

  /** Once set, a topic's pair id never changes. */
  lemma {:induction false} PairIdStays(calls: seq<Call>, more: seq<Call>, multiplex: bool, t: u32)
    requires t in Run(calls, multiplex).pairId
    ensures t in Run(calls + more, multiplex).pairId
    ensures Run(calls + more, multiplex).pairId[t] == Run(calls, multiplex).pairId[t]
    decreases |more|
  {
    if more == [] {
      assert calls + more == calls;
    } else {
      var n := |more| - 1;
      PairIdStays(calls, more[..n], multiplex, t);
      assert (calls + more)[..|calls| + n] == calls + more[..n];
    }
  }

  /** But its port can, without an error: exactly when a topic declared alone, or only as an image topic, is declared
      as paired, or one declared only as an image topic is declared plainly. What was set up on the first port, such
      as a handler, then stays behind. */
  lemma MovesExactly(calls: seq<Call>, call: Call, t: u32)
    ensures var st := Run(calls, false);
      Route(After(st, call, false), t) != Route(st, t) <==>
      call.Declare? && call.topic == t && t !in st.pairId && (call.pair || !OnDedicated(st, t))
  {
    RunInv(calls);
    MovesStep(Run(calls, false), call, t);
  }

  lemma MovesStep(st: State, call: Call, t: u32)
    requires Inv(st)
    ensures Route(After(st, call, false), t) != Route(st, t) <==>
            call.Declare? && call.topic == t && t !in st.pairId && (call.pair || !OnDedicated(st, t))
  {}

  /** An image topic moves when it is also declared plainly. */
  lemma ImageTopicMoves()
    ensures var st := Run([DeclareImage(7)], false);
      && 7 in st.declared && Route(st, 7) == Shared && !Refused(st, Declare(7, false, 0))
      && Route(After(st, Declare(7, false, 0), false), 7) != Shared
  {
    var calls := [DeclareImage(7)];
    assert calls[..0] == [];
    MovesExactly(calls, Declare(7, false, 0), 7);
  }

  lemma PortMoves()
    ensures var st := Run([Declare(7, false, 0)], false);
      !Refused(st, Declare(7, true, 1)) && Route(After(st, Declare(7, true, 1), false), 7) != Route(st, 7)
  {}
}
