/** The standalone relay: per topic a list of members, refreshed by join requests, forwarded to by data frames, and
    swept of stale members at most once a second, after the packet of that second has been handled. */
module Relay {
  import opened Options
  import opened Wire
  import opened RelayWire
  import Registry

  type Peer = Registry.Peer

  const MEMBER_TTL := 30

  datatype Member = Member(addr: Peer, lastSeen: int)

  datatype Packet = Packet(now: int, buf: Bytes, src: Peer)

  datatype State = State(groups: map<u32, seq<Member>>, lastSweep: int)

  // ----- What one packet does -----

  function GroupAt(groups: map<u32, seq<Member>>, t: u32): seq<Member>
  {
    if t in groups then groups[t] else []
  }

  function Refreshed(members: seq<Member>, src: Peer, now: int): seq<Member>
  {
    if members == [] then [Member(src, now)]
    else if members[0].addr == src then [Member(src, now)] + members[1..]
    else [members[0]] + Refreshed(members[1..], src, now)
  }

  /** One member looked at. */
  lemma RefreshedStep(members: seq<Member>, src: Peer, now: int, i: nat)
    requires i < |members|
    ensures members[..i] + Refreshed(members[i..], src, now) ==
            if members[i].addr == src then members[i := Member(src, now)]
            else members[..i + 1] + Refreshed(members[i + 1..], src, now)
  {}

  lemma RefreshedEnd(members: seq<Member>, src: Peer, now: int)
    ensures members[..|members|] + Refreshed(members[|members|..], src, now) == members + [Member(src, now)]
  {}

  function Swept(members: seq<Member>, now: int): seq<Member>
  {
    if members == [] then []
    else (if now - members[0].lastSeen > MEMBER_TTL then [] else [members[0]]) + Swept(members[1..], now)
  }

  function SweptAll(groups: map<u32, seq<Member>>, now: int): map<u32, seq<Member>>
  {
    map t | t in groups :: Swept(groups[t], now)
  }

  function Handled(st: State, p: Packet): State
  {
    var join := DecodedJoin(p.buf);
    var groups :=
      if join.None? then st.groups
      else st.groups[join.value := Refreshed(GroupAt(st.groups, join.value), p.src, p.now)];
    if p.now != st.lastSweep then State(SweptAll(groups, p.now), p.now) else State(groups, st.lastSweep)
  }

  function Copies(members: seq<Member>, buf: Bytes, src: Peer): seq<(Peer, Bytes)>
  {
    if members == [] then []
    else (if members[0].addr == src then [] else [(members[0].addr, buf)]) + Copies(members[1..], buf, src)
  }

  /** What is sent on for a packet: the frame, as received, to the members of its topic. */
  function Sent(st: State, p: Packet): seq<(Peer, Bytes)>
  {
    var topic := PeekedTopic(p.buf);
    if DecodedJoin(p.buf).Some? || topic.None? then [] else Copies(GroupAt(st.groups, topic.value), p.buf, p.src)
  }

  class Relay {
    var groups: map<u32, seq<Member>>
    var lastSweep: int

    ghost function View(): State
      reads this
    {
      State(groups, lastSweep)
    }

    constructor (start: int)
      ensures View() == State(map[], start)
    {
      groups, lastSweep := map[], start;
    }

    method Join(t: u32, src: Peer, now: int)
      modifies this`groups
      ensures groups == old(groups)[t := Refreshed(GroupAt(old(groups), t), src, now)]
    {
      hide Refreshed;
      var members := GroupAt(groups, t);
      assert members[..0] + Refreshed(members[0..], src, now) == Refreshed(members, src, now) by {
        assert members[0..] == members;
      }
      for i := 0 to |members|
        invariant groups == old(groups)
        invariant Refreshed(members, src, now) == members[..i] + Refreshed(members[i..], src, now)
      {
        RefreshedStep(members, src, now, i);
        if members[i].addr == src {
          groups := groups[t := members[i := Member(src, now)]];
          return;
        }
      }
      RefreshedEnd(members, src, now);
      groups := groups[t := members + [Member(src, now)]];
    }

    method Forward(members: seq<Member>, buf: Bytes, src: Peer) returns (sent: seq<(Peer, Bytes)>)
      ensures sent == Copies(members, buf, src)
    {
      sent := [];
      for i := 0 to |members|
        invariant Copies(members, buf, src) == sent + Copies(members[i..], buf, src)
      {
        assert members[i..][1..] == members[i + 1..];
        ghost var rest := Copies(members[i + 1..], buf, src);
        if members[i].addr != src {
          assert sent + ([(members[i].addr, buf)] + rest) == sent + [(members[i].addr, buf)] + rest;
          sent := sent + [(members[i].addr, buf)];
        } else {
          assert [] + rest == rest;
        }
      }
      assert members[|members|..] == [];
    }

    method SweepOne(members: seq<Member>, now: int) returns (kept: seq<Member>)
      ensures kept == Swept(members, now)
    {
      kept := [];
      for i := 0 to |members|
        invariant Swept(members, now) == kept + Swept(members[i..], now)
      {
        assert members[i..][1..] == members[i + 1..];
        ghost var rest := Swept(members[i + 1..], now);
        if now - members[i].lastSeen <= MEMBER_TTL {
          assert kept + ([members[i]] + rest) == kept + [members[i]] + rest;
          kept := kept + [members[i]];
        } else {
          assert [] + rest == rest;
        }
      }
      assert members[|members|..] == [];
    }

    method Sweep(now: int)
      modifies this`groups
      ensures groups == SweptAll(old(groups), now)
    {
      var todo := groups.Keys;
      while todo != {}
        invariant todo <= groups.Keys == old(groups).Keys
        invariant forall t :: t in groups ==>
          groups[t] == if t in todo then old(groups)[t] else Swept(old(groups)[t], now)
        decreases |todo|
      {
        var t :| t in todo;
        var kept := SweepOne(groups[t], now);
        groups := groups[t := kept];
        todo := todo - {t};
      }
    }

    method HandlePacket(p: Packet) returns (sent: seq<(Peer, Bytes)>)
      modifies this
      ensures View() == Handled(old(View()), p) && sent == Sent(old(View()), p)
    {
      sent := [];
      var join := DecodedJoin(p.buf);
      if join.Some? {
        Join(join.value, p.src, p.now);
      } else {
        var topic := PeekedTopic(p.buf);
        if topic.Some? && topic.value in groups {
          sent := Forward(groups[topic.value], p.buf, p.src);
        }
      }
      if p.now != lastSweep {
        lastSweep := p.now;
        Sweep(p.now);
      }
    }
  }

  // ----- Whole runs -----

  function Run(start: int, h: seq<Packet>): State
    decreases |h|
  {
    if h == [] then State(map[], start) else Handled(Run(start, h[..|h| - 1]), h[|h| - 1])
  }

  ghost predicate Monotone(start: int, h: seq<Packet>)
  {
    && (forall i :: 0 <= i < |h| ==> start <= h[i].now)
    && (forall i, j :: 0 <= i < j < |h| ==> h[i].now <= h[j].now)
  }

  function LastTime(start: int, h: seq<Packet>): int
  {
    if h == [] then start else h[|h| - 1].now
  }

  /** When `a` last asked to join topic `t`. */
  function LatestJoin(h: seq<Packet>, t: u32, a: Peer): Option<int>
    decreases |h|
  {
    if h == [] then None
    else
      var p := h[|h| - 1];
      if p.src == a && p.buf == JoinBytes(t) then Some(p.now) else LatestJoin(h[..|h| - 1], t, a)
  }

  /** When the list says `a` was last seen. */
  function SeenAt(members: seq<Member>, a: Peer): Option<int>
  {
    if members == [] then None
    else if members[0].addr == a then Some(members[0].lastSeen)
    else SeenAt(members[1..], a)
  }

  ghost predicate Distinct(members: seq<Member>)
  {
    forall i, j :: 0 <= i < j < |members| ==> members[i].addr != members[j].addr
  }

  function Fresh(seen: Option<int>, now: int): Option<int>
  {
    if seen.Some? && now - seen.value > MEMBER_TTL then None else seen
  }

  lemma {:induction false} SeenMember(members: seq<Member>, a: Peer)
    ensures SeenAt(members, a).Some? <==> exists i :: 0 <= i < |members| && members[i].addr == a
    decreases |members|
  {
    if members != [] {
      SeenMember(members[1..], a);
      if SeenAt(members[1..], a).Some? {
        var i :| 0 <= i < |members[1..]| && members[1..][i].addr == a;
        assert members[i + 1].addr == a;
      }
      if i :| 0 <= i < |members| && members[i].addr == a && i > 0 {
        assert members[1..][i - 1].addr == a;
      }
    }
  }

  lemma DistinctCons(m: Member, members: seq<Member>)
    ensures Distinct([m] + members) <==> Distinct(members) && SeenAt(members, m.addr).None?
  {
    SeenMember(members, m.addr);
    var all := [m] + members;
    assert forall i :: 0 <= i < |members| ==> all[i + 1] == members[i];
    if Distinct(all) {
      forall i | 0 <= i < |members|
        ensures members[i].addr != m.addr
      {
        assert all[0].addr != all[i + 1].addr;
      }
      forall i, j | 0 <= i < j < |members|
        ensures members[i].addr != members[j].addr
      {
        assert all[i + 1].addr != all[j + 1].addr;
      }
    }
  }

  lemma {:induction false} RefreshedSeen(members: seq<Member>, src: Peer, now: int, a: Peer)
    ensures SeenAt(Refreshed(members, src, now), a) == if a == src then Some(now) else SeenAt(members, a)
    decreases |members|
  {
    if members != [] {
      RefreshedSeen(members[1..], src, now, a);
    }
  }

  lemma {:induction false} RefreshedDistinct(members: seq<Member>, src: Peer, now: int)
    requires Distinct(members)
    ensures Distinct(Refreshed(members, src, now))
    decreases |members|
  {
    if members != [] {
      var m, rest := members[0], members[1..];
      assert members == [m] + rest;
      DistinctCons(m, rest);
      if m.addr == src {
        DistinctCons(Member(src, now), rest);
      } else {
        RefreshedDistinct(rest, src, now);
        RefreshedSeen(rest, src, now, m.addr);
        DistinctCons(m, Refreshed(rest, src, now));
      }
    }
  }

  lemma {:induction false} SweptSeen(members: seq<Member>, now: int, a: Peer)
    requires Distinct(members)
    ensures SeenAt(Swept(members, now), a) == Fresh(SeenAt(members, a), now)
    decreases |members|
  {
    if members != [] {
      var m, rest := members[0], members[1..];
      assert members == [m] + rest;
      DistinctCons(m, rest);
      SweptSeen(rest, now, a);
      assert [] + Swept(rest, now) == Swept(rest, now);
    }
  }

  lemma {:induction false} SweptDistinct(members: seq<Member>, now: int)
    requires Distinct(members)
    ensures Distinct(Swept(members, now))
    decreases |members|
  {
    if members != [] {
      var m, rest := members[0], members[1..];
      assert members == [m] + rest;
      DistinctCons(m, rest);
      SweptDistinct(rest, now);
      SweptSeen(rest, now, m.addr);
      DistinctCons(m, Swept(rest, now));
      assert [] + Swept(rest, now) == Swept(rest, now);
    }
  }

  /** Between packets every list holds each address once, swept as of the last packet, and says of each address
      exactly what the history says. */
  lemma {:induction false} RunHolds(start: int, h: seq<Packet>, t: u32, a: Peer)
    requires Monotone(start, h)
    ensures var st := Run(start, h);
      && st.lastSweep == LastTime(start, h)
      && Distinct(GroupAt(st.groups, t))
      && SeenAt(GroupAt(st.groups, t), a) == Fresh(LatestJoin(h, t, a), LastTime(start, h))
    decreases |h|
  {
    if h != [] {
      var front, p := h[..|h| - 1], h[|h| - 1];
      RunHolds(start, front, t, a);
      var st := Run(start, front);
      var members := GroupAt(st.groups, t);
      JoinDecodesExactly(p.buf, t);
      RefreshedSeen(members, p.src, p.now, a);
      RefreshedDistinct(members, p.src, p.now);
      var after := if DecodedJoin(p.buf) == Some(t) then Refreshed(members, p.src, p.now) else members;
      SweptSeen(after, p.now, a);
      SweptDistinct(after, p.now);
      hide SeenAt, Swept, Refreshed, LatestJoin, DecodedJoin, JoinBytes, Distinct, Run;
      HandledGroup(st, p, t);
      LatestJoinStep(h, t, a);
      RunStep(start, h);
    }
  }

  lemma RunStep(start: int, h: seq<Packet>)
    requires h != []
    ensures Run(start, h) == Handled(Run(start, h[..|h| - 1]), h[|h| - 1])
  {}

  lemma LatestJoinStep(h: seq<Packet>, t: u32, a: Peer)
    requires h != []
    ensures var p := h[|h| - 1];
      LatestJoin(h, t, a) == if p.src == a && p.buf == JoinBytes(t) then Some(p.now) else LatestJoin(h[..|h| - 1], t, a)
  {}

  lemma HandledGroup(st: State, p: Packet, t: u32)
    ensures var members := GroupAt(st.groups, t);
      var after := if DecodedJoin(p.buf) == Some(t) then Refreshed(members, p.src, p.now) else members;
      GroupAt(Handled(st, p).groups, t) == if p.now != st.lastSweep then Swept(after, p.now) else after
  {}

  lemma {:induction false} CopiesHas(members: seq<Member>, buf: Bytes, src: Peer, a: Peer, b: Bytes)
    ensures (a, b) in Copies(members, buf, src) <==> b == buf && a != src && SeenAt(members, a).Some?
    decreases |members|
  {
    if members != [] {
      CopiesHas(members[1..], buf, src, a, b);
    }
  }

  lemma {:induction false} CopiesOnce(members: seq<Member>, buf: Bytes, src: Peer, i: nat, j: nat)
    requires Distinct(members) && i < j < |Copies(members, buf, src)|
    ensures Copies(members, buf, src)[i].0 != Copies(members, buf, src)[j].0
    decreases |members|
  {
    var m, rest := members[0], members[1..];
    assert members == [m] + rest;
    DistinctCons(m, rest);
    var copies := Copies(rest, buf, src);
    if m.addr == src {
      assert Copies(members, buf, src) == copies;
      CopiesOnce(rest, buf, src, i, j);
    } else if i > 0 {
      CopiesOnce(rest, buf, src, i - 1, j - 1);
    } else {
      CopiesHas(rest, buf, src, copies[j - 1].0, copies[j - 1].1);
      assert copies[j - 1] in copies;
    }
  }

  /** A data frame goes, unchanged, to exactly the addresses other than its sender whose latest join was at most 30
      seconds before the packet that preceded it. */
  lemma ForwardsExactly(start: int, h: seq<Packet>, p: Packet, t: u32, a: Peer, b: Bytes)
    requires Monotone(start, h) && PeekedTopic(p.buf) == Some(t)
    ensures (a, b) in Sent(Run(start, h), p) <==>
            b == p.buf && a != p.src && Fresh(LatestJoin(h, t, a), LastTime(start, h)).Some?
  {
    JoinIsNoFrame(p.buf);
    RunHolds(start, h, t, a);
    CopiesHas(GroupAt(Run(start, h).groups, t), p.buf, p.src, a, b);
  }

  /** Hence to all who joined within 30 seconds, and never to an address that did not join the topic. */
  lemma ReachesMembers(start: int, h: seq<Packet>, p: Packet, t: u32, a: Peer)
    requires Monotone(start, h + [p]) && PeekedTopic(p.buf) == Some(t) && a != p.src
    ensures LatestJoin(h, t, a).Some? && p.now - LatestJoin(h, t, a).value <= MEMBER_TTL ==>
              (a, p.buf) in Sent(Run(start, h), p)
    ensures LatestJoin(h, t, a).None? ==> (a, p.buf) !in Sent(Run(start, h), p)
  {
    var all := h + [p];
    assert forall i :: 0 <= i < |h| ==> all[i] == h[i];
    assert all[|h|] == p;
    assert Monotone(start, h);
    ForwardsExactly(start, h, p, t, a, p.buf);
  }

  /** And to nobody twice. */
  lemma ForwardsOnce(start: int, h: seq<Packet>, p: Packet, i: nat, j: nat)
    requires Monotone(start, h) && i < j < |Sent(Run(start, h), p)|
    ensures Sent(Run(start, h), p)[i].0 != Sent(Run(start, h), p)[j].0
  {
    var t := PeekedTopic(p.buf).value;
    RunHolds(start, h, t, p.src);
    CopiesOnce(GroupAt(Run(start, h).groups, t), p.buf, p.src, i, j);
  }

  /** The sweep comes after the packet of its second, so an address can get a copy long after its 30 seconds: here 100
      seconds after it joined, no packet having come since the thirtieth. */
  lemma LateCopy(a: Peer, b: Peer, p: Packet)
    requires PeekedTopic(p.buf) == Some(7) && p.now == 100 && p.src != a && a != b
    ensures var h := [Packet(0, JoinBytes(7), a), Packet(30, JoinBytes(7), b)];
      && Monotone(0, h + [p]) && LatestJoin(h, 7, a) == Some(0)
      && (a, p.buf) in Sent(Run(0, h), p)
  {
    var h := [Packet(0, JoinBytes(7), a), Packet(30, JoinBytes(7), b)];
    assert h[..1] == [Packet(0, JoinBytes(7), a)];
    assert LatestJoin(h[..1], 7, a) == Some(0);
    ForwardsExactly(0, h, p, 7, a, p.buf);
  }
}
