/** Duplicate suppression: per topic, the sequence numbers of the last eight accepted frames. */
module Dedup {
  import opened Wire

  const WINDOW := 8

  function Last<T>(accepted: seq<T>): (recent: seq<T>)
    ensures |recent| <= WINDOW
  {
    if |accepted| <= WINDOW then accepted else accepted[|accepted| - WINDOW..]
  }

  /** What the filter should do: drop what is among the last eight accepted, accept the rest. */
  function Filtered<T(==)>(accepted: seq<T>, x: T): seq<T>
  {
    if x in Last(accepted) then accepted else accepted + [x]
  }

  // ----- The code: a circular window per topic -----

  datatype Window = Window(seen: seq<u16>, valid: seq<bool>, next: nat)

  const EMPTY_WINDOW := Window([0, 0, 0, 0, 0, 0, 0, 0], [false, false, false, false, false, false, false, false], 0)

  /** The window holds the last eight of `accepted`. */
  ghost predicate Holds(w: Window, accepted: seq<u16>)
  {
    && |w.seen| == WINDOW && |w.valid| == WINDOW
    && w.next == |accepted| % WINDOW
    && (forall i :: 0 <= i < WINDOW ==> (w.valid[i] <==> i < |accepted|))
    && (forall n {:trigger accepted[n]} ::
          |accepted| - WINDOW <= n < |accepted| && 0 <= n ==> w.seen[n % WINDOW] == accepted[n])
  }

  lemma SlotHasEntry(w: Window, accepted: seq<u16>, i: nat)
    requires Holds(w, accepted) && i < WINDOW && w.valid[i]
    ensures w.seen[i] in Last(accepted)
  {
    var n := |accepted| - 1 - (|accepted| - 1 - i) % WINDOW;
    assert n % WINDOW == i && |accepted| - WINDOW <= n < |accepted| && 0 <= n;
    assert accepted[n] == w.seen[i];
    if |accepted| > WINDOW {
      assert Last(accepted)[n - (|accepted| - WINDOW)] == accepted[n];
    }
  }

  lemma NoSlotHas(w: Window, accepted: seq<u16>, s: u16)
    requires Holds(w, accepted)
    requires forall j :: 0 <= j < WINDOW ==> !(w.valid[j] && w.seen[j] == s)
    ensures s !in Last(accepted)
  {
    forall k | 0 <= k < |Last(accepted)|
      ensures Last(accepted)[k] != s
    {
      var n := if |accepted| <= WINDOW then k else k + |accepted| - WINDOW;
      assert accepted[n] == Last(accepted)[k];
      assert w.seen[n % WINDOW] == accepted[n] && w.valid[n % WINDOW];
    }
  }

  lemma RememberHolds(w: Window, accepted: seq<u16>, s: u16)
    requires Holds(w, accepted)
    ensures Holds(Window(w.seen[w.next := s], w.valid[w.next := true], (w.next + 1) % WINDOW), accepted + [s])
  {}

  function AcceptedOn(history: map<u32, seq<u16>>, topic: u32): seq<u16>
  {
    if topic in history then history[topic] else []
  }

  class Receiver {
    var recent: map<u32, Window>

    ghost predicate Remembers(history: map<u32, seq<u16>>)
      reads this
    {
      && recent.Keys == history.Keys
      && forall t :: t in recent ==> Holds(recent[t], history[t])
    }

    constructor ()
      ensures Remembers(map[])
    {
      recent := map[];
    }

    /** Answers exactly "among the last eight accepted on this topic", whatever else has been received. */
    method IsRecentDuplicate(topic: u32, s: u16, ghost history: map<u32, seq<u16>>) returns (duplicate: bool)
      requires Remembers(history)
      modifies this
      ensures duplicate <==> s in Last(AcceptedOn(history, topic))
      ensures Remembers(history[topic := Filtered(AcceptedOn(history, topic), s)])
    {
      ghost var accepted := AcceptedOn(history, topic);
      var w := if topic in recent then recent[topic] else EMPTY_WINDOW;
      recent := recent[topic := w];
      for i := 0 to WINDOW
        invariant forall j :: 0 <= j < i ==> !(w.valid[j] && w.seen[j] == s)
      {
        if w.valid[i] && w.seen[i] == s {
          SlotHasEntry(w, accepted, i);
          return true;
        }
      }
      NoSlotHas(w, accepted, s);
      RememberHolds(w, accepted, s);
      recent := recent[topic := Window(w.seen[w.next := s], w.valid[w.next := true], (w.next + 1) % WINDOW)];
      duplicate := false;
    }
  }

  // ----- Whole runs -----

  /** What has been accepted after further arrivals on one topic. */
  function Run<T(==)>(past: seq<T>, arrivals: seq<T>): seq<T>
    decreases |arrivals|
  {
    if arrivals == [] then past
    else Filtered(Run(past, arrivals[..|arrivals| - 1]), arrivals[|arrivals| - 1])
  }

  /** The sequence number of the n-th publish of a transport whose counter started at `start`: all copies of
      one publish, direct or relayed, carry it. */
  function SeqOf(start: u16, n: nat): u16
  {
    (start + n) % 0x1_0000
  }

  lemma SeqOfCongruent(a: u16, m: nat, b: u16, n: nat)
    ensures SeqOf(a, m) == SeqOf(b, n) <==> (a + m - b - n) % 0x1_0000 == 0
  {}

  /** The index-th publish of publisher `who`. Every publisher counts on its own. */
  datatype Publish = Publish(who: nat, index: nat)

  function NumberOf(starts: nat -> u16, p: Publish): u16
  {
    SeqOf(starts(p.who), p.index)
  }

  function NumbersOf(starts: nat -> u16, publishes: seq<Publish>): (numbers: seq<u16>)
    ensures |numbers| == |publishes|
  {
    seq(|publishes|, i requires 0 <= i < |publishes| => NumberOf(starts, publishes[i]))
  }

  predicate SameNumber(starts: nat -> u16, p: Publish, q: Publish)
  {
    (starts(p.who) + p.index - starts(q.who) - q.index) % 0x1_0000 == 0
  }

  /** Another of the last eight accepted has the number of `p`, which is not among them itself. */
  ghost predicate Lost(starts: nat -> u16, accepted: seq<Publish>, p: Publish)
  {
    p !in Last(accepted) && exists q :: q in Last(accepted) && SameNumber(starts, q, p)
  }

  lemma LastNumbers(starts: nat -> u16, accepted: seq<Publish>)
    ensures Last(NumbersOf(starts, accepted)) == NumbersOf(starts, Last(accepted))
  {}

  /** The filter drops a publish exactly when it is among the last eight accepted, as it should, or when it is lost
      to another one, of whatever publisher, whose counter shows the same sixteen bits. */
  lemma DroppedExactly(starts: nat -> u16, accepted: seq<Publish>, p: Publish)
    ensures NumberOf(starts, p) in Last(NumbersOf(starts, accepted)) <==>
            p in Last(accepted) || Lost(starts, accepted, p)
  {
    hide NumberOf, SameNumber;
    var recent, numbers := Last(accepted), NumbersOf(starts, Last(accepted));
    LastNumbers(starts, accepted);
    if NumberOf(starts, p) in numbers {
      var k :| 0 <= k < |numbers| && numbers[k] == NumberOf(starts, p);
      Congruent(starts, recent[k], p);
      assert recent[k] in recent;
    }
    if p in recent {
      var k :| 0 <= k < |recent| && recent[k] == p;
      assert numbers[k] == NumberOf(starts, p);
    }
    if Lost(starts, accepted, p) {
      var q :| q in recent && SameNumber(starts, q, p);
      var k :| 0 <= k < |recent| && recent[k] == q;
      Congruent(starts, q, p);
      assert numbers[k] == NumberOf(starts, p);
    }
  }

  lemma Congruent(starts: nat -> u16, q: Publish, p: Publish)
    ensures NumberOf(starts, q) == NumberOf(starts, p) <==> SameNumber(starts, q, p)
  {
    SeqOfCongruent(starts(q.who), q.index, starts(p.who), p.index);
  }

  /** A copy of one of the last eight accepted publishes is dropped, and so is a lost one; others are accepted. */
  lemma FilteredExactly(starts: nat -> u16, accepted: seq<Publish>, p: Publish)
    ensures Filtered(NumbersOf(starts, accepted), NumberOf(starts, p)) ==
            if Lost(starts, accepted, p) then NumbersOf(starts, accepted) else NumbersOf(starts, Filtered(accepted, p))
  {
    DroppedExactly(starts, accepted, p);
    assert NumbersOf(starts, accepted + [p]) == NumbersOf(starts, accepted) + [NumberOf(starts, p)];
  }

  /** So far, filtering numbers has accepted what filtering the publishes themselves would have. */
  ghost predicate Agrees(starts: nat -> u16, arrivals: seq<Publish>, k: nat)
    requires k <= |arrivals|
  {
    Run([], NumbersOf(starts, arrivals[..k])) == NumbersOf(starts, Run([], arrivals[..k]))
  }

  ghost predicate LostAt(starts: nat -> u16, arrivals: seq<Publish>, k: nat)
    requires k < |arrivals|
  {
    Lost(starts, Run([], arrivals[..k]), arrivals[k])
  }

  lemma AgreesStep(starts: nat -> u16, arrivals: seq<Publish>, k: nat)
    requires k < |arrivals| && Agrees(starts, arrivals, k)
    ensures Agrees(starts, arrivals, k + 1) <==> !LostAt(starts, arrivals, k)
  {
    var accepted, p := Run([], arrivals[..k]), arrivals[k];
    assert arrivals[..k + 1][..k] == arrivals[..k];
    assert NumbersOf(starts, arrivals[..k + 1])[..k] == NumbersOf(starts, arrivals[..k]);
    FilteredExactly(starts, accepted, p);
    hide Run, Last;
  }

  /** Over a whole run, however many publishers share the topic: the filter accepts at every arrival what filtering
      the publishes themselves would exactly when no arrival is lost. */
  lemma FiltersPublishes(starts: nat -> u16, arrivals: seq<Publish>)
    ensures (forall k :: 0 <= k <= |arrivals| ==> Agrees(starts, arrivals, k)) <==>
            (forall k :: 0 <= k < |arrivals| ==> !LostAt(starts, arrivals, k))
  {
    hide Agrees, LostAt;
    AgreesAtStart(starts, arrivals);
    if forall k :: 0 <= k <= |arrivals| ==> Agrees(starts, arrivals, k) {
      forall k | 0 <= k < |arrivals|
        ensures !LostAt(starts, arrivals, k)
      {
        AgreesStep(starts, arrivals, k);
      }
    }
    if forall k :: 0 <= k < |arrivals| ==> !LostAt(starts, arrivals, k) {
      for k := 0 to |arrivals|
        invariant forall j :: 0 <= j <= k ==> Agrees(starts, arrivals, j)
      {
        AgreesStep(starts, arrivals, k);
      }
    }
  }

  lemma AgreesAtStart(starts: nat -> u16, arrivals: seq<Publish>)
    ensures Agrees(starts, arrivals, 0)
  {}

  /** With one publisher nothing is lost while the last eight accepted are within 65535 publishes of the arriving
      one. */
  lemma NearNeverLost(starts: nat -> u16, accepted: seq<Publish>, p: Publish)
    requires forall q :: q in Last(accepted) ==> q.who == p.who && -0x1_0000 < q.index - p.index < 0x1_0000
    ensures !Lost(starts, accepted, p)
  {}

  /** The comment "never reused for a different payload" is false with two publishers on one topic: every counter
      starts at 0, and the second publisher's first frame is lost. */
  lemma SecondPublisherLost(starts: nat -> u16, a: nat, b: nat)
    requires a != b && starts(a) == starts(b)
    ensures var arrivals := [Publish(a, 0), Publish(b, 0)];
      && Run([], arrivals) == arrivals
      && Run([], NumbersOf(starts, arrivals)) == [starts(a)]
  {
    var first, second := Publish(a, 0), Publish(b, 0);
    var arrivals, numbers := [first, second], NumbersOf(starts, [first, second]);
    assert arrivals[..1] == [first] && [first][..0] == [];
    assert Run([], [first]) == Filtered([], first) == [first];
    assert numbers == [starts(a), starts(a)];
    assert numbers[..1] == [starts(a)] && [starts(a)][..0] == [];
    assert Run([], [starts(a)]) == Filtered([], starts(a)) == [starts(a)];
  }
}
