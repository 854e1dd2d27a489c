/** Opening a shared-memory segment: creation, attachment, and the takeover of a segment whose
    creator crashed. Any number of openers run one load, store or compare-and-swap at a time. */
module ShmOpen {

  const MAGIC: nat := 0x524C4B31
  const VERSION: nat := 1

  datatype Header = Header(magic: nat, version: nat, slotSize: nat, capacity: nat, head: nat, tail: nat, owner: nat)

  /** Where one call of `open` stands. `Initializing(k)` has done k of the seven stores of the initialisation. */
  datatype Stage =
    | Initializing(done: nat)
    | Polling
    | SawMagic
    | Compatible
    | Stealing
    | Attached
    | Owning
    | Refused
    | Crashed

  /** `sampledOwner` is the dead pid the opener last read as the owner, `sampledAt` the number of publications then. */
  datatype Opener = Opener(pid: nat, slotSize: nat, capacity: nat, stage: Stage, sampledAt: nat, sampledOwner: nat)

  datatype Layout = Layout(version: nat, slotSize: nat, capacity: nat)

  /** `published` lists the layout at each store of the magic; `claims` lists, for each won
      compare-and-swap, the publication it consumed. */
  datatype State = State(created: bool, hdr: Header, openers: map<nat, Opener>, alive: set<nat>,
                         published: seq<Layout>, claims: seq<nat>)

  datatype Action =
    | Open(id: nat, pid: nat, slotSize: nat, capacity: nat)
    | Advance(id: nat)
    | GiveUp(id: nat)
    | Die(pid: nat)

  const INITIAL := State(false, Header(0, 0, 0, 0, 0, 0, 0), map[], {}, [], [])

  function With(s: State, id: nat, o: Opener): State
  {
    s.(openers := s.openers[id := o])
  }

  function LayoutOf(h: Header): Layout
  {
    Layout(h.version, h.slotSize, h.capacity)
  }

  /** Store number k of the initialisation; the last one publishes. */
  function InitStore(s: State, id: nat, o: Opener, k: nat): State
  {
    var h := s.hdr;
    if k == 0 then With(s.(hdr := h.(version := VERSION)), id, o.(stage := Initializing(1)))
    else if k == 1 then With(s.(hdr := h.(slotSize := o.slotSize)), id, o.(stage := Initializing(2)))
    else if k == 2 then With(s.(hdr := h.(capacity := o.capacity)), id, o.(stage := Initializing(3)))
    else if k == 3 then With(s.(hdr := h.(head := 0)), id, o.(stage := Initializing(4)))
    else if k == 4 then With(s.(hdr := h.(tail := 0)), id, o.(stage := Initializing(5)))
    else if k == 5 then With(s.(hdr := h.(owner := o.pid)), id, o.(stage := Initializing(6)))
    else With(s.(hdr := h.(magic := MAGIC), published := s.published + [LayoutOf(h)]), id, o.(stage := Owning))
  }

  /** One step of the opener's code: each reads or writes the header once. */
  function AdvanceOpener(s: State, id: nat): State
    requires id in s.openers
  {
    var o, h := s.openers[id], s.hdr;
    match o.stage
    case Initializing(k) => InitStore(s, id, o, k)
    case Polling => if h.magic == MAGIC then With(s, id, o.(stage := SawMagic)) else s
    case SawMagic =>
      if h.version != VERSION || h.slotSize != o.slotSize || h.capacity != o.capacity
      then With(s, id, o.(stage := Refused))
      else With(s, id, o.(stage := Compatible))
    case Compatible =>
      if h.owner != o.pid && h.owner !in s.alive
      then With(s, id, o.(stage := Stealing, sampledAt := |s.published|, sampledOwner := h.owner))
      else With(s, id, o.(stage := Attached))
    case Stealing =>
      if h.magic == MAGIC
      then With(s.(hdr := h.(magic := 0), claims := s.claims + [|s.published|]), id, o.(stage := Initializing(0)))
      else With(s, id, o.(stage := Polling))
    case _ => s
  }

  function Step(s: State, a: Action): State
  {
    match a
    case Open(id, pid, slotSize, capacity) =>
      if id in s.openers then s
      else if !s.created then
        With(s.(created := true, alive := s.alive + {pid}), id, Opener(pid, slotSize, capacity, Initializing(0), 0, 0))
      else With(s.(alive := s.alive + {pid}), id, Opener(pid, slotSize, capacity, Polling, 0, 0))
    case Advance(id) =>
      if id in s.openers && s.openers[id].pid in s.alive then AdvanceOpener(s, id) else s
    case GiveUp(id) =>
      if id in s.openers && s.openers[id].stage.Polling? then With(s, id, s.openers[id].(stage := Refused)) else s
    case Die(pid) =>
      s.(alive := s.alive - {pid},
         openers := map id | id in s.openers ::
           if s.openers[id].pid == pid then s.openers[id].(stage := Crashed) else s.openers[id])
  }

  function Run(actions: seq<Action>): State
    decreases |actions|
  {
    if actions == [] then INITIAL else Step(Run(actions[..|actions| - 1]), actions[|actions| - 1])
  }

  // ----- The invariant -----

  ghost predicate Busy(s: State, id: nat)
  {
    id in s.openers && s.openers[id].stage.Initializing?
  }

  /** What an opener may rely on once it has passed the compatibility test. */
  ghost predicate OpenerOk(s: State, o: Opener)
  {
    match o.stage
    case Initializing(k) => k <= 6 && (s.published != [] ==> Layout(VERSION, o.slotSize, o.capacity) == s.published[0])
    case SawMagic => s.published != []
    case Compatible => s.published != [] && Layout(VERSION, o.slotSize, o.capacity) == s.published[0]
    case Stealing => s.published != [] && Layout(VERSION, o.slotSize, o.capacity) == s.published[0]
    case Attached => s.published != [] && Layout(VERSION, o.slotSize, o.capacity) == s.published[0]
    case Owning => s.published != [] && Layout(VERSION, o.slotSize, o.capacity) == s.published[0]
    case _ => true
  }

  /** During the first initialisation the fields written so far carry the creator's values. */
  ghost predicate FirstInitOk(s: State, o: Opener)
    requires o.stage.Initializing?
  {
    && (o.stage.done > 0 ==> s.hdr.version == VERSION)
    && (o.stage.done > 1 ==> s.hdr.slotSize == o.slotSize)
    && (o.stage.done > 2 ==> s.hdr.capacity == o.capacity)
    && (o.stage.done > 5 ==> s.hdr.owner == o.pid)
  }

  /** At most one opener initialises, and only while the magic is withdrawn. */
  ghost predicate Exclusive(s: State)
  {
    && (s.hdr.magic == MAGIC || s.hdr.magic == 0)
    && (forall id, jd :: Busy(s, id) && Busy(s, jd) ==> id == jd)
    && (forall id :: Busy(s, id) ==> s.hdr.magic == 0 && FirstInitOk(s, s.openers[id]))
    && (!s.created ==> s.openers == map[] && s.hdr.magic == 0 && s.published == [])
  }

  /** Every publication has the first one's layout, and the header still shows it. */
  ghost predicate SameLayout(s: State)
  {
    && (s.published != [] ==> LayoutOf(s.hdr) == s.published[0])
    && (forall i :: 0 <= i < |s.published| ==> s.published[i] == s.published[0])
  }

  /** Publications and claims alternate. */
  ghost predicate Alternating(s: State)
  {
    && |s.claims| + (if s.hdr.magic == MAGIC then 1 else 0) == |s.published|
    && (forall i :: 0 <= i < |s.claims| ==> s.claims[i] == i + 1)
  }

  ghost predicate Inv(s: State)
  {
    && Exclusive(s) && SameLayout(s) && Alternating(s)
    && (forall id :: id in s.openers ==> OpenerOk(s, s.openers[id]))
  }

  lemma InitWriteInv(s: State, id: nat)
    requires Inv(s) && Busy(s, id) && s.openers[id].stage.done < 6
    ensures Inv(AdvanceOpener(s, id))
  {
    var s' := AdvanceOpener(s, id);
    assert forall jd :: Busy(s', jd) ==> Busy(s, jd);
    assert SameLayout(s');
  }

  lemma PublishInv(s: State, id: nat)
    requires Inv(s) && Busy(s, id) && s.openers[id].stage.done == 6
    ensures Inv(AdvanceOpener(s, id))
  {
    var s', o := AdvanceOpener(s, id), s.openers[id];
    assert OpenerOk(s, o);
    assert FirstInitOk(s, o);
    assert LayoutOf(s.hdr) == Layout(VERSION, o.slotSize, o.capacity);
    assert forall jd :: Busy(s', jd) ==> Busy(s, jd) && jd != id;
    assert s'.published == s.published + [LayoutOf(s.hdr)];
    forall jd | jd in s'.openers
      ensures OpenerOk(s', s'.openers[jd])
    {
      assert jd != id ==> OpenerOk(s, s.openers[jd]) && !Busy(s', jd);
    }
  }

  lemma AdvanceInv(s: State, id: nat)
    requires Inv(s) && id in s.openers
    ensures Inv(AdvanceOpener(s, id))
  {
    assert OpenerOk(s, s.openers[id]);
    if Busy(s, id) {
      if s.openers[id].stage.done < 6 {
        InitWriteInv(s, id);
      } else {
        PublishInv(s, id);
      }
    } else {
      var s' := AdvanceOpener(s, id);
      assert forall jd :: Busy(s', jd) ==> Busy(s, jd) || jd == id;
    }
  }

  lemma OpenInv(s: State, id: nat, pid: nat, slotSize: nat, capacity: nat)
    requires Inv(s)
    ensures Inv(Step(s, Open(id, pid, slotSize, capacity)))
  {
    var s' := Step(s, Open(id, pid, slotSize, capacity));
    assert forall jd :: Busy(s', jd) ==> Busy(s, jd) || (jd == id && !s.created);
  }

  lemma GiveUpInv(s: State, id: nat)
    requires Inv(s)
    ensures Inv(Step(s, GiveUp(id)))
  {
    assert forall jd :: Busy(Step(s, GiveUp(id)), jd) ==> Busy(s, jd);
  }

  lemma DieInv(s: State, pid: nat)
    requires Inv(s)
    ensures Inv(Step(s, Die(pid)))
  {
    assert forall jd :: Busy(Step(s, Die(pid)), jd) ==> Busy(s, jd);
  }

  lemma StepInv(s: State, a: Action)
    requires Inv(s)
    ensures Inv(Step(s, a))
  {
    hide Inv;
    match a
    case Open(id, pid, slotSize, capacity) => OpenInv(s, id, pid, slotSize, capacity);
    case Advance(id) =>
      if id in s.openers {
        AdvanceInv(s, id);
      }
    case GiveUp(id) => GiveUpInv(s, id);
    case Die(pid) => DieInv(s, pid);
  }

  lemma {:induction false} RunInv(actions: seq<Action>)
    ensures Inv(Run(actions))
    decreases |actions|
  {
    if actions != [] {
      RunInv(actions[..|actions| - 1]);
      StepInv(Run(actions[..|actions| - 1]), actions[|actions| - 1]);
    }
  }

  // ----- Theorems over every run -----

  lemma StepPublishes(s: State, a: Action)
    ensures s.published <= Step(s, a).published
  {}

  lemma {:induction false} RunPublishes(actions: seq<Action>, more: seq<Action>)
    ensures Run(actions).published <= Run(actions + more).published
    decreases |more|
  {
    hide Step;
    if more == [] {
      assert actions + more == actions;
    } else {
      var front := more[..|more| - 1];
      RunPublishes(actions, front);
      assert (actions + more)[..|actions + more| - 1] == actions + front;
      StepPublishes(Run(actions + front), more[|more| - 1]);
    }
  }

  /** Once a segment has been published, its version, slot size and capacity never change again,
      through any number of crashes and takeovers. */
  lemma LayoutNeverChanges(actions: seq<Action>, more: seq<Action>)
    ensures Run(actions).published != [] ==> LayoutOf(Run(actions + more).hdr) == LayoutOf(Run(actions).hdr)
  {
    RunInv(actions);
    RunInv(actions + more);
    RunPublishes(actions, more);
  }

  /** Each publication of the magic is claimed by at most one compare-and-swap winner, in order, and
      at most one opener is initialising at any time. */
  lemma ClaimedOnce(actions: seq<Action>, i: nat, j: nat, id: nat, jd: nat)
    ensures var s := Run(actions);
      && (i < j < |s.claims| ==> s.claims[i] < s.claims[j] <= |s.published|)
      && (Busy(s, id) && Busy(s, jd) ==> id == jd)
      && (Busy(s, id) ==> s.hdr.magic != MAGIC)
  {
    RunInv(actions);
  }

  /** Every opener that returned success agrees with the header on all three fields, then and ever after. */
  lemma AttachAgrees(actions: seq<Action>, id: nat)
    ensures var s := Run(actions);
      id in s.openers && (s.openers[id].stage.Attached? || s.openers[id].stage.Owning?) ==>
        LayoutOf(s.hdr) == Layout(VERSION, s.openers[id].slotSize, s.openers[id].capacity)
  {
    RunInv(actions);
    var s := Run(actions);
    assert id in s.openers ==> OpenerOk(s, s.openers[id]);
  }

  ghost predicate Abandoned(s: State)
  {
    s.created && s.hdr.magic == 0 && forall id :: !Busy(s, id)
  }

  lemma AbandonedStep(s: State, a: Action)
    requires Abandoned(s)
    ensures Abandoned(Step(s, a))
  {
    assert a.Advance? ==> !Busy(s, a.id);
    forall id
      ensures !Busy(Step(s, a), id)
    {
      assert !Busy(s, id);
    }
  }

  /** An abandoned segment stays so: the magic never comes back, so every later opener can only time out. */
  lemma {:induction false} AbandonedForever(actions: seq<Action>, more: seq<Action>)
    requires Abandoned(Run(actions))
    ensures Abandoned(Run(actions + more))
    decreases |more|
  {
    hide Step, Abandoned;
    if more == [] {
      assert actions + more == actions;
    } else {
      var front := more[..|more| - 1];
      AbandonedForever(actions, front);
      assert (actions + more)[..|actions + more| - 1] == actions + front;
      AbandonedStep(Run(actions + front), more[|more| - 1]);
    }
  }

  /** The process that dies is in the middle of an initialisation. */
  ghost predicate KillsInitialiser(s: State, a: Action)
  {
    a.Die? && exists id :: Busy(s, id) && s.openers[id].pid == a.pid
  }

  lemma AbandonedBy(s: State, a: Action)
    requires Inv(s) && !Abandoned(s)
    ensures Abandoned(Step(s, a)) <==> KillsInitialiser(s, a)
  {
    var s' := Step(s, a);
    if KillsInitialiser(s, a) {
      var id :| Busy(s, id) && s.openers[id].pid == a.pid;
      forall jd
        ensures !Busy(s', jd)
      {
        assert Busy(s', jd) ==> Busy(s, jd);
      }
    } else if s.created && s.hdr.magic == 0 {
      var id :| Busy(s, id);
      assert OpenerOk(s, s.openers[id]);
      assert Busy(s', id) || s'.hdr.magic == MAGIC;
    } else if a.Open? && !s.created {
      assert Busy(s', a.id);
    } else if a.Advance? {
      assert s'.hdr.magic == MAGIC || !s'.created || Busy(s', a.id);
    }
  }

  ghost predicate KilledAt(actions: seq<Action>, i: nat)
    requires i < |actions|
  {
    KillsInitialiser(Run(actions[..i]), actions[i])
  }

  /** At some point a process died between its claim, or the creation, and the publication. */
  ghost predicate KilledWithin(actions: seq<Action>)
  {
    exists i :: 0 <= i < |actions| && KilledAt(actions, i)
  }

  lemma KilledWithinStep(front: seq<Action>, a: Action)
    ensures KilledWithin(front + [a]) <==> KilledWithin(front) || KillsInitialiser(Run(front), a)
  {
    hide KillsInitialiser, Run;
    var all, n := front + [a], |front|;
    assert all[..n] == front && all[n] == a;
    forall i | 0 <= i < n
      ensures KilledAt(all, i) <==> KilledAt(front, i)
    {
      assert all[..i] == front[..i];
    }
    if KilledWithin(front) {
      var i :| 0 <= i < n && KilledAt(front, i);
      assert KilledAt(all, i);
    }
    if KillsInitialiser(Run(front), a) {
      assert KilledAt(all, n);
    }
  }

  /** Exactly then is a segment abandoned. */
  lemma {:induction false} AbandonedExactly(actions: seq<Action>)
    ensures Abandoned(Run(actions)) <==> KilledWithin(actions)
    decreases |actions|
  {
    hide Step, KillsInitialiser, Inv, KilledWithin;
    if actions == [] {
      NothingKilled();
    } else {
      hide Abandoned;
      var front, a := actions[..|actions| - 1], actions[|actions| - 1];
      AbandonedExactly(front);
      RunInv(front);
      assert actions == front + [a];
      KilledWithinStep(front, a);
      if Abandoned(Run(front)) {
        AbandonedStep(Run(front), a);
      } else {
        AbandonedBy(Run(front), a);
      }
    }
  }

  lemma CrashAbandons(actions: seq<Action>, id: nat)
    requires Busy(Run(actions), id)
    ensures Abandoned(Run(actions + [Die(Run(actions).openers[id].pid)]))
  {
    var a := Die(Run(actions).openers[id].pid);
    assert KillsInitialiser(Run(actions), a);
    hide Run, Step;
    KilledWithinStep(actions, a);
    AbandonedExactly(actions + [a]);
  }

  lemma NothingKilled()
    ensures !KilledWithin([]) && !Abandoned(Run([]))
  {}

  /** An initialiser is alive: a crash ends its call. */
  ghost predicate BusyAlive(s: State)
  {
    forall id :: Busy(s, id) ==> s.openers[id].pid in s.alive
  }

  lemma {:induction false} RunBusyAlive(actions: seq<Action>)
    ensures BusyAlive(Run(actions))
    decreases |actions|
  {
    hide Step;
    if actions != [] {
      RunBusyAlive(actions[..|actions| - 1]);
      BusyAliveStep(Run(actions[..|actions| - 1]), actions[|actions| - 1]);
    }
  }

  lemma BusyAliveStep(s: State, a: Action)
    requires BusyAlive(s)
    ensures BusyAlive(Step(s, a))
  {
    if a.Advance? && a.id in s.openers && s.openers[a.id].pid in s.alive {
      assert Step(s, a).openers[a.id].pid == s.openers[a.id].pid && Step(s, a).alive == s.alive;
    }
    forall id | Busy(Step(s, a), id)
      ensures Step(s, a).openers[id].pid in Step(s, a).alive
    {
      assert Busy(s, id) ==> s.openers[id].pid in s.alive;
    }
  }

  lemma AdvanceBusy(s: State, id: nat)
    requires Inv(s) && BusyAlive(s) && Busy(s, id)
    ensures s.openers[id].stage.done <= 6
    ensures var s', done := Step(s, Advance(id)), s.openers[id].stage.done;
      if done == 6 then s'.hdr.magic == MAGIC else Busy(s', id) && s'.openers[id].stage.done == done + 1
  {
    assert OpenerOk(s, s.openers[id]);
  }

  /** Left to run, an initialiser publishes. */
  lemma {:induction false} InitialiserFinishes(actions: seq<Action>, id: nat) returns (more: seq<Action>)
    requires Busy(Run(actions), id)
    ensures Run(actions + more).hdr.magic == MAGIC
    decreases 7 - Run(actions).openers[id].stage.done
  {
    hide Step, Run, Inv;
    RunInv(actions);
    RunBusyAlive(actions);
    var s := Run(actions);
    AdvanceBusy(s, id);
    RunSnoc(actions, Advance(id));
    if s.openers[id].stage.done == 6 {
      more := [Advance(id)];
    } else {
      more := InitialiserFinishes(actions + [Advance(id)], id);
      assert actions + [Advance(id)] + more == actions + ([Advance(id)] + more);
      more := [Advance(id)] + more;
    }
  }

  /** A created segment can be published again, so that someone can open it, exactly when it is not abandoned. */
  lemma RecoverableExactly(actions: seq<Action>)
    requires Run(actions).created
    ensures (exists more :: Run(actions + more).hdr.magic == MAGIC) <==> !Abandoned(Run(actions))
  {
    var s := Run(actions);
    RunInv(actions);
    if !Abandoned(s) {
      if s.hdr.magic == MAGIC {
        assert actions + [] == actions;
        assert Run(actions + []).hdr.magic == MAGIC;
      } else {
        var id :| Busy(s, id);
        var more := InitialiserFinishes(actions, id);
        assert Run(actions + more).hdr.magic == MAGIC;
      }
    }
    if more :| Abandoned(s) && Run(actions + more).hdr.magic == MAGIC {
      AbandonedForever(actions, more);
    }
  }

  /** "Dead-owner detection recovers a leaked segment" fails for a creator that dies before publishing. */
  lemma CreatorDiesEarly()
    ensures Abandoned(Run([Open(0, 10, 1408, 1024), Die(10)]))
  {
    var actions := [Open(0, 10, 1408, 1024), Die(10)];
    assert actions[..1] == [Open(0, 10, 1408, 1024)] && actions[..1][..0] == [];
    assert Busy(Run(actions[..1]), 0) && Run(actions[..1]).openers[0].pid == actions[1].pid;
    assert KilledAt(actions, 1);
    AbandonedExactly(actions);
  }

  // ----- What a call of `open` comes to -----

  /** Where a live poller that sees the magic stands after three uninterrupted steps of its own. */
  ghost function PollerOutcome(s: State, o: Opener): Opener
  {
    if LayoutOf(s.hdr) != Layout(VERSION, o.slotSize, o.capacity) then o.(stage := Refused)
    else if s.hdr.owner == o.pid || s.hdr.owner in s.alive then o.(stage := Attached)
    else o.(stage := Stealing, sampledAt := |s.published|, sampledOwner := s.hdr.owner)
  }

  /** It is refused exactly when the layout differs, attached exactly when the owner is itself or alive, and otherwise
      about to take the segment over; nothing else has changed. */
  lemma PollerOutcomeExactly(s: State, id: nat)
    requires id in s.openers && s.openers[id].stage.Polling? && s.openers[id].pid in s.alive && s.hdr.magic == MAGIC
    ensures Step(Step(Step(s, Advance(id)), Advance(id)), Advance(id)) == With(s, id, PollerOutcome(s, s.openers[id]))
  {
    var o := s.openers[id];
    var s1 := Step(s, Advance(id));
    assert s1 == With(s, id, o.(stage := SawMagic));
    var s2 := Step(s1, Advance(id));
    var compatible := LayoutOf(s.hdr) == Layout(VERSION, o.slotSize, o.capacity);
    assert s2 == With(s, id, o.(stage := if compatible then Compatible else Refused));
  }

  /** The next step of one about to take over claims the segment if the magic is still shown, and polls again if not. */
  lemma StealerOutcomeExactly(s: State, id: nat)
    requires id in s.openers && s.openers[id].stage.Stealing? && s.openers[id].pid in s.alive
    ensures var t := Step(s, Advance(id));
      && t.openers[id].stage == (if s.hdr.magic == MAGIC then Initializing(0) else Polling)
      && t.hdr.magic == (if s.hdr.magic == MAGIC then 0 else s.hdr.magic)
      && t.claims == (if s.hdr.magic == MAGIC then s.claims + [|s.published|] else s.claims)
  {}

  /** One that does not see the magic waits, until it gives up. */
  lemma WaiterOutcomeExactly(s: State, id: nat)
    requires id in s.openers && s.openers[id].stage.Polling?
    ensures s.hdr.magic != MAGIC ==> Step(s, Advance(id)) == s
    ensures Step(s, GiveUp(id)) == With(s, id, s.openers[id].(stage := Refused))
  {}

  /** The first call creates the segment; every later one polls. A published, live and compatible segment is attached
      to, for example one just created. */
  lemma SecondProcessAttaches() returns (actions: seq<Action>)
    ensures var openers := Run(actions).openers;
      0 in openers && openers[0].stage == Owning && 1 in openers && openers[1].stage == Attached
  {
    assert Run([]) == INITIAL && FreshPids([]) && forall pid :: !Died([], pid);
    hide Run, FreshPids;
    var o, second := Opener(10, 1408, 1024, Initializing(0), 0, 0), Opener(11, 1408, 1024, Polling, 0, 0);
    actions := After([], Open(0, 10, 1408, 1024), INITIAL.(created := true, alive := {10}, openers := map[0 := o]));
    actions := InitialiserPublishes(actions, 0);
    var s := Run(actions);
    actions := After(actions, Open(1, 11, 1408, 1024), With(s.(alive := s.alive + {11}), 1, second));
    PollerOutcomeExactly(Run(actions), 1);
    var before := Run(actions);
    actions := After(actions, Advance(1), Step(before, Advance(1)));
    actions := After(actions, Advance(1), Step(Step(before, Advance(1)), Advance(1)));
    actions := After(actions, Advance(1), Step(Step(Step(before, Advance(1)), Advance(1)), Advance(1)));
  }

  // ----- When a takeover displaces a live owner -----

  /** The next step of `id` wins the compare-and-swap. */
  ghost predicate Claims(s: State, id: nat)
  {
    id in s.openers && s.openers[id].stage.Stealing? && s.openers[id].pid in s.alive && s.hdr.magic == MAGIC
  }

  ghost predicate Died(actions: seq<Action>, pid: nat)
  {
    Die(pid) in actions
  }

  /** No process starts under the pid of one that has died. */
  ghost predicate FreshPids(actions: seq<Action>)
    decreases |actions|
  {
    actions == [] || (
      var front, last := actions[..|actions| - 1], actions[|actions| - 1];
      FreshPids(front) && (last.Open? ==> !Died(front, last.pid)))
  }

  /** Every opener and every published owner was started; it is alive until it dies. */
  ghost predicate PidsKnown(s: State, actions: seq<Action>)
  {
    && (forall pid :: pid in s.alive ==> !Died(actions, pid))
    && (forall id :: id in s.openers ==> s.openers[id].pid in s.alive || Died(actions, s.openers[id].pid))
    && (s.published != [] ==> s.hdr.owner in s.alive || Died(actions, s.hdr.owner))
  }

  /** An opener about to claim sampled an owner that had died, and the published owner is still that one exactly as
      long as nobody has published since. */
  ghost predicate SamplesOk(s: State, actions: seq<Action>)
  {
    forall id :: id in s.openers && s.openers[id].stage.Stealing? ==> SampleOk(s, s.openers[id], actions)
  }

  ghost predicate SampleOk(s: State, o: Opener, actions: seq<Action>)
  {
    && o.sampledAt <= |s.published| && Died(actions, o.sampledOwner)
    && (s.hdr.magic == MAGIC ==> (s.hdr.owner == o.sampledOwner <==> o.sampledAt == |s.published|))
  }

  lemma SampleStep(s: State, a: Action, front: seq<Action>)
    requires Inv(s) && PidsKnown(s, front) && SamplesOk(s, front)
    requires a.Open? ==> !Died(front, a.pid)
    ensures SamplesOk(Step(s, a), front + [a])
  {
    var s' := Step(s, a);
    assert forall pid :: Died(front, pid) ==> Died(front + [a], pid);
    assert a.Advance? && a.id in s.openers ==> OpenerOk(s, s.openers[a.id]);
    assert a.Advance? && Busy(s, a.id) ==> s.hdr.magic == 0 && FirstInitOk(s, s.openers[a.id]);
    forall id | id in s'.openers && s'.openers[id].stage.Stealing?
      ensures SampleOk(s', s'.openers[id], front + [a])
    {
      if id in s.openers && s.openers[id].stage.Stealing? {
        assert SampleOk(s, s.openers[id], front);
      }
    }
  }

  lemma PidsStep(s: State, a: Action, front: seq<Action>)
    requires Inv(s) && PidsKnown(s, front)
    requires a.Open? ==> !Died(front, a.pid)
    ensures PidsKnown(Step(s, a), front + [a])
  {
    assert forall pid :: Died(front + [a], pid) <==> Died(front, pid) || a == Die(pid);
    assert a.Die? ==> Died(front + [a], a.pid);
    if a.Advance? && Busy(s, a.id) {
      assert FirstInitOk(s, s.openers[a.id]);
      assert OpenerOk(s, s.openers[a.id]);
    }
  }

  lemma {:induction false} RunSamples(actions: seq<Action>)
    requires FreshPids(actions)
    ensures PidsKnown(Run(actions), actions) && SamplesOk(Run(actions), actions)
    decreases |actions|
  {
    if actions != [] {
      var front, last := actions[..|actions| - 1], actions[|actions| - 1];
      RunSamples(front);
      RunInv(front);
      SampleStep(Run(front), last, front);
      PidsStep(Run(front), last, front);
      assert actions == front + [last];
    }
  }

  /** With no pid reuse, a winning claim takes the segment from the owner this opener found dead exactly when nobody
      has published between its look and its compare-and-swap. */
  lemma ClaimsDeadOwnerExactly(actions: seq<Action>, id: nat)
    ensures var s := Run(actions);
      FreshPids(actions) && Claims(s, id) ==>
        && s.openers[id].sampledAt <= |s.published| && s.openers[id].sampledOwner !in s.alive
        && (s.hdr.owner == s.openers[id].sampledOwner <==> s.openers[id].sampledAt == |s.published|)
  {
    if FreshPids(actions) {
      RunSamples(actions);
      var s := Run(actions);
      assert Claims(s, id) ==> SampleOk(s, s.openers[id], actions);
    }
  }

  /** Hence a live owner is displaced only after such a publication. */
  lemma DisplacesOnlyAfterRepublication(actions: seq<Action>, id: nat)
    ensures var s := Run(actions);
      FreshPids(actions) && Claims(s, id) && s.hdr.owner in s.alive ==> s.openers[id].sampledAt < |s.published|
  {
    ClaimsDeadOwnerExactly(actions, id);
  }

  lemma RunSnoc(actions: seq<Action>, a: Action)
    ensures Run(actions + [a]) == Step(Run(actions), a)
    ensures FreshPids(actions + [a]) <==> FreshPids(actions) && (a.Open? ==> !Died(actions, a.pid))
  {}

  /** Seven steps of a live initialiser publish the segment as its own. */
  lemma InitialiserPublishes(actions: seq<Action>, id: nat) returns (after: seq<Action>)
    requires Busy(Run(actions), id) && Run(actions).openers[id].stage.done == 0
    requires Run(actions).openers[id].pid in Run(actions).alive
    ensures FreshPids(after) <==> FreshPids(actions)
    ensures forall pid :: Died(after, pid) <==> Died(actions, pid)
    ensures var s, o := Run(actions), Run(actions).openers[id];
      Run(after) == State(s.created, Header(MAGIC, VERSION, o.slotSize, o.capacity, 0, 0, o.pid),
                          s.openers[id := o.(stage := Owning)], s.alive,
                          s.published + [Layout(VERSION, o.slotSize, o.capacity)], s.claims)
  {
    ghost var s, o := Run(actions), Run(actions).openers[id];
    after := actions;
    for k := 0 to 7
      invariant FreshPids(after) <==> FreshPids(actions)
      invariant forall pid :: Died(after, pid) <==> Died(actions, pid)
      invariant k < 7 ==> Run(after) == State(s.created,
        Header(s.hdr.magic, if k > 0 then VERSION else s.hdr.version, if k > 1 then o.slotSize else s.hdr.slotSize,
               if k > 2 then o.capacity else s.hdr.capacity, if k > 3 then 0 else s.hdr.head,
               if k > 4 then 0 else s.hdr.tail, if k > 5 then o.pid else s.hdr.owner),
        s.openers[id := o.(stage := Initializing(k))], s.alive, s.published, s.claims)
      invariant k == 7 ==> Run(after) == State(s.created,
        Header(MAGIC, VERSION, o.slotSize, o.capacity, 0, 0, o.pid),
        s.openers[id := o.(stage := Owning)], s.alive,
        s.published + [Layout(VERSION, o.slotSize, o.capacity)], s.claims)
    {
      RunSnoc(after, Advance(id));
      after := after + [Advance(id)];
    }
  }

  lemma After(actions: seq<Action>, a: Action, s: State) returns (longer: seq<Action>)
    requires FreshPids(actions) && (a.Open? ==> !Died(actions, a.pid))
    requires Step(Run(actions), a) == s
    ensures FreshPids(longer) && Run(longer) == s
    ensures forall pid :: Died(longer, pid) <==> Died(actions, pid) || a == Die(pid)
  {
    RunSnoc(actions, a);
    longer := actions + [a];
  }

  const CRASHED_HEADER := Header(MAGIC, VERSION, 1408, 1024, 0, 0, 10)
  const GONE := Opener(10, 1408, 1024, Crashed, 0, 0)

  /** A creator publishes and dies; two more processes then open the segment. */
  lemma CreatorCrashes() returns (actions: seq<Action>)
    ensures FreshPids(actions)
    ensures Run(actions) == State(true, CRASHED_HEADER,
      map[0 := GONE, 1 := Opener(11, 1408, 1024, Polling, 0, 0), 2 := Opener(12, 1408, 1024, Polling, 0, 0)],
      {11, 12}, [Layout(VERSION, 1408, 1024)], [])
  {
    var b, c := Opener(11, 1408, 1024, Polling, 0, 0), Opener(12, 1408, 1024, Polling, 0, 0);
    var layout := Layout(VERSION, 1408, 1024);
    var start := INITIAL.(created := true, alive := {10},
                          openers := map[0 := Opener(10, 1408, 1024, Initializing(0), 0, 0)]);
    assert Run([]) == INITIAL && FreshPids([]) && forall pid :: !Died([], pid);
    hide Run, FreshPids;
    actions := After([], Open(0, 10, 1408, 1024), start);
    actions := InitialiserPublishes(actions, 0);
    var owning := Opener(10, 1408, 1024, Owning, 0, 0);
    assert Run(actions) == State(true, CRASHED_HEADER, map[0 := owning], {10}, [layout], []);
    actions := After(actions, Die(10), State(true, CRASHED_HEADER, map[0 := GONE], {}, [layout], []));
    actions := After(actions, Open(1, 11, 1408, 1024),
      State(true, CRASHED_HEADER, map[0 := GONE, 1 := b], {11}, [layout], []));
    actions := After(actions, Open(2, 12, 1408, 1024),
      State(true, CRASHED_HEADER, map[0 := GONE, 1 := b, 2 := c], {11, 12}, [layout], []));
  }

  /** "A live owner is never displaced" is false: two openers see the same dead owner, the first takes
      the segment over and publishes, and the second still wins its compare-and-swap. */
  lemma LiveOwnerDisplaced() returns (actions: seq<Action>)
    ensures FreshPids(actions) && Claims(Run(actions), 2)
    ensures Run(actions).hdr.owner == 11 && 11 in Run(actions).alive
  {
    hide Run, FreshPids;
    actions := CreatorCrashes();
    actions := SeesDeadOwner(actions, 1);
    actions := SeesDeadOwner(actions, 2);
    var s := Run(actions);
    var claimed := s.(hdr := CRASHED_HEADER.(magic := 0), claims := [1],
                      openers := s.openers[1 := Opener(11, 1408, 1024, Initializing(0), 1, 10)]);
    actions := After(actions, Advance(1), claimed);
    actions := InitialiserPublishes(actions, 1);
  }

  /** Three steps take a live poller of a compatible segment with a dead owner to the claim. */
  lemma SeesDeadOwner(actions: seq<Action>, id: nat) returns (after: seq<Action>)
    requires FreshPids(actions) && id in Run(actions).openers
    requires var s, o := Run(actions), Run(actions).openers[id];
      && o.stage.Polling? && o.pid in s.alive && s.hdr.magic == MAGIC && s.hdr.owner != o.pid
      && s.hdr.owner !in s.alive && LayoutOf(s.hdr) == Layout(VERSION, o.slotSize, o.capacity)
    ensures FreshPids(after) && forall pid :: Died(after, pid) <==> Died(actions, pid)
    ensures var s, o := Run(actions), Run(actions).openers[id];
      Run(after) == s.(openers := s.openers[
        id := o.(stage := Stealing, sampledAt := |s.published|, sampledOwner := s.hdr.owner)])
  {
    var s, o := Run(actions), Run(actions).openers[id];
    after := After(actions, Advance(id), s.(openers := s.openers[id := o.(stage := SawMagic)]));
    after := After(after, Advance(id), s.(openers := s.openers[id := o.(stage := Compatible)]));
    after := After(after, Advance(id),
      s.(openers := s.openers[id := o.(stage := Stealing, sampledAt := |s.published|, sampledOwner := s.hdr.owner)]));
  }
}
