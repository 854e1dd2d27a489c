/** The shared-memory single-producer single-consumer ring. The memory is a flat byte array, both
    sides run one atomic step at a time in any order, and the copies in and out of a slot are
    byte by byte. Loads and stores are sequentially consistent. */
module ShmRing {
  import opened Wire
  import opened Slots

  datatype Message = Message(seqNum: u32, payload: Bytes)

  /** The bytes of a slot: sequence number, length, payload. */
  function Record(m: Message): (r: Bytes)
    requires |m.payload| < 0x1_0000_0000
    ensures |r| == 8 + |m.payload|
  {
    Le32(m.seqNum) + Le32(|m.payload|) + m.payload
  }

  lemma RecordReads(m: Message)
    requires |m.payload| < 0x1_0000_0000
    ensures U32At(Record(m), 0) == m.seqNum
    ensures U32At(Record(m), 4) == |m.payload|
    ensures Record(m)[8..] == m.payload
  {}

  /** Where each field of a slot stands. */
  lemma RecordLayout(m: Message)
    requires |m.payload| < 0x1_0000_0000
    ensures Record(m)[0..4] == Le32(m.seqNum) && Record(m)[4..8] == Le32(|m.payload|) && Record(m)[8..] == m.payload
  {
    hide Le32;
  }

  // ----- Index arithmetic -----

  /** What `(i + 1) % capacity` is for an index in range. */
  lemma NextIndex(i: nat, capacity: nat)
    requires i < capacity
    ensures (i + 1) % capacity == if i + 1 == capacity then 0 else i + 1
  {}

  /** The slot `d` places after `i`. */
  function Ahead(i: nat, d: nat, capacity: nat): (j: nat)
    requires i < capacity && d <= capacity
    ensures j < capacity
  {
    if i + d < capacity then i + d else i + d - capacity
  }

  // ----- The memory as slots -----

  lemma WriteSlotByte(mem: Bytes, i: nat, k: nat, b: byte, capacity: nat, size: nat)
    requires i < capacity && k < size && |mem| == capacity * size
    ensures i * size + k < |mem|
    ensures Slot(mem[i * size + k := b], i, capacity, size) == Slot(mem, i, capacity, size)[k := b]
    ensures forall j: nat :: j < capacity && j != i ==>
              Slot(mem[i * size + k := b], j, capacity, size) == Slot(mem, j, capacity, size)
  {
    SlotFits(i, capacity, size);
    UpdateInside(mem, i * size, size, k, b);
    hide Slot;
    var mem' := mem[i * size + k := b];
    forall j: nat | j < capacity && j != i
      ensures Slot(mem', j, capacity, size) == Slot(mem, j, capacity, size)
    {
      KeepsOtherSlot(mem, i * size + k, b, j, capacity, size, i, k);
    }
  }

  lemma KeepsOtherSlot(mem: Bytes, at: nat, b: byte, j: nat, capacity: nat, size: nat, i: nat, k: nat)
    requires |mem| == capacity * size && at < |mem| && at == i * size + k && k < size && j < capacity && j != i
    ensures Slot(mem[at := b], j, capacity, size) == Slot(mem, j, capacity, size)
  {
    SlotFits(j, capacity, size);
    SlotsDisjoint(i, j, k, size);
    var lo := j * size;
    UpdateOutside(mem, at, b, lo, lo + size);
  }

  lemma UpdateInside(mem: Bytes, lo: nat, size: nat, k: nat, b: byte)
    requires lo + size <= |mem| && k < size
    ensures mem[lo + k := b][lo..lo + size] == mem[lo..lo + size][k := b]
  {}

  lemma UpdateOutside(mem: Bytes, at: nat, b: byte, lo: nat, hi: nat)
    requires at < |mem| && lo <= hi <= |mem| && !(lo <= at < hi)
    ensures mem[at := b][lo..hi] == mem[lo..hi]
  {}

  // ----- What the ring holds -----

  datatype Shared = Shared(capacity: nat, slotSize: nat, head: nat, tail: nat, mem: Bytes)

  ghost predicate Fits(m: Message, slotSize: nat)
  {
    |m.payload| < 0x1_0000_0000 && 8 + |m.payload| <= slotSize
  }

  ghost predicate WellFormed(sh: Shared)
  {
    && 1 <= sh.capacity && 8 <= sh.slotSize
    && sh.head < sh.capacity && sh.tail < sh.capacity
    && |sh.mem| == sh.capacity * sh.slotSize
  }

  /** Slot `i` starts with the bytes of `m`. */
  ghost predicate SlotHolds(sh: Shared, i: nat, m: Message)
    requires WellFormed(sh) && i < sh.capacity
  {
    Fits(m, sh.slotSize) && Record(m) <= Slot(sh.mem, i, sh.capacity, sh.slotSize)
  }

  /** The ring holds exactly the messages of `queue`, oldest at `head`. */
  ghost predicate Holds(sh: Shared, queue: seq<Message>)
  {
    && WellFormed(sh)
    && |queue| < sh.capacity
    && sh.tail == Ahead(sh.head, |queue|, sh.capacity)
    && forall n: nat :: n < |queue| ==> SlotHolds(sh, Ahead(sh.head, n, sh.capacity), queue[n])
  }

  // ----- The two processes -----

  datatype Producer =
    | PIdle
    | PTailLoaded(msg: Message, tail: nat)
    | PWriting(msg: Message, tail: nat, written: nat)

  datatype Consumer =
    | CIdle
    | CHeadLoaded(head: nat)
    | CReading(head: nat, got: Bytes)

  /** `pushed` grows when a push stores `tail`, `popped` when a pop stores `head`. */
  datatype State = State(shared: Shared, producer: Producer, consumer: Consumer,
                         pushed: seq<Message>, popped: seq<Message>)

  datatype Action =
    | BeginPush(msg: Message)
    | ProducerStep
    | ConsumerStep

  function Initial(capacity: nat, slotSize: nat): State
  {
    State(Shared(capacity, slotSize, 0, 0, seq(capacity * slotSize, _ => 0)), PIdle, CIdle, [], [])
  }

  /** A load from the mapping; out of range stands for memory outside it. */
  function Load(mem: Bytes, at: nat): byte
  {
    if at < |mem| then mem[at] else 0
  }

  function Store(mem: Bytes, at: nat, b: byte): Bytes
  {
    if at < |mem| then mem[at := b] else mem
  }

  /** The number of bytes the consumer copies out: the header first, then as many as the header says. */
  function Wanted(got: Bytes): nat
  {
    if |got| < 8 then 8 else 8 + U32At(got, 4)
  }

  function StepProducer(s: State): State
  {
    var sh := s.shared;
    match s.producer
    case PIdle => s
    case PTailLoaded(msg, tail) =>
      if sh.capacity > 0 && (tail + 1) % sh.capacity == sh.head then s.(producer := PIdle)
      else s.(producer := PWriting(msg, tail, 0))
    case PWriting(msg, tail, k) =>
      if |msg.payload| < 0x1_0000_0000 && k < |Record(msg)| then
        s.(shared := sh.(mem := Store(sh.mem, tail * sh.slotSize + k, Record(msg)[k])),
           producer := PWriting(msg, tail, k + 1))
      else
        s.(shared := sh.(tail := if sh.capacity > 0 then (tail + 1) % sh.capacity else 0),
           producer := PIdle, pushed := s.pushed + [msg])
  }

  function StepConsumer(s: State): State
  {
    var sh := s.shared;
    match s.consumer
    case CIdle => s.(consumer := CHeadLoaded(sh.head))
    case CHeadLoaded(head) =>
      if head == sh.tail then s.(consumer := CIdle) else s.(consumer := CReading(head, []))
    case CReading(head, got) =>
      if |got| < Wanted(got) then
        s.(consumer := CReading(head, got + [Load(sh.mem, head * sh.slotSize + |got|)]))
      else
        s.(shared := sh.(head := if sh.capacity > 0 then (head + 1) % sh.capacity else 0),
           consumer := CIdle, popped := s.popped + [Message(U32At(got, 0), got[8..])])
  }

  /** One atomic step. A push of a message longer than a slot returns before touching the ring. */
  function Step(s: State, a: Action): State
  {
    match a
    case BeginPush(msg) =>
      if s.producer.PIdle? && |msg.payload| + 8 <= s.shared.slotSize && |msg.payload| < 0x1_0000_0000
      then s.(producer := PTailLoaded(msg, s.shared.tail))
      else s
    case ProducerStep => StepProducer(s)
    case ConsumerStep => StepConsumer(s)
  }

  function Run(s: State, actions: seq<Action>): State
    decreases |actions|
  {
    if actions == [] then s else Step(Run(s, actions[..|actions| - 1]), actions[|actions| - 1])
  }

  // ----- The invariant -----

  /** The messages pushed and not yet popped. */
  ghost function Queue(s: State): seq<Message>
    requires |s.popped| <= |s.pushed|
  {
    s.pushed[|s.popped|..]
  }

  ghost predicate ProducerOk(s: State)
    requires |s.popped| <= |s.pushed| && WellFormed(s.shared)
  {
    var sh := s.shared;
    match s.producer
    case PIdle => true
    case PTailLoaded(msg, tail) => tail == sh.tail && Fits(msg, sh.slotSize)
    case PWriting(msg, tail, k) =>
      && tail == sh.tail && Fits(msg, sh.slotSize)
      && |Queue(s)| + 1 < sh.capacity
      && k <= |Record(msg)|
      && Record(msg)[..k] <= Slot(sh.mem, tail, sh.capacity, sh.slotSize)
  }

  ghost predicate ConsumerOk(s: State)
    requires |s.popped| <= |s.pushed|
  {
    match s.consumer
    case CIdle => true
    case CHeadLoaded(head) => head == s.shared.head
    case CReading(head, got) =>
      && head == s.shared.head && Queue(s) != []
      && |Queue(s)[0].payload| < 0x1_0000_0000
      && got <= Record(Queue(s)[0])
  }

  ghost predicate Inv(s: State)
  {
    && |s.popped| <= |s.pushed|
    && s.popped == s.pushed[..|s.popped|]
    && Holds(s.shared, Queue(s))
    && ProducerOk(s)
    && ConsumerOk(s)
  }

  lemma InitialInv(capacity: nat, slotSize: nat)
    requires 1 <= capacity && 8 <= slotSize
    ensures Inv(Initial(capacity, slotSize))
  {}

  // ----- Producer steps -----

  lemma FullExactly(sh: Shared, queue: seq<Message>)
    requires Holds(sh, queue)
    ensures (sh.tail + 1) % sh.capacity == sh.head <==> |queue| == sh.capacity - 1
  {
    NextIndex(sh.tail, sh.capacity);
  }

  lemma EmptyExactly(sh: Shared, queue: seq<Message>)
    requires Holds(sh, queue)
    ensures sh.head == sh.tail <==> queue == []
  {}

  /** Writing a byte of the slot at `tail` leaves every message in the ring intact. */
  lemma WriteKeepsQueue(sh: Shared, queue: seq<Message>, k: nat, b: byte)
    requires Holds(sh, queue) && k < sh.slotSize
    ensures sh.tail * sh.slotSize + k < |sh.mem|
    ensures Holds(sh.(mem := sh.mem[sh.tail * sh.slotSize + k := b]), queue)
  {
    hide Slot, Record;
    WriteSlotByte(sh.mem, sh.tail, k, b, sh.capacity, sh.slotSize);
    var sh' := sh.(mem := sh.mem[sh.tail * sh.slotSize + k := b]);
    forall n: nat | n < |queue|
      ensures SlotHolds(sh', Ahead(sh.head, n, sh.capacity), queue[n])
    {
      assert SlotHolds(sh, Ahead(sh.head, n, sh.capacity), queue[n]);
      assert Ahead(sh.head, n, sh.capacity) != sh.tail;
    }
  }

  lemma ProducerWritesInv(s: State)
    requires Inv(s) && s.producer.PWriting? && s.producer.written < |Record(s.producer.msg)|
    ensures Inv(StepProducer(s))
  {
    hide Slot;
    var sh, queue := s.shared, Queue(s);
    var PWriting(msg, tail, k) := s.producer;
    WriteKeepsQueue(sh, queue, k, Record(msg)[k]);
    WriteSlotByte(sh.mem, tail, k, Record(msg)[k], sh.capacity, sh.slotSize);
    var slot := Slot(sh.mem, tail, sh.capacity, sh.slotSize);
    assert slot[k := Record(msg)[k]][..k + 1] == Record(msg)[..k + 1];
  }

  lemma ProducerPublishesInv(s: State)
    requires Inv(s) && s.producer.PWriting? && s.producer.written == |Record(s.producer.msg)|
    ensures Inv(StepProducer(s))
  {
    hide Slot, Record;
    var PWriting(msg, tail, k) := s.producer;
    PublishKeepsQueue(s.shared, Queue(s), msg);
    assert StepProducer(s).pushed[|s.popped|..] == Queue(s) + [msg];
    assert StepProducer(s).pushed[..|s.popped|] == s.popped;
    NextIndex(tail, s.shared.capacity);
  }

  lemma ProducerStepInv(s: State)
    requires Inv(s)
    ensures Inv(StepProducer(s))
  {
    match s.producer
    case PIdle =>
    case PTailLoaded(msg, tail) =>
      FullExactly(s.shared, Queue(s));
    case PWriting(msg, tail, k) =>
      if k < |Record(msg)| {
        ProducerWritesInv(s);
      } else {
        ProducerPublishesInv(s);
      }
  }

  lemma PublishKeepsQueue(sh: Shared, queue: seq<Message>, msg: Message)
    requires Holds(sh, queue) && |queue| + 1 < sh.capacity && SlotHolds(sh, sh.tail, msg)
    ensures Holds(sh.(tail := (sh.tail + 1) % sh.capacity), queue + [msg])
  {
    NextIndex(sh.tail, sh.capacity);
  }

  // ----- Consumer steps -----

  lemma WantedIs(got: Bytes, m: Message)
    requires |m.payload| < 0x1_0000_0000 && got <= Record(m)
    ensures Wanted(got) <= |Record(m)|
    ensures |got| >= Wanted(got) <==> got == Record(m)
  {}

  lemma ReleaseKeepsQueue(sh: Shared, queue: seq<Message>)
    requires Holds(sh, queue) && queue != []
    ensures Holds(sh.(head := (sh.head + 1) % sh.capacity), queue[1..])
  {
    NextIndex(sh.head, sh.capacity);
    var sh' := sh.(head := (sh.head + 1) % sh.capacity);
    forall n: nat | n < |queue[1..]|
      ensures SlotHolds(sh', Ahead(sh'.head, n, sh.capacity), queue[1..][n])
    {
      assert Ahead(sh'.head, n, sh.capacity) == Ahead(sh.head, n + 1, sh.capacity);
      assert SlotHolds(sh, Ahead(sh.head, n + 1, sh.capacity), queue[n + 1]);
    }
  }

  lemma LoadsSlot(mem: Bytes, i: nat, k: nat, capacity: nat, size: nat)
    requires i < capacity && k < size && |mem| == capacity * size
    ensures i * size + k < |mem|
    ensures Load(mem, i * size + k) == Slot(mem, i, capacity, size)[k]
  {
    SlotFits(i, capacity, size);
  }

  /** In place, the slot at `head` reads as the oldest message. */
  lemma HeadSlotReads(sh: Shared, queue: seq<Message>, k: nat)
    requires Holds(sh, queue) && queue != []
    ensures Fits(queue[0], sh.slotSize)
    ensures k < |Record(queue[0])| ==>
              && sh.head * sh.slotSize + k < |sh.mem|
              && Load(sh.mem, sh.head * sh.slotSize + k) == Record(queue[0])[k]
  {
    hide Slot, Record, Load;
    assert SlotHolds(sh, Ahead(sh.head, 0, sh.capacity), queue[0]);
    if k < |Record(queue[0])| {
      LoadsSlot(sh.mem, sh.head, k, sh.capacity, sh.slotSize);
    }
  }

  lemma ConsumerReadsInv(s: State)
    requires Inv(s) && s.consumer.CReading? && |s.consumer.got| < Wanted(s.consumer.got)
    ensures Inv(StepConsumer(s))
  {
    hide Holds, Record;
    var got, m := s.consumer.got, Queue(s)[0];
    WantedIs(got, m);
    HeadSlotReads(s.shared, Queue(s), |got|);
    assert got + [Record(m)[|got|]] <= Record(m);
  }

  lemma ConsumerReleasesInv(s: State)
    requires Inv(s) && s.consumer.CReading? && |s.consumer.got| >= Wanted(s.consumer.got)
    ensures Inv(StepConsumer(s))
  {
    hide Holds, Record;
    var got, m := s.consumer.got, Queue(s)[0];
    WantedIs(got, m);
    RecordReads(m);
    HeadInRange(s.shared, Queue(s));
    ReleaseKeepsQueue(s.shared, Queue(s));
    PopIsNext(s, m);
  }

  lemma QueueBound(sh: Shared, queue: seq<Message>)
    requires Holds(sh, queue)
    ensures |queue| <= sh.capacity - 1
  {}

  lemma HeadInRange(sh: Shared, queue: seq<Message>)
    requires Holds(sh, queue)
    ensures WellFormed(sh)
  {}

  lemma ConsumerStepInv(s: State)
    requires Inv(s)
    ensures Inv(StepConsumer(s))
  {
    match s.consumer
    case CIdle =>
    case CHeadLoaded(head) =>
      EmptyExactly(s.shared, Queue(s));
      if Queue(s) != [] {
        HeadSlotReads(s.shared, Queue(s), 0);
      }
    case CReading(head, got) =>
      if |got| < Wanted(got) {
        ConsumerReadsInv(s);
      } else {
        ConsumerReleasesInv(s);
      }
  }

  lemma PopIsNext(s: State, m: Message)
    requires |s.popped| < |s.pushed| && s.popped == s.pushed[..|s.popped|] && m == s.pushed[|s.popped|]
    ensures s.popped + [m] == s.pushed[..|s.popped| + 1]
    ensures s.pushed[|s.popped| + 1..] == s.pushed[|s.popped|..][1..]
  {}

  lemma StepInv(s: State, a: Action)
    requires Inv(s)
    ensures Inv(Step(s, a))
  {
    match a
    case BeginPush(msg) =>
    case ProducerStep => ProducerStepInv(s);
    case ConsumerStep => ConsumerStepInv(s);
  }

  // ----- Theorems over every interleaving -----

  lemma {:induction false} RunInv(capacity: nat, slotSize: nat, actions: seq<Action>)
    requires 1 <= capacity && 8 <= slotSize
    ensures Inv(Run(Initial(capacity, slotSize), actions))
    decreases |actions|
  {
    if actions == [] {
      InitialInv(capacity, slotSize);
    } else {
      RunInv(capacity, slotSize, actions[..|actions| - 1]);
      StepInv(Run(Initial(capacity, slotSize), actions[..|actions| - 1]), actions[|actions| - 1]);
    }
  }

  // ----- The ring is a bounded queue -----

  /** Where a push or a pop stands, and how many bytes it still has to copy. */
  datatype Phase = Off | Asked(msg: Message) | Copying(msg: Message, left: nat)

  /** A bounded queue with no memory, no indices and no bytes: what was put in, what was taken out, and two callers. */
  datatype Spec = Spec(capacity: nat, slotSize: nat, pushed: seq<Message>, popped: seq<Message>, putting: Phase,
                       taking: Phase)

  const NOTHING := Message(0, [])

  function Asks(q: Spec, m: Message): Spec
  {
    if q.putting.Off? && |m.payload| + 8 <= q.slotSize && |m.payload| < 0x1_0000_0000 then q.(putting := Asked(m))
    else q
  }

  /** A put is answered "full" at capacity - 1; otherwise it copies header and payload, and then the message is in. */
  function Puts(q: Spec): Spec
  {
    match q.putting
    case Off => q
    case Asked(m) =>
      if |q.pushed| - |q.popped| == q.capacity - 1 then q.(putting := Off)
      else q.(putting := Copying(m, 8 + |m.payload|))
    case Copying(m, left) =>
      if left > 0 then q.(putting := Copying(m, left - 1)) else q.(putting := Off, pushed := q.pushed + [m])
  }

  /** A take is answered "empty" when everything has been taken; otherwise it copies the oldest message out. */
  function Takes(q: Spec): Spec
  {
    match q.taking
    case Off => q.(taking := Asked(NOTHING))
    case Asked(_) =>
      if |q.popped| >= |q.pushed| then q.(taking := Off)
      else var m := q.pushed[|q.popped|]; q.(taking := Copying(m, 8 + |m.payload|))
    case Copying(m, left) =>
      if left > 0 then q.(taking := Copying(m, left - 1)) else q.(taking := Off, popped := q.popped + [m])
  }

  function SpecStep(q: Spec, a: Action): Spec
  {
    match a
    case BeginPush(m) => Asks(q, m)
    case ProducerStep => Puts(q)
    case ConsumerStep => Takes(q)
  }

  function SpecRun(q: Spec, actions: seq<Action>): Spec
    decreases |actions|
  {
    if actions == [] then q else SpecStep(SpecRun(q, actions[..|actions| - 1]), actions[|actions| - 1])
  }

  /** The ring as such a queue. */
  ghost function Abstract(s: State): Spec
    requires Inv(s)
  {
    var putting := match s.producer
      case PIdle => Off
      case PTailLoaded(m, _) => Asked(m)
      case PWriting(m, _, k) => Copying(m, 8 + |m.payload| - k);
    var taking := match s.consumer
      case CIdle => Off
      case CHeadLoaded(_) => Asked(NOTHING)
      case CReading(_, got) => var m := Queue(s)[0]; Copying(m, 8 + |m.payload| - |got|);
    Spec(s.shared.capacity, s.shared.slotSize, s.pushed, s.popped, putting, taking)
  }

  lemma RefinesPut(s: State)
    requires Inv(s)
    ensures Inv(StepProducer(s)) && Abstract(StepProducer(s)) == Puts(Abstract(s))
  {
    hide Slot, Holds, Record, Store, WellFormed;
    ProducerStepInv(s);
    FullExactly(s.shared, Queue(s));
    HeadInRange(s.shared, Queue(s));
    CapacityPositive(s.shared);
    if s.consumer.CReading? {
      assert Queue(StepProducer(s))[0] == Queue(s)[0];
    }
  }

  lemma CapacityPositive(sh: Shared)
    requires WellFormed(sh)
    ensures sh.capacity > 0
  {}

  lemma RefinesTake(s: State)
    requires Inv(s)
    ensures Inv(StepConsumer(s)) && Abstract(StepConsumer(s)) == Takes(Abstract(s))
  {
    hide Slot, Holds;
    ConsumerStepInv(s);
    EmptyExactly(s.shared, Queue(s));
    if s.consumer.CReading? {
      WantedIs(s.consumer.got, Queue(s)[0]);
      RecordReads(Queue(s)[0]);
    }
  }

  lemma RefinesStep(s: State, a: Action)
    requires Inv(s)
    ensures Inv(Step(s, a)) && Abstract(Step(s, a)) == SpecStep(Abstract(s), a)
  {
    match a
    case BeginPush(m) => StepInv(s, a);
    case ProducerStep => RefinesPut(s);
    case ConsumerStep => RefinesTake(s);
  }

  lemma {:induction false} RefinesFrom(s: State, actions: seq<Action>)
    requires Inv(s)
    ensures Inv(Run(s, actions)) && Abstract(Run(s, actions)) == SpecRun(Abstract(s), actions)
    decreases |actions|
  {
    hide Inv, Step, SpecStep, Abstract;
    if actions != [] {
      RefinesFrom(s, actions[..|actions| - 1]);
      RefinesStep(Run(s, actions[..|actions| - 1]), actions[|actions| - 1]);
    }
  }

  /** Under every interleaving the ring does, step by step, what the bounded queue does with the same actions: every
      message accepted, every answer "full" or "empty" and every completed push and pop can be read off them. */
  lemma RefinesQueue(capacity: nat, slotSize: nat, actions: seq<Action>)
    requires 1 <= capacity && 8 <= slotSize
    ensures var s := Run(Initial(capacity, slotSize), actions);
      Inv(s) && Abstract(s) == SpecRun(Spec(capacity, slotSize, [], [], Off, Off), actions)
  {
    InitialInv(capacity, slotSize);
    RefinesFrom(Initial(capacity, slotSize), actions);
  }

  // ----- Pushes and pops complete -----

  function Count(actions: seq<Action>, a: Action): nat
    decreases |actions|
  {
    if actions == [] then 0 else Count(actions[..|actions| - 1], a) + (if actions[|actions| - 1] == a then 1 else 0)
  }

  /** Steps of the two callers, and no new push. */
  ghost predicate StepsOnly(actions: seq<Action>)
  {
    forall i :: 0 <= i < |actions| ==> actions[i] == ProducerStep || actions[i] == ConsumerStep
  }

  lemma {:induction false} PutProgress(q: Spec, m: Message, more: seq<Action>)
    requires q.putting == Asked(m) && |q.pushed| - |q.popped| < q.capacity - 1 && StepsOnly(more)
    requires |q.popped| <= |q.pushed| && Count(more, ProducerStep) <= 10 + |m.payload|
    ensures var t, n := SpecRun(q, more), Count(more, ProducerStep);
      && |q.popped| <= |t.popped| && t.capacity == q.capacity
      && t.putting == (if n == 0 then Asked(m)
                       else if n <= 9 + |m.payload| then Copying(m, 9 + |m.payload| - n) else Off)
      && t.pushed == (if n <= 9 + |m.payload| then q.pushed else q.pushed + [m])
    decreases |more|
  {
    if more != [] {
      PutProgress(q, m, more[..|more| - 1]);
    }
  }

  /** From any reachable state with an idle producer and room, a push that fits succeeds: after its call and
      10 + |payload| producer steps, however interleaved with consumer steps, the message is in. */
  lemma PushCompletes(s: State, m: Message, more: seq<Action>)
    requires Inv(s) && s.producer.PIdle? && |s.pushed| - |s.popped| < s.shared.capacity - 1
    requires |m.payload| + 8 <= s.shared.slotSize && |m.payload| < 0x1_0000_0000
    requires StepsOnly(more) && Count(more, ProducerStep) == 10 + |m.payload|
    ensures var t := Run(Step(s, BeginPush(m)), more); t.producer.PIdle? && t.pushed == s.pushed + [m]
  {
    RefinesStep(s, BeginPush(m));
    RefinesFrom(Step(s, BeginPush(m)), more);
    PutProgress(Abstract(Step(s, BeginPush(m))), m, more);
  }

  lemma {:induction false} TakeProgress(q: Spec, more: seq<Action>)
    requires q.taking.Off? && |q.popped| < |q.pushed|
    requires Count(more, ConsumerStep) <= 11 + |q.pushed[|q.popped|].payload|
    ensures var t, n, m := SpecRun(q, more), Count(more, ConsumerStep), q.pushed[|q.popped|];
      && q.pushed <= t.pushed
      && t.taking == (if n == 0 || n == 11 + |m.payload| then Off else if n == 1 then Asked(NOTHING)
                      else Copying(m, 10 + |m.payload| - n))
      && t.popped == (if n == 11 + |m.payload| then q.popped + [m] else q.popped)
    decreases |more|
  {
    if more != [] {
      TakeProgress(q, more[..|more| - 1]);
    }
  }

  /** And from any reachable state with an idle consumer and a message in the ring, 11 + |payload| consumer steps,
      however interleaved with the producer's calls and steps, take out the oldest. */
  lemma PopCompletes(s: State, more: seq<Action>)
    requires Inv(s) && s.consumer.CIdle? && |s.popped| < |s.pushed|
    requires Count(more, ConsumerStep) == 11 + |s.pushed[|s.popped|].payload|
    ensures var t := Run(s, more); t.consumer.CIdle? && t.popped == s.popped + [s.pushed[|s.popped|]]
  {
    RefinesFrom(s, more);
    TakeProgress(Abstract(s), more);
  }

  // ----- What every interleaving keeps -----

  /** First in, first out, nothing lost, nothing torn: under every interleaving the popped messages followed
      by the messages in the ring are the pushed ones, and at most capacity - 1 are outstanding. */
  lemma Fifo(capacity: nat, slotSize: nat, actions: seq<Action>)
    requires 1 <= capacity && 8 <= slotSize
    ensures var s := Run(Initial(capacity, slotSize), actions);
      exists queue :: Holds(s.shared, queue) && s.popped + queue == s.pushed && |queue| <= capacity - 1
  {
    RunInv(capacity, slotSize, actions);
    RunKeepsSize(capacity, slotSize, actions);
    var s := Run(Initial(capacity, slotSize), actions);
    assert s.popped + Queue(s) == s.pushed;
  }

  lemma {:induction false} RunKeepsSize(capacity: nat, slotSize: nat, actions: seq<Action>)
    ensures var s := Run(Initial(capacity, slotSize), actions);
      s.shared.capacity == capacity && s.shared.slotSize == slotSize
    decreases |actions|
  {
    if actions != [] {
      RunKeepsSize(capacity, slotSize, actions[..|actions| - 1]);
    }
  }

  /** While a byte is being written, its slot is neither the one being read nor one holding an unread message. */
  lemma WriterAlone(capacity: nat, slotSize: nat, actions: seq<Action>, n: nat)
    requires 1 <= capacity && 8 <= slotSize
    ensures var s := Run(Initial(capacity, slotSize), actions);
      s.producer.PWriting? ==>
        && (s.consumer.CReading? ==> s.consumer.head != s.producer.tail)
        && (n < |s.pushed| - |s.popped| ==>
              s.shared.head < capacity && n <= capacity && Ahead(s.shared.head, n, capacity) != s.producer.tail)
  {
    RunInv(capacity, slotSize, actions);
    RunKeepsSize(capacity, slotSize, actions);
  }

  /** A push that reports "full" saw a ring that was full when it loaded `head`, and only then. */
  lemma FullIsTrue(capacity: nat, slotSize: nat, actions: seq<Action>)
    requires 1 <= capacity && 8 <= slotSize
    ensures var s := Run(Initial(capacity, slotSize), actions);
      s.producer.PTailLoaded? ==>
        (Step(s, ProducerStep).producer.PIdle? <==> |s.pushed| - |s.popped| == capacity - 1)
  {
    RunInv(capacity, slotSize, actions);
    RunKeepsSize(capacity, slotSize, actions);
    var s := Run(Initial(capacity, slotSize), actions);
    FullExactly(s.shared, Queue(s));
  }

  /** A pop that reports "empty" saw a ring that was empty when it loaded `tail`, and only then. */
  lemma EmptyIsTrue(capacity: nat, slotSize: nat, actions: seq<Action>)
    requires 1 <= capacity && 8 <= slotSize
    ensures var s := Run(Initial(capacity, slotSize), actions);
      s.consumer.CHeadLoaded? ==>
        (Step(s, ConsumerStep).consumer.CIdle? <==> |s.pushed| == |s.popped|)
  {
    RunInv(capacity, slotSize, actions);
    var s := Run(Initial(capacity, slotSize), actions);
    EmptyExactly(s.shared, Queue(s));
  }

  /** Every byte a side touches lies inside its own slot of the mapping. */
  lemma AccessesInBounds(capacity: nat, slotSize: nat, actions: seq<Action>)
    requires 1 <= capacity && 8 <= slotSize
    ensures var s := Run(Initial(capacity, slotSize), actions);
      && (s.producer.PWriting? ==>
            s.producer.tail < capacity && Fits(s.producer.msg, slotSize) && |Record(s.producer.msg)| <= slotSize)
      && (s.consumer.CReading? ==> s.consumer.head < capacity && Wanted(s.consumer.got) <= slotSize)
  {
    RunInv(capacity, slotSize, actions);
    RunKeepsSize(capacity, slotSize, actions);
    var s := Run(Initial(capacity, slotSize), actions);
    if s.consumer.CReading? {
      WantedIs(s.consumer.got, Queue(s)[0]);
      HeadSlotReads(s.shared, Queue(s), 0);
    }
  }

  /** The zero-copy view: from the moment the consumer has found the ring non-empty until it stores `head`,
      the slot in place reads as the next message, whatever the producer does meanwhile. */
  lemma ZeroCopyView(capacity: nat, slotSize: nat, actions: seq<Action>, k: nat)
    requires 1 <= capacity && 8 <= slotSize
    ensures var s := Run(Initial(capacity, slotSize), actions);
      s.consumer.CReading? ==>
        && |s.popped| < |s.pushed|
        && var m := s.pushed[|s.popped|];
        && |m.payload| < 0x1_0000_0000
        && (k < 8 + |m.payload| ==> Load(s.shared.mem, s.consumer.head * slotSize + k) == Record(m)[k])
  {
    RunInv(capacity, slotSize, actions);
    RunKeepsSize(capacity, slotSize, actions);
    var s := Run(Initial(capacity, slotSize), actions);
    if s.consumer.CReading? {
      HeadSlotReads(s.shared, Queue(s), k);
    }
  }

  // ----- The calls themselves, uninterrupted -----

  class Ring {
    const capacity: nat
    const slotSize: nat
    var head: nat
    var tail: nat
    const slots: array<byte>

    ghost function View(): Shared
      reads this, slots
    {
      Shared(capacity, slotSize, head, tail, slots[..])
    }

    /** The creator's initialisation: an empty ring. */
    constructor (capacity: nat, maxPayload: nat)
      requires 1 <= capacity
      ensures this.capacity == capacity && slotSize == 8 + maxPayload && fresh(slots)
      ensures Holds(View(), [])
    {
      this.capacity := capacity;
      this.slotSize := 8 + maxPayload;
      this.slots := new byte[capacity * (8 + maxPayload)](_ => 0);
      this.head := 0;
      this.tail := 0;
    }

    /** Succeeds exactly when the payload fits a slot and the ring is not full, and then appends the message. */
    method TryPush(m: Message, ghost queue: seq<Message>) returns (ok: bool)
      requires Holds(View(), queue) && |m.payload| < 0x1_0000_0000
      modifies `tail, slots
      ensures ok <==> 8 + |m.payload| <= slotSize && |queue| < capacity - 1
      ensures Holds(View(), if ok then queue + [m] else queue)
      ensures !ok ==> View() == old(View())
    {
      if 8 + |m.payload| > slotSize {
        return false;
      }
      hide Holds, Slot, Record;
      HeadInRange(View(), queue);
      FullExactly(View(), queue);
      QueueBound(View(), queue);
      var next := (tail + 1) % capacity;
      if next == head {
        return false;
      }
      CopyIn(Record(m), queue);
      PublishKeepsQueue(View(), queue, m);
      tail := next;
      ok := true;
    }

    method CopyIn(record: Bytes, ghost queue: seq<Message>)
      requires Holds(View(), queue) && |record| <= slotSize
      modifies slots
      ensures Holds(View(), queue)
      ensures record <= Slot(slots[..], tail, capacity, slotSize)
    {
      hide Holds, Slot;
      HeadInRange(View(), queue);
      for k := 0 to |record|
        invariant Holds(View(), queue)
        invariant record[..k] <= Slot(slots[..], tail, capacity, slotSize)
      {
        ghost var before, slot := slots[..], Slot(slots[..], tail, capacity, slotSize);
        WriteKeepsQueue(View(), queue, k, record[k]);
        WriteSlotByte(before, tail, k, record[k], capacity, slotSize);
        assert slot[k := record[k]][..k + 1] == record[..k + 1];
        slots[tail * slotSize + k] := record[k];
        assert slots[..] == before[tail * slotSize + k := record[k]];
      }
      assert record[..|record|] == record;
    }

    /** Fails exactly when the ring is empty; otherwise hands out the oldest message and drops it. */
    method TryPop(ghost queue: seq<Message>) returns (ok: bool, m: Message)
      requires Holds(View(), queue)
      modifies `head
      ensures ok <==> queue != []
      ensures ok ==> m == queue[0] && Holds(View(), queue[1..])
      ensures !ok ==> Holds(View(), queue)
    {
      hide Holds, Record;
      HeadInRange(View(), queue);
      EmptyExactly(View(), queue);
      if head == tail {
        return false, Message(0, []);
      }
      HeadSlotReads(View(), queue, 0);
      var got := CopyOut(queue);
      RecordReads(queue[0]);
      ReleaseKeepsQueue(View(), queue);
      m := Message(U32At(got, 0), got[8..]);
      head := (head + 1) % capacity;
      ok := true;
    }

    method CopyOut(ghost queue: seq<Message>) returns (got: Bytes)
      requires Holds(View(), queue) && queue != [] && Fits(queue[0], slotSize)
      ensures got == Record(queue[0])
    {
      hide Holds, Record;
      got := [];
      WantedIs(got, queue[0]);
      while |got| < Wanted(got)
        invariant got <= Record(queue[0])
        decreases |Record(queue[0])| - |got|
      {
        WantedIs(got, queue[0]);
        HeadSlotReads(View(), queue, |got|);
        got := got + [slots[head * slotSize + |got|]];
      }
      WantedIs(got, queue[0]);
    }
  }
}
