/** The queued sender of the Windows back end: a producer (the caller of addPacket and later of the
    destructor) and a worker thread share a ring of send queues through two counting semaphores and an
    auto-reset termination event. Every atomic step of either thread is one action; a schedule is any
    sequence of enabled actions. */
module SendPipeline {
  import opened Bytes

  const MAX_SEND_QUEUES := 3
  /** Two 32-bit time fields and two 32-bit lengths in front of every queued packet. */
  const HEADER_SIZE := 16
  const MAX_DOUBLE_TAGGED_PACKET := 1522

  datatype Packet = Packet(octets: seq<Byte>) {
    function Queued(): nat {
      |octets| + HEADER_SIZE
    }
  }

  function QueuedBytes(q: seq<Packet>): nat {
    if q == [] then 0 else QueuedBytes(q[..|q| - 1]) + q[|q| - 1].Queued()
  }

  /** One job: the packets that will be handed over, what was announced beforehand (packetCnt 0 announces
      an endless job) and the size limit of one queue. */
  datatype Job = Job(packets: seq<Packet>, packetCnt: nat, totalBytes: nat, maxQueueSize: nat) {
    function NeededMemory(): nat {
      if packetCnt > 0 then packetCnt * HEADER_SIZE + totalBytes else maxQueueSize
    }

    function QueueCount(): nat {
      if NeededMemory() >= maxQueueSize then MAX_SEND_QUEUES else 1
    }

    function QueueCapacity(): nat {
      if NeededMemory() >= maxQueueSize then maxQueueSize else NeededMemory()
    }

    /** The announcement is either missing or exact. */
    predicate Honest() {
      packetCnt == 0 || (packetCnt == |packets| && NeededMemory() == QueuedBytes(packets))
    }
  }

  datatype Producer =
    | Ready            // between two calls; owns queue currSendQueueIn
    | Added            // packet queued, threshold not yet tested
    | WaitSpace        // semDataAvail released, waiting for semSpaceAvail
    | GotSpace         // semSpaceAvail acquired, in-pointer not yet moved
    | Terminating(releasedLast: bool)
    | Joining(releasedLast: bool)
    | Done(releasedLast: bool)

  datatype Worker =
    | Waiting
    | Took             // semDataAvail acquired, owns queue currSendQueueOut
    | Transmitted      // queue handed to the driver, not yet reset
    | Emptied          // queue reset, out-pointer not yet moved
    | Advanced         // out-pointer moved, semSpaceAvail not yet released
    | Exited

  datatype State = State(
    queues: seq<seq<Packet>>, currIn: nat, currOut: nat,
    space: nat, data: nat, term: bool,
    producer: Producer, worker: Worker,
    pending: seq<Packet>,   // packets the caller has not handed over yet
    sent: seq<Packet>)      // packets transmitted, in order

  function Init(j: Job): State {
    State(seq(j.QueueCount(), _ => []), 0, 0, MAX_SEND_QUEUES - 1, 0, false, Ready, Waiting, j.packets, [])
  }

  datatype ProducerAction = Add | Keep | ReleaseData | AcquireSpace | AdvanceIn | Destroy | SetTerm | Join

  datatype WorkerAction = TakeData | Exit | Transmit | Reset | AdvanceOut | ReleaseSpace

  datatype Action = P(p: ProducerAction) | W(w: WorkerAction)

  predicate WellFormed(s: State) {
    s.currIn < |s.queues| && s.currOut < |s.queues|
  }

  /** The test after every queued packet: no room for one more frame of maximum size. */
  predicate MustSwitch(j: Job, q: seq<Packet>) {
    QueuedBytes(q) + MAX_DOUBLE_TAGGED_PACKET + HEADER_SIZE >= j.maxQueueSize
  }

  predicate ProducerCan(j: Job, s: State, a: ProducerAction)
    requires WellFormed(s)
  {
    match a
    case Add => s.producer.Ready? && s.pending != []
    case Keep => s.producer.Added? && !MustSwitch(j, s.queues[s.currIn])
    case ReleaseData => s.producer.Added? && MustSwitch(j, s.queues[s.currIn])
    case AcquireSpace => s.producer.WaitSpace? && s.space > 0
    case AdvanceIn => s.producer.GotSpace?
    case Destroy => s.producer.Ready? && s.pending == []
    case SetTerm => s.producer.Terminating?
    case Join => s.producer.Joining? && s.worker.Exited?
  }

  predicate WorkerCan(s: State, a: WorkerAction) {
    match a
    case TakeData => s.worker.Waiting? && s.data > 0
    // the data semaphore has the lower index, so it wins while it is signalled
    case Exit => s.worker.Waiting? && s.data == 0 && s.term
    case Transmit => s.worker.Took?
    case Reset => s.worker.Transmitted?
    case AdvanceOut => s.worker.Emptied?
    case ReleaseSpace => s.worker.Advanced?
  }

  /** Releasing a semaphore that is at its maximum fails and changes nothing. */
  function Released(count: nat): nat {
    if count < MAX_SEND_QUEUES then count + 1 else count
  }

  function ProducerStep(j: Job, s: State, a: ProducerAction): (t: State)
    requires WellFormed(s) && ProducerCan(j, s, a)
    ensures WellFormed(t) && |t.queues| == |s.queues|
  {
    match a
    case Add =>
      s.(queues := s.queues[s.currIn := s.queues[s.currIn] + [s.pending[0]]],
         pending := s.pending[1..], producer := Added)
    case Keep => s.(producer := Ready)
    case ReleaseData => s.(data := Released(s.data), producer := WaitSpace)
    case AcquireSpace => s.(space := s.space - 1, producer := GotSpace)
    case AdvanceIn => s.(currIn := (s.currIn + 1) % |s.queues|, producer := Ready)
    case Destroy =>
      if QueuedBytes(s.queues[s.currIn]) > 0
      then s.(data := Released(s.data), producer := Terminating(true))
      else s.(producer := Terminating(false))
    case SetTerm => s.(term := true, producer := Joining(s.producer.releasedLast))
    case Join => s.(producer := Done(s.producer.releasedLast))
  }

  function WorkerStep(s: State, a: WorkerAction): (t: State)
    requires WellFormed(s) && WorkerCan(s, a)
    ensures WellFormed(t) && |t.queues| == |s.queues|
  {
    match a
    case TakeData => s.(data := s.data - 1, worker := Took)
    case Exit => s.(term := false, worker := Exited)
    case Transmit => s.(sent := s.sent + s.queues[s.currOut], worker := Transmitted)
    case Reset => s.(queues := s.queues[s.currOut := []], worker := Emptied)
    case AdvanceOut => s.(currOut := (s.currOut + 1) % |s.queues|, worker := Advanced)
    case ReleaseSpace => s.(space := Released(s.space), worker := Waiting)
  }

  predicate Enabled(j: Job, s: State, a: Action)
    requires WellFormed(s)
  {
    match a
    case P(p) => ProducerCan(j, s, p)
    case W(w) => WorkerCan(s, w)
  }

  function Apply(j: Job, s: State, a: Action): (t: State)
    requires WellFormed(s) && Enabled(j, s, a)
    ensures WellFormed(t) && |t.queues| == |s.queues|
  {
    match a
    case P(p) => ProducerStep(j, s, p)
    case W(w) => WorkerStep(s, w)
  }

  /** A schedule is legal when every action is enabled at its turn. */
  predicate Legal(j: Job, acts: seq<Action>)
    decreases |acts|, 0
  {
    acts == [] ||
    (Legal(j, acts[..|acts| - 1]) && Enabled(j, After(j, acts[..|acts| - 1]), acts[|acts| - 1]))
  }

  /** The state a legal schedule leads to. */
  function After(j: Job, acts: seq<Action>): (s: State)
    requires Legal(j, acts)
    ensures WellFormed(s)
    decreases |acts|, 1
  {
    if acts == [] then Init(j)
    else Apply(j, After(j, acts[..|acts| - 1]), acts[|acts| - 1])
  }

  // ------------------------------------------------------------------------------------------
  // What the steps keep with three queues
  // ------------------------------------------------------------------------------------------

  function WorkerHolds(s: State): nat {
    if s.worker.Waiting? || s.worker.Exited? then 0 else 1
  }

  /** The worker's queue is still the one at the out-pointer. */
  function HeldAtOut(s: State): nat {
    if s.worker.Took? || s.worker.Transmitted? || s.worker.Emptied? then 1 else 0
  }

  /** The queue at the in-pointer has been passed on to the worker. */
  predicate PassedOn(p: Producer) {
    p.WaitSpace? || p.GotSpace? || ((p.Terminating? || p.Joining? || p.Done?) && p.releasedLast)
  }

  function ProducerHolds(s: State): nat {
    if PassedOn(s.producer) && !s.producer.GotSpace? then 0 else 1
  }

  predicate InDestructor(p: Producer) {
    p.Terminating? || p.Joining? || p.Done?
  }

  /** Position i of the ring, up to once around. */
  function Ring(i: nat): nat {
    if i < 3 then i else i - 3
  }

  /** The queue k places behind the out-pointer. */
  function Slot(s: State, k: nat): seq<Packet>
    requires |s.queues| == MAX_SEND_QUEUES && WellFormed(s) && k < 3
  {
    s.queues[Ring(s.currOut + k)]
  }

  /** Packets handed over and not transmitted yet, in ring order. */
  function InRing(s: State): seq<Packet>
    requires |s.queues| == MAX_SEND_QUEUES && WellFormed(s)
  {
    (if s.worker.Transmitted? then [] else Slot(s, 0)) + Slot(s, 1) + Slot(s, 2)
  }

  /** Every slot is free, filled, held by the worker or held by the producer. */
  predicate SlotsAccounted(s: State) {
    s.space + s.data + WorkerHolds(s) + ProducerHolds(s) == MAX_SEND_QUEUES
  }

  /** Beyond the filled slots, apart from the one the producer is writing; and the one just flushed. */
  predicate SlotFree(s: State, k: nat) {
    || k > HeldAtOut(s) + s.data
    || (k == HeldAtOut(s) + s.data && PassedOn(s.producer))
    || (k == 0 && s.worker.Emptied?)
  }

  /** The filled slots lie between the out-pointer and the in-pointer. */
  predicate Positioned(s: State)
    requires |s.queues| == MAX_SEND_QUEUES && WellFormed(s)
  {
    var filled := HeldAtOut(s) + s.data;
    && filled <= 3
    && Ring(s.currIn + if PassedOn(s.producer) then 1 else 0) == Ring(s.currOut + filled)
    && (SlotFree(s, 0) ==> Slot(s, 0) == [])
    && (SlotFree(s, 1) ==> Slot(s, 1) == [])
    && (SlotFree(s, 2) ==> Slot(s, 2) == [])
  }

  predicate Delivered(j: Job, s: State)
    requires |s.queues| == MAX_SEND_QUEUES && WellFormed(s)
  {
    j.packets == s.sent + InRing(s) + s.pending
  }

  predicate Shutdown(s: State)
    requires WellFormed(s)
  {
    && (InDestructor(s.producer) ==> s.pending == [])
    && (InDestructor(s.producer) && !s.producer.releasedLast ==> s.queues[s.currIn] == [])
    && (s.term ==> s.producer.Joining? && !s.worker.Exited?)
    && (s.producer.Joining? && !s.worker.Exited? ==> s.term)
    && (s.worker.Exited? ==> s.data == 0 && (s.producer.Joining? || s.producer.Done?))
    && (s.producer.Done? ==> s.worker.Exited?)
  }

  predicate Inv(j: Job, s: State) {
    && |s.queues| == MAX_SEND_QUEUES && WellFormed(s)
    && SlotsAccounted(s)
    && Positioned(s)
    && Delivered(j, s)
    && Shutdown(s)
  }

  lemma InitInv(j: Job)
    requires j.QueueCount() == MAX_SEND_QUEUES
    ensures Inv(j, Init(j))
  {
  }

  lemma NothingQueued(q: seq<Packet>)
    ensures QueuedBytes(q) == 0 <==> q == []
  {
  }

  lemma ProducerKeepsCounts(j: Job, s: State, a: ProducerAction)
    requires Inv(j, s) && ProducerCan(j, s, a)
    ensures var t := ProducerStep(j, s, a); SlotsAccounted(t) && Shutdown(t)
  {
    hide Delivered, MustSwitch;
    NothingQueued(s.queues[s.currIn]);
    match a
    case Add =>
    case Keep =>
    case ReleaseData =>
    case AcquireSpace =>
    case AdvanceIn =>
    case Destroy =>
    case SetTerm =>
    case Join =>
  }

  lemma WorkerKeepsCounts(j: Job, s: State, a: WorkerAction)
    requires Inv(j, s) && WorkerCan(s, a)
    ensures var t := WorkerStep(s, a); SlotsAccounted(t) && Shutdown(t)
  {
    hide Delivered;
    match a
    case TakeData =>
    case Exit =>
    case Transmit =>
    case Reset =>
    case AdvanceOut =>
    case ReleaseSpace =>
  }

  lemma AddKeepsPositions(j: Job, s: State)
    requires Inv(j, s) && ProducerCan(j, s, Add)
    ensures Positioned(ProducerStep(j, s, Add))
  {
    hide Delivered, MustSwitch;
    assert s.currIn == Ring(s.currOut + HeldAtOut(s) + s.data);
  }

  lemma AdvanceInKeepsPositions(j: Job, s: State)
    requires Inv(j, s) && ProducerCan(j, s, AdvanceIn)
    ensures Positioned(ProducerStep(j, s, AdvanceIn))
  {
    hide Delivered, MustSwitch;
    assert (s.currIn + 1) % |s.queues| == Ring(s.currIn + 1);
  }

  lemma DestroyKeepsPositions(j: Job, s: State)
    requires Inv(j, s) && ProducerCan(j, s, Destroy)
    ensures Positioned(ProducerStep(j, s, Destroy))
  {
    hide Delivered, MustSwitch;
    NothingQueued(s.queues[s.currIn]);
  }

  lemma ProducerKeepsPositions(j: Job, s: State, a: ProducerAction)
    requires Inv(j, s) && ProducerCan(j, s, a)
    ensures Positioned(ProducerStep(j, s, a))
  {
    hide Delivered, MustSwitch;
    match a
    case Add => AddKeepsPositions(j, s);
    case Keep =>
    case ReleaseData =>
    case AcquireSpace =>
    case AdvanceIn => AdvanceInKeepsPositions(j, s);
    case Destroy => DestroyKeepsPositions(j, s);
    case SetTerm =>
    case Join =>
  }

  /** Moving the out-pointer past an emptied slot rotates the ring. */
  lemma AdvanceOutRotates(j: Job, s: State)
    requires Inv(j, s) && WorkerCan(s, AdvanceOut)
    ensures var t := WorkerStep(s, AdvanceOut); Slot(t, 0) == Slot(s, 1) && Slot(t, 1) == Slot(s, 2) && Slot(t, 2) == []
    ensures Positioned(WorkerStep(s, AdvanceOut))
  {
    hide Delivered;
    assert (s.currOut + 1) % |s.queues| == Ring(s.currOut + 1);
  }

  lemma TransmitKeepsPackets(j: Job, s: State)
    requires Inv(j, s) && WorkerCan(s, Transmit)
    ensures Delivered(j, WorkerStep(s, Transmit))
  {
    hide Slot;
    var t := WorkerStep(s, Transmit);
    assert Slot(s, 0) == s.queues[s.currOut] && Slot(t, 1) == Slot(s, 1) && Slot(t, 2) == Slot(s, 2) by { SlotsOf(s); SlotsOf(t); }
    assert s.sent + InRing(s) == t.sent + InRing(t);
  }

  lemma SlotsOf(s: State)
    requires |s.queues| == MAX_SEND_QUEUES && WellFormed(s)
    ensures Slot(s, 0) == s.queues[s.currOut]
    ensures Slot(s, 1) == s.queues[Ring(s.currOut + 1)]
    ensures Slot(s, 2) == s.queues[Ring(s.currOut + 2)]
  {
  }

  lemma WorkerKeepsPositions(j: Job, s: State, a: WorkerAction)
    requires Inv(j, s) && WorkerCan(s, a)
    ensures Positioned(WorkerStep(s, a))
  {
    hide Delivered;
    match a
    case TakeData =>
    case Exit =>
    case Transmit =>
    case Reset =>
    case AdvanceOut => AdvanceOutRotates(j, s);
    case ReleaseSpace =>
  }

  lemma AddKeepsPackets(j: Job, s: State)
    requires Inv(j, s) && ProducerCan(j, s, Add)
    ensures Delivered(j, ProducerStep(j, s, Add))
  {
    hide MustSwitch, Slot;
    var t := ProducerStep(j, s, Add);
    SlotsOf(s);
    SlotsOf(t);
    assert s.currIn == Ring(s.currOut + HeldAtOut(s) + s.data);
    assert s.pending == [s.pending[0]] + s.pending[1..];
    assert InRing(t) == InRing(s) + [s.pending[0]];
  }

  lemma SameRing(s: State, t: State)
    requires |s.queues| == MAX_SEND_QUEUES && WellFormed(s) && WellFormed(t)
    requires t.queues == s.queues && t.currOut == s.currOut && t.worker == s.worker
    ensures InRing(t) == InRing(s)
  {
  }

  lemma ProducerKeepsPackets(j: Job, s: State, a: ProducerAction)
    requires Inv(j, s) && ProducerCan(j, s, a)
    ensures Delivered(j, ProducerStep(j, s, a))
  {
    if a.Add? {
      AddKeepsPackets(j, s);
    } else {
      hide InRing, MustSwitch, QueuedBytes, Positioned, Shutdown, SlotsAccounted;
      SameRing(s, ProducerStep(j, s, a));
    }
  }

  lemma WorkerKeepsPackets(j: Job, s: State, a: WorkerAction)
    requires Inv(j, s) && WorkerCan(s, a)
    ensures Delivered(j, WorkerStep(s, a))
  {
    match a
    case TakeData =>
    case Exit =>
    case Transmit => TransmitKeepsPackets(j, s);
    case Reset =>
    case AdvanceOut =>
      AdvanceOutRotates(j, s);
      assert InRing(WorkerStep(s, a)) == InRing(s);
    case ReleaseSpace =>
  }

  lemma StepInv(j: Job, s: State, a: Action)
    requires Inv(j, s) && Enabled(j, s, a)
    ensures Inv(j, Apply(j, s, a))
  {
    hide SlotsAccounted, Positioned, Delivered, Shutdown;
    match a
    case P(p) =>
      ProducerKeepsCounts(j, s, p);
      ProducerKeepsPositions(j, s, p);
      ProducerKeepsPackets(j, s, p);
    case W(w) =>
      WorkerKeepsCounts(j, s, w);
      WorkerKeepsPositions(j, s, w);
      WorkerKeepsPackets(j, s, w);
  }

  lemma {:induction false} ThreeQueueInv(j: Job, acts: seq<Action>)
    requires j.QueueCount() == MAX_SEND_QUEUES && Legal(j, acts)
    ensures Inv(j, After(j, acts))
    decreases |acts|
  {
    if acts == [] {
      InitInv(j);
    } else {
      ThreeQueueInv(j, acts[..|acts| - 1]);
      StepInv(j, After(j, acts[..|acts| - 1]), acts[|acts| - 1]);
    }
  }

  // ------------------------------------------------------------------------------------------
  // What the steps keep with one queue, when it holds the whole job below the switch threshold
  // ------------------------------------------------------------------------------------------

  /** The job can be announced safely: three queues, or one queue that never reaches the threshold. */
  predicate Safe(j: Job) {
    j.QueueCount() == MAX_SEND_QUEUES ||
    j.NeededMemory() + MAX_DOUBLE_TAGGED_PACKET + HEADER_SIZE < j.maxQueueSize
  }

  predicate OneInv(j: Job, s: State) {
    && |s.queues| == 1 && WellFormed(s)
    && !s.producer.WaitSpace? && !s.producer.GotSpace?
    && j.packets == s.sent + (if s.worker.Transmitted? then [] else s.queues[0]) + s.pending
    && (!InDestructor(s.producer) ==> s.data == 0 && s.worker.Waiting? && s.sent == [])
    && s.data + WorkerHolds(s) <= 1
    && (InDestructor(s.producer) && s.data == 0 && !s.worker.Took? && !s.worker.Transmitted? ==> s.queues[0] == [])
    && s.space >= 2 && s.space + s.data + WorkerHolds(s) <= MAX_SEND_QUEUES
    && (!InDestructor(s.producer) ==> s.space == 2)
    && Shutdown(s)
  }

  lemma {:induction false} QueuedBytesConcat(a: seq<Packet>, b: seq<Packet>)
    ensures QueuedBytes(a + b) == QueuedBytes(a) + QueuedBytes(b)
  {
    if b == [] {
      assert a + b == a;
    } else {
      assert (a + b)[..|a + b| - 1] == a + b[..|b| - 1];
      QueuedBytesConcat(a, b[..|b| - 1]);
    }
  }

  lemma NeverSwitches(j: Job, s: State)
    requires j.Honest() && Safe(j) && j.QueueCount() == 1
    requires OneInv(j, s) && s.producer.Added?
    ensures !MustSwitch(j, s.queues[s.currIn])
  {
    QueuedBytesConcat(s.queues[0], s.pending);
    assert j.packets == s.queues[0] + s.pending;
  }

  lemma OneStepInv(j: Job, s: State, a: Action)
    requires j.Honest() && Safe(j) && j.QueueCount() == 1
    requires OneInv(j, s) && Enabled(j, s, a)
    ensures OneInv(j, Apply(j, s, a))
  {
    match a
    case P(p) => OneProducerStepInv(j, s, p);
    case W(w) => OneWorkerStepInv(j, s, w);
  }

  lemma OneProducerStepInv(j: Job, s: State, a: ProducerAction)
    requires j.Honest() && Safe(j) && j.QueueCount() == 1
    requires OneInv(j, s) && ProducerCan(j, s, a)
    ensures OneInv(j, ProducerStep(j, s, a))
  {
    NothingQueued(s.queues[s.currIn]);
    match a
    case Add =>
      assert s.pending == [s.pending[0]] + s.pending[1..];
    case Keep =>
    case ReleaseData => NeverSwitches(j, s);
    case AcquireSpace =>
    case AdvanceIn =>
    case Destroy =>
    case SetTerm =>
    case Join =>
  }

  lemma OneWorkerStepInv(j: Job, s: State, a: WorkerAction)
    requires OneInv(j, s) && WorkerCan(s, a)
    ensures OneInv(j, WorkerStep(s, a))
  {
    match a
    case TakeData =>
    case Exit =>
    case Transmit =>
    case Reset =>
    case AdvanceOut =>
    case ReleaseSpace =>
  }

  lemma {:induction false} OneQueueInv(j: Job, acts: seq<Action>)
    requires j.Honest() && Safe(j) && j.QueueCount() == 1 && Legal(j, acts)
    ensures OneInv(j, After(j, acts))
    decreases |acts|
  {
    if acts != [] {
      OneQueueInv(j, acts[..|acts| - 1]);
      OneStepInv(j, After(j, acts[..|acts| - 1]), acts[|acts| - 1]);
    }
  }

  // ------------------------------------------------------------------------------------------
  // Safety over every schedule
  // ------------------------------------------------------------------------------------------

  /** The queue the producer may write is not the one the worker is flushing. */
  predicate Exclusive(s: State) {
    (s.producer.Ready? || s.producer.Added?) && HeldAtOut(s) == 1 ==> s.currIn != s.currOut
  }

  lemma MutualExclusion(j: Job, acts: seq<Action>)
    requires j.Honest() && Safe(j) && Legal(j, acts)
    ensures Exclusive(After(j, acts))
  {
    if j.QueueCount() == MAX_SEND_QUEUES {
      ThreeQueueInv(j, acts);
    } else {
      OneQueueInv(j, acts);
    }
  }

  /** Counts stay within the maximum given at creation, and no release ever finds its semaphore full. */
  lemma SemaphoresNeverSaturate(j: Job, acts: seq<Action>)
    requires j.Honest() && Safe(j) && Legal(j, acts)
    ensures var s := After(j, acts);
            && s.space <= MAX_SEND_QUEUES && s.data <= MAX_SEND_QUEUES
            && (s.producer.Added? || s.producer.Ready? ==> s.data < MAX_SEND_QUEUES)
            && (s.worker.Advanced? ==> s.space < MAX_SEND_QUEUES)
  {
    if j.QueueCount() == MAX_SEND_QUEUES {
      ThreeQueueInv(j, acts);
    } else {
      OneQueueInv(j, acts);
    }
  }

  /** Handed over and not transmitted yet, oldest first. */
  function Buffered(s: State): seq<Packet>
    requires |s.queues| in {1, MAX_SEND_QUEUES} && WellFormed(s)
  {
    if |s.queues| == MAX_SEND_QUEUES then InRing(s)
    else if s.worker.Transmitted? then [] else s.queues[0]
  }

  /** The packets transmitted, then those in the queues, then those still to come are the job's packets:
      nothing is lost, duplicated or reordered. */
  lemma ExactlyOnceInOrder(j: Job, acts: seq<Action>)
    requires j.Honest() && Safe(j) && Legal(j, acts)
    ensures |After(j, acts).queues| == j.QueueCount()
    ensures var s := After(j, acts); j.packets == s.sent + Buffered(s) + s.pending
  {
    if j.QueueCount() == MAX_SEND_QUEUES {
      ThreeQueueInv(j, acts);
    } else {
      OneQueueInv(j, acts);
    }
  }

  /** When the worker has returned, everything that was ever handed over has been transmitted. */
  lemma DrainBeforeExit(j: Job, acts: seq<Action>)
    requires j.Honest() && Safe(j) && Legal(j, acts)
    requires After(j, acts).worker.Exited?
    ensures After(j, acts).sent == j.packets
  {
    var s := After(j, acts);
    if j.QueueCount() == MAX_SEND_QUEUES {
      ThreeQueueInv(j, acts);
      if !s.producer.releasedLast {
        assert Slot(s, 0) == s.queues[s.currIn];
      }
    } else {
      OneQueueInv(j, acts);
    }
  }

  // ------------------------------------------------------------------------------------------
  // Every schedule ends with the whole job delivered
  // ------------------------------------------------------------------------------------------

  /** Some thread can always move until the destructor has returned. */
  lemma NoDeadlock(j: Job, acts: seq<Action>) returns (a: Action)
    requires j.Honest() && Safe(j) && Legal(j, acts)
    requires !After(j, acts).producer.Done?
    ensures Enabled(j, After(j, acts), a)
  {
    var s := After(j, acts);
    if j.QueueCount() == MAX_SEND_QUEUES {
      ThreeQueueInv(j, acts);
    } else {
      OneQueueInv(j, acts);
    }
    match s.worker
    case Took => a := W(Transmit);
    case Transmitted => a := W(Reset);
    case Emptied => a := W(AdvanceOut);
    case Advanced => a := W(ReleaseSpace);
    case Exited => a := P(if s.producer.Joining? then Join else SetTerm);
    case Waiting =>
      if s.data > 0 {
        a := W(TakeData);
      } else {
        match s.producer
        case Ready => a := P(if s.pending == [] then Destroy else Add);
        case Added => a := P(if MustSwitch(j, s.queues[s.currIn]) then ReleaseData else Keep);
        case WaitSpace => a := P(AcquireSpace);
        case GotSpace => a := P(AdvanceIn);
        case Terminating(_) => a := P(SetTerm);
        case Joining(_) => a := W(Exit);
        case Done(_) => assert false;
      }
  }

  function ProducerRank(p: Producer): nat {
    match p
    case Ready => 8
    case Added => 16
    case WaitSpace => 10
    case GotSpace => 9
    case Terminating(_) => 2
    case Joining(_) => 1
    case Done(_) => 0
  }

  function WorkerRank(w: Worker): nat {
    match w
    case Waiting => 1
    case Took => 5
    case Transmitted => 4
    case Emptied => 3
    case Advanced => 2
    case Exited => 0
  }

  /** Steps that can still be taken. */
  function Remaining(s: State): nat {
    9 * |s.pending| + ProducerRank(s.producer) + 5 * s.data + WorkerRank(s.worker)
  }

  lemma StepDecreases(j: Job, s: State, a: Action)
    requires WellFormed(s) && Enabled(j, s, a)
    ensures Remaining(Apply(j, s, a)) < Remaining(s)
  {
    hide QueuedBytes, MustSwitch;
  }

  /** No schedule is longer than nine steps a packet plus nine. */
  lemma {:induction false} SchedulesAreBounded(j: Job, acts: seq<Action>)
    requires Legal(j, acts)
    ensures |acts| + Remaining(After(j, acts)) <= 9 * |j.packets| + 9
    decreases |acts|
  {
    if acts != [] {
      SchedulesAreBounded(j, acts[..|acts| - 1]);
      StepDecreases(j, After(j, acts[..|acts| - 1]), acts[|acts| - 1]);
    }
  }

  /** A schedule that cannot be extended has delivered every packet of the job, in order. */
  lemma EveryScheduleDelivers(j: Job, acts: seq<Action>)
    requires j.Honest() && Safe(j) && Legal(j, acts)
    requires forall a: Action :: !Enabled(j, After(j, acts), a)
    ensures After(j, acts).producer.Done?
    ensures After(j, acts).sent == j.packets
  {
    if !After(j, acts).producer.Done? {
      var a := NoDeadlock(j, acts);
    }
    if j.QueueCount() == MAX_SEND_QUEUES {
      ThreeQueueInv(j, acts);
    } else {
      OneQueueInv(j, acts);
    }
    DrainBeforeExit(j, acts);
  }

  // ------------------------------------------------------------------------------------------
  // Queue sizes
  // ------------------------------------------------------------------------------------------

  /** Room for one more frame of maximum size in the queue the producer owns, when it is about to add. */
  predicate RoomForOne(j: Job, s: State)
    requires WellFormed(s)
  {
    && (forall i | 0 <= i < |s.queues| :: QueuedBytes(s.queues[i]) <= j.maxQueueSize)
    && (s.producer.Ready? ==> s.queues[s.currIn] == [] || !MustSwitch(j, s.queues[s.currIn]))
    && (forall i | 0 <= i < |s.pending| :: |s.pending[i].octets| <= MAX_DOUBLE_TAGGED_PACKET)
  }

  lemma QueuedBytesSnoc(q: seq<Packet>, p: Packet)
    ensures QueuedBytes(q + [p]) == QueuedBytes(q) + p.Queued()
  {
    assert (q + [p])[..|q + [p]| - 1] == q;
  }

  lemma AddKeepsRoom(j: Job, s: State)
    requires j.maxQueueSize >= MAX_DOUBLE_TAGGED_PACKET + HEADER_SIZE
    requires WellFormed(s) && ProducerCan(j, s, Add) && RoomForOne(j, s)
    ensures RoomForOne(j, ProducerStep(j, s, Add))
  {
    hide QueuedBytes;
    NothingQueued(s.queues[s.currIn]);
    QueuedBytesSnoc(s.queues[s.currIn], s.pending[0]);
    var t := ProducerStep(j, s, Add);
    assert QueuedBytes(t.queues[s.currIn]) <= j.maxQueueSize;
    forall i | 0 <= i < |t.pending|
      ensures |t.pending[i].octets| <= MAX_DOUBLE_TAGGED_PACKET
    {
      assert t.pending[i] == s.pending[i + 1];
    }
  }

  lemma AdvanceKeepsRoom(j: Job, s: State)
    requires WellFormed(s) && ProducerCan(j, s, AdvanceIn) && RoomForOne(j, s)
    requires s.queues[(s.currIn + 1) % |s.queues|] == []
    ensures RoomForOne(j, ProducerStep(j, s, AdvanceIn))
  {
    hide QueuedBytes, MustSwitch;
  }

  lemma ProducerKeepsRoom(j: Job, s: State, a: ProducerAction)
    requires WellFormed(s) && ProducerCan(j, s, a) && RoomForOne(j, s) && a != Add && a != AdvanceIn
    ensures RoomForOne(j, ProducerStep(j, s, a))
  {
    hide QueuedBytes, MustSwitch;
  }

  lemma StepKeepsRoom(j: Job, s: State, a: Action)
    requires j.maxQueueSize >= MAX_DOUBLE_TAGGED_PACKET + HEADER_SIZE
    requires Inv(j, s) && Enabled(j, s, a) && RoomForOne(j, s)
    ensures RoomForOne(j, Apply(j, s, a))
  {
    hide QueuedBytes, SlotsAccounted, Positioned, Delivered, Shutdown, RoomForOne, MustSwitch;
    if a == P(Add) {
      AddKeepsRoom(j, s);
    } else if a == P(AdvanceIn) {
      GotSpaceIsEmpty(j, s);
      AdvanceKeepsRoom(j, s);
    } else if a.P? {
      ProducerKeepsRoom(j, s, a.p);
    } else {
      ProducerUntouched(j, s, a.w);
    }
  }

  /** No step of the worker changes the producer's queue or fills another one. */
  lemma ProducerUntouched(j: Job, s: State, a: WorkerAction)
    requires WellFormed(s) && WorkerCan(s, a) && RoomForOne(j, s)
    ensures RoomForOne(j, WorkerStep(s, a))
  {
    hide MustSwitch, QueuedBytes;
    NothingQueued([]);
    var t := WorkerStep(s, a);
    assert t.queues[t.currIn] == s.queues[s.currIn] || t.queues[t.currIn] == [];
  }

  /** The slot acquired through the space semaphore is empty. */
  lemma GotSpaceIsEmpty(j: Job, s: State)
    requires Inv(j, s) && s.producer.GotSpace?
    ensures s.queues[(s.currIn + 1) % |s.queues|] == []
  {
    assert (s.currIn + 1) % |s.queues| == Ring(s.currIn + 1);
    assert Slot(s, HeldAtOut(s) + s.data) == [];
  }

  /** With three queues no queue ever exceeds its allocation as long as frames have at most 1522 octets. */
  lemma {:induction false} ThreeQueuesNeverOverflow(j: Job, acts: seq<Action>)
    requires j.QueueCount() == MAX_SEND_QUEUES && Legal(j, acts)
    requires j.maxQueueSize >= MAX_DOUBLE_TAGGED_PACKET + HEADER_SIZE
    requires forall i | 0 <= i < |j.packets| :: |j.packets[i].octets| <= MAX_DOUBLE_TAGGED_PACKET
    ensures RoomForOne(j, After(j, acts))
    ensures forall q | q in After(j, acts).queues :: QueuedBytes(q) <= j.QueueCapacity()
    decreases |acts|
  {
    if acts != [] {
      ThreeQueuesNeverOverflow(j, acts[..|acts| - 1]);
      ThreeQueueInv(j, acts[..|acts| - 1]);
      StepKeepsRoom(j, After(j, acts[..|acts| - 1]), acts[|acts| - 1]);
    }
  }

  /** A single queue never exceeds its allocation, whatever the frame sizes and whether or not the job
      is announced safely: the announcement counts every packet. */
  lemma {:induction false} OneQueueNeverOverflows(j: Job, acts: seq<Action>)
    requires j.Honest() && j.QueueCount() == 1 && Legal(j, acts)
    ensures |After(j, acts).queues| == 1
    ensures var s := After(j, acts); QueuedBytes(s.queues[0]) + QueuedBytes(s.pending) <= j.QueueCapacity()
    decreases |acts|
  {
    if acts != [] {
      var s, a := After(j, acts[..|acts| - 1]), acts[|acts| - 1];
      OneQueueNeverOverflows(j, acts[..|acts| - 1]);
      OneQueueStep(j, s, a);
    }
  }

  lemma OneQueueStep(j: Job, s: State, a: Action)
    requires |s.queues| == 1 && WellFormed(s) && Enabled(j, s, a)
    ensures var t := Apply(j, s, a);
            QueuedBytes(t.queues[0]) + QueuedBytes(t.pending) <= QueuedBytes(s.queues[0]) + QueuedBytes(s.pending)
  {
    hide QueuedBytes, MustSwitch;
    NothingQueued([]);
    if a == P(Add) {
      var p, rest := s.pending[0], s.pending[1..];
      QueuedBytesSnoc(s.queues[0], p);
      QueuedBytesSnoc([], p);
      QueuedBytesConcat([p], rest);
      assert [p] + rest == s.pending;
      assert [] + [p] == [p];
    }
  }

  // ------------------------------------------------------------------------------------------
  // Exactly when a single queue is safe
  // ------------------------------------------------------------------------------------------

  lemma Extend(j: Job, acts: seq<Action>, a: Action)
    requires Legal(j, acts) && Enabled(j, After(j, acts), a)
    ensures Legal(j, acts + [a])
    ensures After(j, acts + [a]) == Apply(j, After(j, acts), a)
  {
    assert (acts + [a])[..|acts + [a]| - 1] == acts;
  }

  /** The producer has queued the first n packets of a single-queue job and the worker has not moved. */
  function Filled(j: Job, n: nat): State
    requires j.QueueCount() == 1 && n <= |j.packets|
  {
    Init(j).(queues := [j.packets[..n]], pending := j.packets[n..])
  }

  lemma AddFills(j: Job, n: nat)
    requires j.QueueCount() == 1 && 0 < n <= |j.packets|
    ensures ProducerCan(j, Filled(j, n - 1), Add)
    ensures ProducerStep(j, Filled(j, n - 1), Add) == Filled(j, n).(producer := Added)
  {
    assert j.packets[..n - 1] + [j.packets[n - 1]] == j.packets[..n];
    assert j.packets[n - 1..][1..] == j.packets[n..];
    assert [j.packets[..n - 1]][0 := j.packets[..n]] == [j.packets[..n]];
  }

  lemma {:induction false} FillTo(j: Job, n: nat) returns (acts: seq<Action>)
    requires j.QueueCount() == 1 && n <= |j.packets|
    requires forall m | 0 < m <= n :: !MustSwitch(j, j.packets[..m])
    ensures Legal(j, acts) && After(j, acts) == Filled(j, n)
  {
    if n == 0 {
      acts := [];
      assert Init(j).queues == [j.packets[..0]];
    } else {
      hide Legal, After, QueuedBytes, MustSwitch;
      var before := FillTo(j, n - 1);
      AddFills(j, n);
      Extend(j, before, P(Add));
      Extend(j, before + [P(Add)], P(Keep));
      acts := before + [P(Add)] + [P(Keep)];
    }
  }

  /** The first packet after which the threshold test fires. */
  lemma FirstSwitch(j: Job, n: nat) returns (k: nat)
    requires 0 < n <= |j.packets| && MustSwitch(j, j.packets[..n])
    ensures 0 < k <= n && MustSwitch(j, j.packets[..k])
    ensures forall m | 0 < m < k :: !MustSwitch(j, j.packets[..m])
  {
    k := 1;
    while !MustSwitch(j, j.packets[..k])
      invariant 0 < k <= n
      invariant forall m | 0 < m < k :: !MustSwitch(j, j.packets[..m])
      decreases n - k
    {
      k := k + 1;
    }
  }

  /** With one queue the producer passes it on, acquires the spare count of the space semaphore and is
      back on the same queue while the worker is flushing it. */
  lemma SwitchOverlaps(j: Job, k: nat) returns (acts: seq<Action>)
    requires j.QueueCount() == 1 && 0 < k <= |j.packets| && MustSwitch(j, j.packets[..k])
    requires forall m | 0 < m < k :: !MustSwitch(j, j.packets[..m])
    ensures Legal(j, acts)
    ensures After(j, acts) == Filled(j, k).(space := 1, worker := Took)
  {
    hide Legal, After, QueuedBytes, MustSwitch;
    acts := FillTo(j, k - 1);
    AddFills(j, k);
    Extend(j, acts, P(Add));
    acts := acts + [P(Add)];
    Extend(j, acts, P(ReleaseData));
    acts := acts + [P(ReleaseData)];
    Extend(j, acts, W(TakeData));
    acts := acts + [W(TakeData)];
    Extend(j, acts, P(AcquireSpace));
    acts := acts + [P(AcquireSpace)];
    Extend(j, acts, P(AdvanceIn));
    acts := acts + [P(AdvanceIn)];
  }

  /** For an exact announcement, the writer and the flusher are kept apart on every schedule exactly when
      the job is announced safely. The constructor only tests the first half of that condition. */
  lemma ExclusionExactlyWhen(j: Job)
    requires j.Honest()
    ensures (forall acts: seq<Action> | Legal(j, acts) :: Exclusive(After(j, acts))) <==> Safe(j)
  {
    if Safe(j) {
      forall acts: seq<Action> | Legal(j, acts)
        ensures Exclusive(After(j, acts))
      {
        MutualExclusion(j, acts);
      }
    } else {
      assert j.packets[..|j.packets|] == j.packets;
      var k := FirstSwitch(j, |j.packets|);
      var acts := SwitchOverlaps(j, k);
      assert !Exclusive(After(j, acts));
    }
  }

  /** If the threshold can fire before the last packet of a single-queue job, some schedule loses a packet:
      it is neither transmitted nor queued nor still to come. */
  lemma PacketLost(j: Job) returns (acts: seq<Action>)
    requires j.QueueCount() == 1 && |j.packets| > 1 && MustSwitch(j, j.packets[..|j.packets| - 1])
    ensures Legal(j, acts)
    ensures var s := After(j, acts); |s.sent| + |s.queues[0]| + |s.pending| < |j.packets|
  {
    hide Legal, After, QueuedBytes, MustSwitch;
    var k := FirstSwitch(j, |j.packets| - 1);
    acts := SwitchOverlaps(j, k);
    Extend(j, acts, W(Transmit));
    acts := acts + [W(Transmit)];
    Extend(j, acts, P(Add));
    acts := acts + [P(Add)];
    Extend(j, acts, W(Reset));
    acts := acts + [W(Reset)];
  }
}
