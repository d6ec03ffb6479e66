/** Exactly when the queued sender delivers every packet, and exactly when no queue overflows: the conditions
    are on the job alone, the statements about every schedule. */
module SendDelivery {
  import opened SendPipeline

  /** A schedule that cannot be extended: the destructor has returned. */
  ghost predicate Finished(j: Job, acts: seq<Action>)
    requires Legal(j, acts)
  {
    forall a: Action :: !Enabled(j, After(j, acts), a)
  }

  /** Any legal schedule can be continued until it is finished. */
  lemma {:induction false} Finish(j: Job, acts: seq<Action>) returns (all: seq<Action>)
    requires Legal(j, acts)
    ensures Legal(j, all) && Finished(j, all)
    ensures j.QueueCount() == 1 ==> Weight(After(j, all)) <= Weight(After(j, acts))
    decreases 9 * |j.packets| + 9 - |acts|
  {
    hide After, Legal, Enabled, Apply, Weight;
    SchedulesAreBounded(j, acts);
    if a: Action :| Enabled(j, After(j, acts), a) {
      Extend(j, acts, a);
      SchedulesAreBounded(j, acts + [a]);
      if j.QueueCount() == 1 {
        QueuesStay(j, acts);
        WeightNeverGrows(j, After(j, acts), a);
      }
      all := Finish(j, acts + [a]);
    } else {
      all := acts;
    }
  }

  lemma {:induction false} QueuesStay(j: Job, acts: seq<Action>)
    requires Legal(j, acts)
    ensures |After(j, acts).queues| == j.QueueCount()
    decreases |acts|
  {
    if acts != [] {
      QueuesStay(j, acts[..|acts| - 1]);
    }
  }

  // ------------------------------------------------------------------------------------------
  // One queue that is passed on early
  // ------------------------------------------------------------------------------------------

  /** Packets that can still reach the wire, and those that have. */
  function Weight(s: State): nat {
    |s.sent| + (if s.worker.Transmitted? || |s.queues| != 1 then 0 else |s.queues[0]|) + |s.pending|
  }

  lemma WeightNeverGrows(j: Job, s: State, a: Action)
    requires |s.queues| == 1 && WellFormed(s) && Enabled(j, s, a)
    ensures Weight(Apply(j, s, a)) <= Weight(s)
  {
    hide QueuedBytes, MustSwitch;
  }

  /** A packet that was lost stays lost. */
  lemma EarlySwitchLoses(j: Job) returns (acts: seq<Action>)
    requires j.QueueCount() == 1 && !SwitchesLate(j)
    ensures Legal(j, acts) && Finished(j, acts) && After(j, acts).sent != j.packets
  {
    hide Legal, After, MustSwitch, QueuedBytes, Finished;
    var lost := PacketLost(j);
    QueuesStay(j, lost);
    acts := Finish(j, lost);
  }

  // ------------------------------------------------------------------------------------------
  // One queue that is passed on with the last packet, or not before the destructor
  // ------------------------------------------------------------------------------------------

  /** The switch threshold is not reached before the last packet. */
  predicate SwitchesLate(j: Job) {
    |j.packets| <= 1 || !MustSwitch(j, j.packets[..|j.packets| - 1])
  }

  /** The producer is filling the queue and the worker has nothing to do. */
  predicate Filling(j: Job, s: State)
    requires |s.queues| == 1
  {
    && (s.producer.Ready? || s.producer.Added?)
    && s.worker.Waiting? && s.data == 0 && s.space == 2 && s.sent == []
    && s.queues[0] + s.pending == j.packets
    && (s.producer.Added? ==> s.queues[0] != [])
  }

  /** All packets have been queued: they are in the queue or on the wire, and a wake-up for them is under way. */
  predicate Draining(j: Job, s: State)
    requires |s.queues| == 1
  {
    var queued, gone := s.sent == [] && s.queues[0] == j.packets, s.sent == j.packets && s.queues[0] == [];
    && s.pending == [] && !s.producer.Added?
    && (s.producer.WaitSpace? ==> s.space > 0)
    && (match s.worker
        case Transmitted => s.sent == j.packets && (s.queues[0] == j.packets || s.queues[0] == [])
        case Emptied => gone
        case Advanced => gone
        case _ => queued || gone)
    && (s.sent == j.packets || s.data > 0 || s.worker.Took?)
  }

  predicate LateInv(j: Job, s: State) {
    && |s.queues| == 1 && WellFormed(s) && (Filling(j, s) || Draining(j, s))
    && (s.term ==> s.producer.Joining? && !s.worker.Exited?)
    && (s.producer.Joining? && !s.worker.Exited? ==> s.term)
    && (s.worker.Exited? ==> s.data == 0 && (s.producer.Joining? || s.producer.Done?))
    && (s.producer.Done? ==> s.worker.Exited?)
  }

  /** A longer queue is at least as near to the threshold. */
  lemma ThresholdGrows(j: Job, a: seq<Packet>, b: seq<Packet>)
    requires MustSwitch(j, a)
    ensures MustSwitch(j, a + b)
  {
    QueuedBytesConcat(a, b);
  }

  lemma SwitchesWithLast(j: Job, s: State)
    requires SwitchesLate(j) && |s.queues| == 1 && Filling(j, s) && s.producer.Added? && MustSwitch(j, s.queues[0])
    ensures s.pending == []
  {
    hide MustSwitch;
    if s.pending != [] {
      var n := |j.packets| - 1;
      var more := s.pending[..|s.pending| - 1];
      assert j.packets[..n] == s.queues[0] + more;
      ThresholdGrows(j, s.queues[0], more);
    }
  }

  lemma LateProducerStep(j: Job, s: State, a: ProducerAction)
    requires SwitchesLate(j) && LateInv(j, s) && ProducerCan(j, s, a)
    ensures LateInv(j, ProducerStep(j, s, a))
  {
    hide QueuedBytes, MustSwitch, SwitchesLate;
    NothingQueued(s.queues[0]);
    match a
    case Add =>
      assert s.pending == [s.pending[0]] + s.pending[1..];
      assert s.queues[0] + s.pending == s.queues[0] + [s.pending[0]] + s.pending[1..];
    case Keep =>
    case ReleaseData =>
      SwitchesWithLast(j, s);
      assert s.queues[0] + [] == s.queues[0];
    case AcquireSpace =>
    case AdvanceIn =>
    case Destroy =>
      assert s.queues[0] + [] == s.queues[0];
    case SetTerm =>
    case Join =>
  }

  lemma LateWorkerStep(j: Job, s: State, a: WorkerAction)
    requires LateInv(j, s) && WorkerCan(s, a)
    ensures LateInv(j, WorkerStep(s, a))
  {
    match a
    case TakeData =>
    case Exit =>
    case Transmit =>
      assert [] + j.packets == j.packets && j.packets + [] == j.packets;
    case Reset =>
    case AdvanceOut =>
    case ReleaseSpace =>
  }

  lemma {:induction false} LateQueueInv(j: Job, acts: seq<Action>)
    requires j.QueueCount() == 1 && SwitchesLate(j) && Legal(j, acts)
    ensures LateInv(j, After(j, acts))
    decreases |acts|
  {
    hide SwitchesLate, ProducerStep, WorkerStep;
    if acts == [] {
      assert [] + j.packets == j.packets;
    } else {
      LateQueueInv(j, acts[..|acts| - 1]);
      var s := After(j, acts[..|acts| - 1]);
      match acts[|acts| - 1]
      case P(p) => LateProducerStep(j, s, p);
      case W(w) => LateWorkerStep(j, s, w);
    }
  }

  /** A thread can move until the destructor has returned. */
  lemma LateCanMove(j: Job, s: State) returns (a: Action)
    requires LateInv(j, s) && !s.producer.Done?
    ensures Enabled(j, s, a)
  {
    hide MustSwitch;
    match s.worker
    case Took => a := W(Transmit);
    case Transmitted => a := W(Reset);
    case Emptied => a := W(AdvanceOut);
    case Advanced => a := W(ReleaseSpace);
    case Exited => a := P(Join);
    case Waiting =>
      if s.data > 0 {
        a := W(TakeData);
      } else {
        match s.producer
        case Ready => a := P(if s.pending == [] then Destroy else Add);
        case Added => a := P(if MustSwitch(j, s.queues[s.currIn]) then ReleaseData else Keep);
        case WaitSpace => a := P(AcquireSpace);
        case GotSpace => a := P(AdvanceIn);
        case Terminating(_) => a := P(SetTerm);
        case Joining(_) => a := W(Exit);
        case Done(_) => assert false;
      }
  }

  lemma LateSwitchDelivers(j: Job, acts: seq<Action>)
    requires j.QueueCount() == 1 && SwitchesLate(j) && Legal(j, acts) && Finished(j, acts)
    ensures After(j, acts).producer.Done? && After(j, acts).sent == j.packets
  {
    hide SwitchesLate, After, Legal, Enabled;
    LateQueueInv(j, acts);
    if !After(j, acts).producer.Done? {
      var a := LateCanMove(j, After(j, acts));
    }
  }

  /** Every schedule sends all packets in order exactly when the job has three queues or its single queue does
      not reach the switch threshold before the last packet. */
  lemma DeliversExactlyWhen(j: Job)
    requires j.Honest()
    ensures (forall acts | Legal(j, acts) && Finished(j, acts) :: After(j, acts).sent == j.packets)
        <==> j.QueueCount() == MAX_SEND_QUEUES || SwitchesLate(j)
  {
    hide SwitchesLate, After, Legal, Enabled, Job.Honest, Safe;
    if j.QueueCount() == MAX_SEND_QUEUES || SwitchesLate(j) {
      forall acts | Legal(j, acts) && Finished(j, acts)
        ensures After(j, acts).sent == j.packets
      {
        if j.QueueCount() == MAX_SEND_QUEUES {
          ThreeQueuesAreSafe(j);
          EveryScheduleDelivers(j, acts);
        } else {
          LateSwitchDelivers(j, acts);
        }
      }
    } else {
      var acts := EarlySwitchLoses(j);
    }
  }

  lemma ThreeQueuesAreSafe(j: Job)
    requires j.QueueCount() == MAX_SEND_QUEUES
    ensures Safe(j)
  {
  }

  // ------------------------------------------------------------------------------------------
  // Exactly when three queues are large enough
  // ------------------------------------------------------------------------------------------

  /** Filling queues one after the other, each until the threshold, never exceeds the capacity of one. */
  predicate FitsFrom(j: Job, q: seq<Packet>, pending: seq<Packet>)
    decreases |pending|
  {
    pending == [] ||
    var filled := q + [pending[0]];
    QueuedBytes(filled) <= j.QueueCapacity()
    && FitsFrom(j, if MustSwitch(j, filled) then [] else filled, pending[1..])
  }

  /** What is still to come fits, judged from the queue the producer will write next. */
  predicate RestFits(j: Job, s: State)
    requires WellFormed(s)
  {
    var q := s.queues[s.currIn];
    match s.producer
    case Ready => FitsFrom(j, q, s.pending)
    case Added => FitsFrom(j, if MustSwitch(j, q) then [] else q, s.pending)
    case _ => FitsFrom(j, [], s.pending)
  }

  predicate AllFit(j: Job, s: State) {
    forall i | 0 <= i < |s.queues| :: QueuedBytes(s.queues[i]) <= j.QueueCapacity()
  }

  /** The next packet fits, if this is the step that queues it. */
  predicate StepFits(j: Job, s: State, a: Action)
    requires WellFormed(s) && Enabled(j, s, a)
  {
    a == P(Add) ==> QueuedBytes(s.queues[s.currIn] + [s.pending[0]]) <= j.QueueCapacity()
  }

  /** No interleaving changes what the producer will have to fit. */
  lemma RestFitsStep(j: Job, s: State, a: Action)
    requires Inv(j, s) && Enabled(j, s, a)
    ensures RestFits(j, s) <==> StepFits(j, s, a) && RestFits(j, Apply(j, s, a))
  {
    hide QueuedBytes, MustSwitch, Delivered;
    match a
    case P(p) =>
      if p.AdvanceIn? {
        GotSpaceIsEmpty(j, s);
      }
      if p.Destroy? || p.SetTerm? || p.Join? {
        assert FitsFrom(j, [], []);
      }
    case W(w) => WorkerLeavesProducerQueue(j, s, w);
  }

  lemma WorkerLeavesProducerQueue(j: Job, s: State, a: WorkerAction)
    requires Inv(j, s) && WorkerCan(s, a)
    ensures var t := WorkerStep(s, a);
            && t.currIn == s.currIn && t.producer == s.producer && t.pending == s.pending
            && (s.producer.Ready? || s.producer.Added? ==> t.queues[t.currIn] == s.queues[s.currIn])
  {
    hide QueuedBytes, Delivered;
  }

  lemma AllFitStep(j: Job, s: State, a: Action)
    requires WellFormed(s) && Enabled(j, s, a) && AllFit(j, s)
    ensures AllFit(j, Apply(j, s, a)) <==> StepFits(j, s, a)
  {
    hide QueuedBytes, MustSwitch;
    NothingQueued([]);
    var t := Apply(j, s, a);
    if a == P(Add) {
      assert t.queues[s.currIn] == s.queues[s.currIn] + [s.pending[0]];
    }
  }

  lemma {:induction false} FitAlong(j: Job, acts: seq<Action>)
    requires j.QueueCount() == MAX_SEND_QUEUES && Legal(j, acts) && FitsFrom(j, [], j.packets)
    ensures AllFit(j, After(j, acts)) && RestFits(j, After(j, acts))
    decreases |acts|
  {
    hide Apply, Enabled, StepFits, RestFits, AllFit, FitsFrom;
    if acts == [] {
      StartFits(j);
    } else {
      var before, a := acts[..|acts| - 1], acts[|acts| - 1];
      FitAlong(j, before);
      ThreeQueueInv(j, before);
      RestFitsStep(j, After(j, before), a);
      AllFitStep(j, After(j, before), a);
    }
  }

  lemma StartFits(j: Job)
    ensures AllFit(j, Init(j)) && (RestFits(j, Init(j)) <==> FitsFrom(j, [], j.packets))
  {
    NothingQueued([]);
  }

  ghost predicate NeverOverflows(j: Job) {
    forall acts | Legal(j, acts) :: AllFit(j, After(j, acts))
  }

  /** If no state along a schedule overflows, what had to fit at its start is what has to fit at its end. */
  lemma {:induction false} FitBack(j: Job, acts: seq<Action>)
    requires j.QueueCount() == MAX_SEND_QUEUES && Legal(j, acts)
    requires NeverOverflows(j)
    ensures FitsFrom(j, [], j.packets) <==> RestFits(j, After(j, acts))
    decreases |acts|
  {
    hide Apply, Enabled, StepFits, RestFits, AllFit, FitsFrom;
    if acts == [] {
      StartFits(j);
    } else {
      var before, a := acts[..|acts| - 1], acts[|acts| - 1];
      FitBack(j, before);
      ThreeQueueInv(j, before);
      assert AllFit(j, After(j, before)) && AllFit(j, After(j, acts));
      RestFitsStep(j, After(j, before), a);
      AllFitStep(j, After(j, before), a);
    }
  }

  /** With three queues, no schedule ever makes a queue exceed its allocation exactly when filling queues one
      after the other does not, whatever the sizes of frames and queues. */
  lemma OverflowFreeExactlyWhen(j: Job)
    requires j.QueueCount() == MAX_SEND_QUEUES && j.Honest()
    ensures NeverOverflows(j) <==> FitsFrom(j, [], j.packets)
  {
    hide Legal, After, AllFit, RestFits, Job.Honest, Enabled, Safe, QueuedBytes, MustSwitch;
    if FitsFrom(j, [], j.packets) {
      forall acts | Legal(j, acts)
        ensures AllFit(j, After(j, acts))
      {
        FitAlong(j, acts);
      }
    } else if NeverOverflows(j) {
      NothingDone(j);
      var acts := Finish(j, []);
      ThreeQueuesAreSafe(j);
      EveryScheduleDelivers(j, acts);
      ThreeQueueInv(j, acts);
      FitBack(j, acts);
      DoneFits(j, After(j, acts));
    }
  }

  lemma NothingDone(j: Job)
    ensures Legal(j, [])
  {
  }

  lemma DoneFits(j: Job, s: State)
    requires Inv(j, s) && s.producer.Done?
    ensures RestFits(j, s)
  {
    hide Delivered;
  }

  /** Frames of at most 1522 octets fit whenever one of them fits an empty queue. */
  lemma {:induction false} SmallFramesFit(j: Job, q: seq<Packet>, pending: seq<Packet>)
    requires j.QueueCount() == MAX_SEND_QUEUES && j.maxQueueSize >= MAX_DOUBLE_TAGGED_PACKET + HEADER_SIZE
    requires q == [] || !MustSwitch(j, q)
    requires forall i | 0 <= i < |pending| :: |pending[i].octets| <= MAX_DOUBLE_TAGGED_PACKET
    ensures FitsFrom(j, q, pending)
    decreases |pending|
  {
    hide QueuedBytes;
    if pending != [] {
      NothingQueued(q);
      QueuedBytesSnoc(q, pending[0]);
      var filled := q + [pending[0]];
      SmallFramesFit(j, if MustSwitch(j, filled) then [] else filled, pending[1..]);
    }
  }
}
