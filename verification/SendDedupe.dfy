/**
 * Idempotent sending: concurrent handlers for one device and temporary id share a set-if-absent slot.
 *
 * Each handler is a program of atomic operations on the slot and on the message table; any number of
 * handlers may be under way, and a run is any interleaving of their operations.
 */
module SendDedupe {
  import opened Wrappers

  const POLLS := 10

  datatype Slot = Free | Pending | Done(id: nat)

  /** What a handler does next. */
  datatype Pc =
    | Reserve
    | Poll(done: nat)
    | GiveUp
    | Fetch(id: nat)
    | AckExisting(id: nat)
    | ReleaseStale
    | FindConversation
    | RefuseConversation
    | Insert
    | Finalize(id: nat)
    | AckNew(id: nat)
    | Relay(id: nat)
    | Recover
    | AckError
    | Finished

  datatype Ack = Accepted(id: nat) | Refused

  datatype State = State(slot: Slot, rows: set<nat>, inserted: seq<nat>, acks: seq<Ack>, handlers: seq<Pc>)

  const INITIAL := State(Free, {}, [], [], [])

  /** How the operation goes: it takes effect; it raises an error; or it answers no, which for a lookup
  means there is no conversation and for a slot write means the error was logged and dropped. */
  datatype Outcome = Works | Throws | Declines

  datatype Action =
    | Arrive
    | Run(h: nat, outcome: Outcome)
    | Expire
    | DeleteRow(id: nat)

  // ---------------------------------------------------------------------------------------------
  // One operation.

  /** Handler h goes on to pc. */
  function Goto(s: State, h: nat, pc: Pc): State
    requires h < |s.handlers|
  {
    s.(handlers := s.handlers[h := pc])
  }

  function SendAck(s: State, a: Ack): State {
    s.(acks := s.acks + [a])
  }

  function Store(s: State, id: nat): State {
    s.(rows := s.rows + {id}, inserted := s.inserted + [id])
  }

  /** Handler h performs its next operation. */
  function Operate(s: State, h: nat, outcome: Outcome): State
    requires h < |s.handlers|
  {
    match s.handlers[h]
    case Reserve =>
      if outcome.Throws? then Goto(s, h, Recover)
      else if s.slot == Free then Goto(s.(slot := Pending), h, FindConversation)
      else Goto(s, h, Poll(0))
    case Poll(done) =>
      if outcome.Throws? then Goto(s, h, Recover)
      else if s.slot.Done? then Goto(s, h, Fetch(s.slot.id))
      else if done + 1 < POLLS then Goto(s, h, Poll(done + 1))
      else Goto(s, h, GiveUp)
    case GiveUp =>
      if outcome.Throws? then Goto(s, h, Recover) else Goto(SendAck(s, Refused), h, Finished)
    case Fetch(id) =>
      if outcome.Throws? then Goto(s, h, Recover)
      else if id in s.rows then Goto(s, h, AckExisting(id))
      else Goto(s, h, ReleaseStale)
    case AckExisting(id) =>
      if outcome.Throws? then Goto(s, h, Recover) else Goto(SendAck(s, Accepted(id)), h, Finished)
    case ReleaseStale =>
      Goto(if outcome.Works? then s.(slot := Free) else s, h, FindConversation)
    case FindConversation =>
      if outcome.Throws? then Goto(s, h, Recover)
      else if outcome.Declines? then Goto(s, h, RefuseConversation)
      else Goto(s, h, Insert)
    case RefuseConversation =>
      if outcome.Throws? then Goto(s, h, Recover) else Goto(SendAck(s, Refused), h, Finished)
    case Insert =>
      if outcome.Throws? then Goto(s, h, Recover)
      else Goto(Store(s, |s.inserted|), h, Finalize(|s.inserted|))
    case Finalize(id) =>
      Goto(if outcome.Works? then s.(slot := Done(id)) else s, h, AckNew(id))
    case AckNew(id) =>
      if outcome.Throws? then Goto(s, h, Recover) else Goto(SendAck(s, Accepted(id)), h, Relay(id))
    case Relay(_) =>
      if outcome.Throws? then Goto(s, h, Recover) else Goto(s, h, Finished)
    case Recover =>
      Goto(if outcome.Works? then s.(slot := Free) else s, h, AckError)
    case AckError =>
      Goto(if outcome.Throws? then s else SendAck(s, Refused), h, Finished)
    case Finished => s
  }

  function Next(s: State, a: Action): State {
    match a
    case Arrive => s.(handlers := s.handlers + [Reserve])
    case Run(h, outcome) => if h < |s.handlers| then Operate(s, h, outcome) else s
    case Expire => s.(slot := Free)
    case DeleteRow(id) => s.(rows := s.rows - {id})
  }

  /** The state after a sequence of actions: every sequence is an interleaving. */
  function Exec(actions: seq<Action>): State {
    if actions == [] then INITIAL else Next(Exec(actions[..|actions| - 1]), actions[|actions| - 1])
  }

  // ---------------------------------------------------------------------------------------------
  // The same operations on shared state.

  class Server {
    var slot: Slot
    var rows: set<nat>
    var inserted: seq<nat>
    var acks: seq<Ack>
    var handlers: seq<Pc>

    function Current(): State
      reads this
    {
      State(slot, rows, inserted, acks, handlers)
    }

    constructor ()
      ensures Current() == INITIAL
    {
      slot, rows, inserted, acks, handlers := Free, {}, [], [], [];
    }

    /** Claim the slot if nobody has it. */
    method SetIfAbsent() returns (ok: bool)
      modifies `slot
      ensures ok == (old(slot) == Free) && slot == if ok then Pending else old(slot)
    {
      ok := slot == Free;
      if ok { slot := Pending; }
    }

    method ReserveSlot(h: nat, outcome: Outcome)
      requires h < |handlers| && handlers[h].Reserve?
      modifies this
      ensures Current() == Next(old(Current()), Run(h, outcome))
    {
      if outcome.Throws? {
        handlers := handlers[h := Recover];
      } else {
        var ok := SetIfAbsent();
        handlers := handlers[h := if ok then FindConversation else Poll(0)];
      }
    }

    method PollSlot(h: nat, outcome: Outcome)
      requires h < |handlers| && handlers[h].Poll?
      modifies this
      ensures Current() == Next(old(Current()), Run(h, outcome))
    {
      var next := GiveUp;
      if outcome.Throws? {
        next := Recover;
      } else if slot.Done? {
        next := Fetch(slot.id);
      } else if handlers[h].done + 1 < POLLS {
        next := Poll(handlers[h].done + 1);
      }
      handlers := handlers[h := next];
    }

    /** One transaction stores the message under a new id. */
    method InsertMessage(h: nat, outcome: Outcome)
      requires h < |handlers| && handlers[h].Insert?
      modifies this
      ensures Current() == Next(old(Current()), Run(h, outcome))
    {
      if outcome.Throws? {
        handlers := handlers[h := Recover];
      } else {
        var id := |inserted|;
        rows, inserted := rows + {id}, inserted + [id];
        handlers := handlers[h := Finalize(id)];
      }
    }

    method CompleteSlot(h: nat, outcome: Outcome)
      requires h < |handlers| && handlers[h].Finalize?
      modifies this
      ensures Current() == Next(old(Current()), Run(h, outcome))
    {
      var id := handlers[h].id;
      if outcome.Works? { slot := Done(id); }
      handlers := handlers[h := AckNew(id)];
    }

    method ReleaseSlot(h: nat, outcome: Outcome)
      requires h < |handlers| && (handlers[h].ReleaseStale? || handlers[h].Recover?)
      modifies this
      ensures Current() == Next(old(Current()), Run(h, outcome))
    {
      if outcome.Works? { slot := Free; }
      handlers := handlers[h := if handlers[h].Recover? then AckError else FindConversation];
    }

    method Answer(h: nat, a: Ack, next: Pc)
      requires h < |handlers|
      modifies `acks, `handlers
      ensures acks == old(acks) + [a] && handlers == old(handlers)[h := next]
    {
      acks := acks + [a];
      handlers := handlers[h := next];
    }

    /** Whatever handler h does next. */
    method Advance(h: nat, outcome: Outcome)
      requires h < |handlers|
      modifies this
      ensures Current() == Next(old(Current()), Run(h, outcome))
    {
      var pc := handlers[h];
      if pc.Reserve? {
        ReserveSlot(h, outcome);
      } else if pc.Poll? {
        PollSlot(h, outcome);
      } else if pc.Insert? {
        InsertMessage(h, outcome);
      } else if pc.Finalize? {
        CompleteSlot(h, outcome);
      } else if pc.ReleaseStale? || pc.Recover? {
        ReleaseSlot(h, outcome);
      } else if pc.AckError? || pc.Finished? {
        if pc.AckError? && !outcome.Throws? { acks := acks + [Refused]; }
        handlers := handlers[h := Finished];
      } else if outcome.Throws? {
        handlers := handlers[h := Recover];
      } else if pc.GiveUp? || pc.RefuseConversation? {
        Answer(h, Refused, Finished);
      } else if pc.AckExisting? {
        Answer(h, Accepted(pc.id), Finished);
      } else if pc.AckNew? {
        Answer(h, Accepted(pc.id), Relay(pc.id));
      } else if pc.Fetch? {
        handlers := handlers[h := if pc.id in rows then AckExisting(pc.id) else ReleaseStale];
      } else if pc.FindConversation? {
        handlers := handlers[h := if outcome.Declines? then RefuseConversation else Insert];
      } else {
        handlers := handlers[h := Finished];
      }
    }
  }

  // ---------------------------------------------------------------------------------------------
  // Safety.

  /** At most one message is stored, and every positive answer names it and finds it stored. */
  ghost predicate AtMostOnce(s: State) {
    && |s.inserted| <= 1
    && forall k | 0 <= k < |s.acks| && s.acks[k].Accepted? :: s.inserted == [s.acks[k].id] && s.acks[k].id in s.rows
  }

  /** What can go wrong beyond the slot holder's own failure before its message is stored. */
  datatype Fault =
    | SlotExpired
    | RowDeleted
    | OutsiderFailed
    | FailedAfterInsert

  function FaultOf(s: State, a: Action): Option<Fault> {
    match a
    case Arrive => None
    case Expire => Some(SlotExpired)
    case DeleteRow(_) => Some(RowDeleted)
    case Run(h, outcome) =>
      if h >= |s.handlers| || !outcome.Throws? then None
      else match s.handlers[h]
        case Reserve => Some(OutsiderFailed)
        case Poll(_) => Some(OutsiderFailed)
        case GiveUp => Some(OutsiderFailed)
        case Fetch(_) => Some(OutsiderFailed)
        case AckExisting(_) => Some(OutsiderFailed)
        case AckNew(_) => Some(FailedAfterInsert)
        case Relay(_) => Some(FailedAfterInsert)
        case _ => None
  }

  /** Every fault of the run is of an allowed kind. */
  ghost predicate OnlyFaults(actions: seq<Action>, allowed: set<Fault>) {
    forall i | 0 <= i < |actions| :: StepAllowed(actions, i, allowed)
  }

  ghost predicate StepAllowed(actions: seq<Action>, i: nat, allowed: set<Fault>)
    requires i < |actions|
  {
    var f := FaultOf(Exec(actions[..i]), actions[i]);
    f == None || f.value in allowed
  }

  /** Handlers between claiming the slot and storing the message, or undoing the claim. */
  predicate Holding(pc: Pc) {
    pc.FindConversation? || pc.RefuseConversation? || pc.Insert? || pc.Recover?
  }

  /** The message a handler has in hand. */
  function Named(pc: Pc): Option<nat> {
    match pc
    case Fetch(id) => Some(id)
    case AckExisting(id) => Some(id)
    case Finalize(id) => Some(id)
    case AckNew(id) => Some(id)
    case Relay(id) => Some(id)
    case _ => None
  }

  /** Mutual exclusion: at most one handler holds the claim, the slot stays taken while it does, and
  once a message is stored nobody holds the claim again and the slot can only come to name it. */
  ghost predicate Invariant(s: State) {
    && AtMostOnce(s)
    && (forall id | id in s.inserted :: id in s.rows)
    && (s.slot.Free? ==> s.inserted == [])
    && (s.slot.Done? ==> s.inserted == [s.slot.id])
    && (forall h | 0 <= h < |s.handlers| :: HandlerOk(s, s.handlers[h]))
    && (forall g, h | 0 <= g < h < |s.handlers| :: !(Holding(s.handlers[g]) && Holding(s.handlers[h])))
  }

  ghost predicate HandlerOk(s: State, pc: Pc) {
    && !pc.ReleaseStale?
    && (Holding(pc) ==> s.inserted == [] && s.slot == Pending)
    && (Named(pc).Some? ==> s.inserted == [Named(pc).value])
  }

  /** When nothing else changes, a handler may move on to any place that fits the state. */
  lemma GotoKeeps(s: State, h: nat, pc: Pc)
    requires Invariant(s) && h < |s.handlers| && HandlerOk(s, pc)
    requires Holding(pc) ==> Holding(s.handlers[h])
    ensures Invariant(Goto(s, h, pc))
  {
    hide Named;
    var t := Goto(s, h, pc);
    forall k | 0 <= k < |t.handlers|
      ensures HandlerOk(t, t.handlers[k])
    {
      assert k != h ==> HandlerOk(s, s.handlers[k]);
    }
  }

  lemma AckKeeps(s: State, a: Ack)
    requires Invariant(s) && (a.Accepted? ==> s.inserted == [a.id])
    ensures Invariant(SendAck(s, a))
  {
    hide Named, Holding;
    var t := SendAck(s, a);
    forall k | 0 <= k < |t.handlers|
      ensures HandlerOk(t, t.handlers[k])
    {
      assert HandlerOk(s, s.handlers[k]);
    }
  }

  /** Claiming a free slot: nobody else can be holding it. */
  lemma ClaimKeeps(s: State, h: nat)
    requires Invariant(s) && s.slot == Free && h < |s.handlers|
    ensures Invariant(Goto(s.(slot := Pending), h, FindConversation))
  {
    var t := Goto(s.(slot := Pending), h, FindConversation);
    forall k | 0 <= k < |t.handlers|
      ensures HandlerOk(t, t.handlers[k]) && (k != h ==> !Holding(t.handlers[k]))
    {
      assert HandlerOk(s, s.handlers[k]);
    }
  }

  /** The holder gives the slot back. */
  lemma ReleaseKeeps(s: State, h: nat)
    requires Invariant(s) && h < |s.handlers| && s.handlers[h] == Recover
    ensures Invariant(Goto(s.(slot := Free), h, AckError))
  {
    var t := Goto(s.(slot := Free), h, AckError);
    assert HandlerOk(s, s.handlers[h]);
    forall k | 0 <= k < |t.handlers|
      ensures HandlerOk(t, t.handlers[k])
    {
      assert HandlerOk(s, s.handlers[k]);
    }
  }

  /** The holder stores its message: it is the first. */
  lemma StoreKeeps(s: State, h: nat)
    requires Invariant(s) && h < |s.handlers| && s.handlers[h] == Insert
    ensures Invariant(Goto(Store(s, |s.inserted|), h, Finalize(|s.inserted|)))
  {
    var t := Goto(Store(s, |s.inserted|), h, Finalize(|s.inserted|));
    assert HandlerOk(s, s.handlers[h]);
    forall k | 0 <= k < |t.handlers|
      ensures HandlerOk(t, t.handlers[k])
    {
      assert HandlerOk(s, s.handlers[k]);
    }
  }

  /** Recording the stored message in the slot. */
  lemma FinalizeKeeps(s: State, h: nat, id: nat)
    requires Invariant(s) && h < |s.handlers| && s.handlers[h] == Finalize(id)
    ensures Invariant(Goto(s.(slot := Done(id)), h, AckNew(id)))
  {
    var t := Goto(s.(slot := Done(id)), h, AckNew(id));
    assert HandlerOk(s, s.handlers[h]);
    forall k | 0 <= k < |t.handlers|
      ensures HandlerOk(t, t.handlers[k])
    {
      assert HandlerOk(s, s.handlers[k]);
    }
  }

  lemma HandlerFacts(s: State, h: nat)
    requires Invariant(s) && h < |s.handlers|
    ensures !s.handlers[h].ReleaseStale?
    ensures s.slot.Done? ==> s.inserted == [s.slot.id]
    ensures Named(s.handlers[h]).Some? ==> s.inserted == [Named(s.handlers[h]).value] && Named(s.handlers[h]).value in s.rows
    ensures Holding(s.handlers[h]) ==> s.inserted == [] && s.slot == Pending
  {
    assert HandlerOk(s, s.handlers[h]);
    assert Named(s.handlers[h]).Some? ==> Named(s.handlers[h]).value in s.inserted;
  }

  lemma FitsPlain(s: State, pc: Pc)
    requires !Holding(pc) && !pc.ReleaseStale? && (Named(pc).Some? ==> s.inserted == [Named(pc).value])
    ensures HandlerOk(s, pc)
  {
  }

  lemma FitsHolder(s: State, pc: Pc)
    requires Holding(pc) && s.inserted == [] && s.slot == Pending
    ensures HandlerOk(s, pc)
  {
  }

  /** Move on without touching anything. */
  lemma MoveKeeps(s: State, h: nat, pc: Pc)
    requires Invariant(s) && h < |s.handlers| && !pc.ReleaseStale?
    requires Holding(pc) ==> Holding(s.handlers[h])
    requires Named(pc).Some? ==> s.inserted == [Named(pc).value]
    ensures Invariant(Goto(s, h, pc))
  {
    hide Invariant, HandlerOk, Goto;
    HandlerFacts(s, h);
    if Holding(pc) { FitsHolder(s, pc); } else { FitsPlain(s, pc); }
    GotoKeeps(s, h, pc);
  }

  /** Answer and move on. */
  lemma AnswerKeeps(s: State, h: nat, a: Ack, pc: Pc)
    requires Invariant(s) && h < |s.handlers| && (a.Accepted? ==> s.inserted == [a.id])
    requires !Holding(pc) && !pc.ReleaseStale? && (Named(pc).Some? ==> s.inserted == [Named(pc).value])
    ensures Invariant(Goto(SendAck(s, a), h, pc))
  {
    hide Invariant, HandlerOk;
    AckKeeps(s, a);
    MoveKeeps(SendAck(s, a), h, pc);
  }

  /** Every operation that is not a fault keeps the invariant. */
  lemma OperateKeeps(s: State, h: nat, outcome: Outcome)
    requires Invariant(s) && h < |s.handlers| && FaultOf(s, Run(h, outcome)) == None
    ensures Invariant(Operate(s, h, outcome))
  {
    hide Invariant, HandlerOk, Goto, SendAck, Store;
    HandlerFacts(s, h);
    match s.handlers[h] {
      case Reserve =>
        if s.slot == Free { ClaimKeeps(s, h); } else { MoveKeeps(s, h, Poll(0)); }
      case Poll(done) =>
        MoveKeeps(s, h, if s.slot.Done? then Fetch(s.slot.id) else if done + 1 < POLLS then Poll(done + 1) else GiveUp);
      case GiveUp => AnswerKeeps(s, h, Refused, Finished);
      case Fetch(id) => MoveKeeps(s, h, AckExisting(id));
      case AckExisting(id) => AnswerKeeps(s, h, Accepted(id), Finished);
      case FindConversation =>
        MoveKeeps(s, h, if outcome.Throws? then Recover else if outcome.Declines? then RefuseConversation else Insert);
      case RefuseConversation =>
        if outcome.Throws? { MoveKeeps(s, h, Recover); } else { AnswerKeeps(s, h, Refused, Finished); }
      case Insert =>
        if outcome.Throws? { MoveKeeps(s, h, Recover); } else { StoreKeeps(s, h); }
      case Finalize(id) =>
        if outcome.Works? { FinalizeKeeps(s, h, id); } else { MoveKeeps(s, h, AckNew(id)); }
      case AckNew(id) => AnswerKeeps(s, h, Accepted(id), Relay(id));
      case Relay(_) => MoveKeeps(s, h, Finished);
      case Recover =>
        if outcome.Works? { ReleaseKeeps(s, h); } else { MoveKeeps(s, h, AckError); }
      case AckError =>
        if outcome.Throws? { MoveKeeps(s, h, Finished); } else { AnswerKeeps(s, h, Refused, Finished); }
      case _ =>
    }
  }

  lemma ArriveKeeps(s: State)
    requires Invariant(s)
    ensures Invariant(s.(handlers := s.handlers + [Reserve]))
  {
    var t := s.(handlers := s.handlers + [Reserve]);
    FitsPlain(t, Reserve);
    forall k | 0 <= k < |t.handlers|
      ensures HandlerOk(t, t.handlers[k])
    {
      assert k < |s.handlers| ==> HandlerOk(s, s.handlers[k]);
    }
  }

  /** Over every interleaving in which the only failures are the slot holder's own before its message
  is stored, at most one message is stored and every positive answer carries it. */
  lemma {:induction false} SendIsIdempotent(actions: seq<Action>)
    requires OnlyFaults(actions, {})
    ensures Invariant(Exec(actions)) && AtMostOnce(Exec(actions))
    decreases |actions|
  {
    hide Operate, FaultOf, HandlerOk, Holding;
    if actions != [] {
      var before, a := actions[..|actions| - 1], actions[|actions| - 1];
      assert StepAllowed(actions, |actions| - 1, {});
      AllowedBefore(actions, {});
      SendIsIdempotent(before);
      FaultlessKeeps(Exec(before), a);
    }
  }

  lemma FaultlessKeeps(s: State, a: Action)
    requires Invariant(s) && FaultOf(s, a) == None
    ensures Invariant(Next(s, a))
  {
    hide Invariant, Operate;
    if a.Arrive? { ArriveKeeps(s); }
    if a.Run? && a.h < |s.handlers| { OperateKeeps(s, a.h, a.outcome); }
  }

  lemma AllowedBefore(actions: seq<Action>, allowed: set<Fault>)
    requires OnlyFaults(actions, allowed) && actions != []
    ensures OnlyFaults(actions[..|actions| - 1], allowed)
  {
    hide Exec, FaultOf;
    var before := actions[..|actions| - 1];
    forall i | 0 <= i < |before|
      ensures StepAllowed(before, i, allowed)
    {
      assert StepAllowed(actions, i, allowed);
      assert before[..i] == actions[..i];
    }
  }

  /** A server that performs the actions one after another is where the interleaving leads; without
  faults it has stored at most one message, and its positive answers carry it. */
  method Serve(actions: seq<Action>) returns (server: Server)
    ensures server.Current() == Exec(actions)
    ensures OnlyFaults(actions, {}) ==> AtMostOnce(server.Current())
  {
    hide Operate, FaultOf, AtMostOnce;
    server := new Server();
    for i := 0 to |actions|
      invariant fresh(server) && server.Current() == Exec(actions[..i])
    {
      assert actions[..i + 1][..i] == actions[..i];
      var a := actions[i];
      if a.Arrive? {
        server.handlers := server.handlers + [Reserve];
      } else if a.Run? {
        if a.h < |server.handlers| { server.Advance(a.h, a.outcome); }
      } else if a.Expire? {
        server.slot := Free;
      } else {
        server.rows := server.rows - {a.id};
      }
    }
    assert actions[..|actions|] == actions;
    if OnlyFaults(actions, {}) { SendIsIdempotent(actions); }
  }

  // ---------------------------------------------------------------------------------------------
  // The condition is exact.

  /** A run that so far has only faults of the allowed kinds and stands in this state. */
  ghost predicate Reaches(actions: seq<Action>, allowed: set<Fault>, s: State) {
    OnlyFaults(actions, allowed) && Exec(actions) == s
  }

  lemma Extend(actions: seq<Action>, allowed: set<Fault>, s: State, a: Action) returns (longer: seq<Action>)
    requires Reaches(actions, allowed, s)
    requires FaultOf(s, a) == None || FaultOf(s, a).value in allowed
    ensures Reaches(longer, allowed, Next(s, a))
  {
    hide Next, FaultOf;
    longer := actions + [a];
    assert longer[..|actions|] == actions;
    forall i | 0 <= i < |longer|
      ensures StepAllowed(longer, i, allowed)
    {
      if i < |actions| {
        assert StepAllowed(actions, i, allowed);
        assert longer[..i] == actions[..i];
      }
    }
  }

  lemma NoActions(allowed: set<Fault>)
    ensures Reaches([], allowed, INITIAL)
  {
  }

  /** One handler has claimed the slot and is about to store its message. */
  lemma AboutToInsert(allowed: set<Fault>) returns (run: seq<Action>)
    ensures Reaches(run, allowed, State(Pending, {}, [], [], [Insert]))
  {
    hide Reaches;
    run := [];
    NoActions(allowed);
    run := Extend(run, allowed, INITIAL, Arrive);
    assert Next(INITIAL, Arrive).handlers == [Reserve];
    run := Extend(run, allowed, State(Free, {}, [], [], [Reserve]), Run(0, Works));
    assert [Reserve][0 := FindConversation] == [FindConversation];
    run := Extend(run, allowed, State(Pending, {}, [], [], [FindConversation]), Run(0, Works));
    assert [FindConversation][0 := Insert] == [Insert];
  }

  /** With the slot free again while handler 0 is about to store, another handler stores too. */
  lemma SecondStores(run: seq<Action>, allowed: set<Fault>) returns (longer: seq<Action>)
    requires Reaches(run, allowed, State(Free, {}, [], [], [Insert]))
    ensures OnlyFaults(longer, allowed) && !AtMostOnce(Exec(longer))
  {
    longer := Extend(run, allowed, State(Free, {}, [], [], [Insert]), Arrive);
    longer := Extend(longer, allowed, State(Free, {}, [], [], [Insert, Reserve]), Run(1, Works));
    longer := Extend(longer, allowed, State(Pending, {}, [], [], [Insert, FindConversation]), Run(1, Works));
    longer := Extend(longer, allowed, State(Pending, {}, [], [], [Insert, Insert]), Run(0, Works));
    longer := Extend(longer, allowed, State(Pending, {0}, [0], [], [Finalize(0), Insert]), Run(1, Works));
  }

  lemma ExpiryDuplicates(allowed: set<Fault>) returns (run: seq<Action>)
    requires SlotExpired in allowed
    ensures OnlyFaults(run, allowed) && !AtMostOnce(Exec(run))
  {
    hide Reaches;
    run := AboutToInsert(allowed);
    run := Extend(run, allowed, State(Pending, {}, [], [], [Insert]), Expire);
    run := SecondStores(run, allowed);
  }

  /** A handler that was only waiting fails, and gives back a slot it never held. */
  lemma OutsiderFrees(allowed: set<Fault>) returns (run: seq<Action>)
    requires OutsiderFailed in allowed
    ensures Reaches(run, allowed, State(Free, {}, [], [], [Insert, AckError]))
  {
    run := AboutToInsert(allowed);
    run := Extend(run, allowed, State(Pending, {}, [], [], [Insert]), Arrive);
    run := Extend(run, allowed, State(Pending, {}, [], [], [Insert, Reserve]), Run(1, Works));
    run := Extend(run, allowed, State(Pending, {}, [], [], [Insert, Poll(0)]), Run(1, Throws));
    run := Extend(run, allowed, State(Pending, {}, [], [], [Insert, Recover]), Run(1, Works));
  }

  lemma OutsiderDuplicates(allowed: set<Fault>) returns (run: seq<Action>)
    requires OutsiderFailed in allowed
    ensures OnlyFaults(run, allowed) && !AtMostOnce(Exec(run))
  {
    run := OutsiderFrees(allowed);
    run := Extend(run, allowed, State(Free, {}, [], [], [Insert, AckError]), Arrive);
    run := Extend(run, allowed, State(Free, {}, [], [], [Insert, AckError, Reserve]), Run(2, Works));
    run := Extend(run, allowed, State(Pending, {}, [], [], [Insert, AckError, FindConversation]), Run(2, Works));
    run := Extend(run, allowed, State(Pending, {}, [], [], [Insert, AckError, Insert]), Run(0, Works));
    run := Extend(run, allowed, State(Pending, {0}, [0], [], [Finalize(0), AckError, Insert]), Run(2, Works));
  }

  /** One message is stored and the slot names it. */
  lemma Recorded(allowed: set<Fault>) returns (run: seq<Action>)
    ensures Reaches(run, allowed, State(Done(0), {0}, [0], [], [AckNew(0)]))
  {
    run := AboutToInsert(allowed);
    run := Extend(run, allowed, State(Pending, {}, [], [], [Insert]), Run(0, Works));
    run := Extend(run, allowed, State(Pending, {0}, [0], [], [Finalize(0)]), Run(0, Works));
  }

  lemma LateFailureDuplicates(allowed: set<Fault>) returns (run: seq<Action>)
    requires FailedAfterInsert in allowed
    ensures OnlyFaults(run, allowed) && !AtMostOnce(Exec(run))
  {
    run := Recorded(allowed);
    run := Extend(run, allowed, State(Done(0), {0}, [0], [], [AckNew(0)]), Run(0, Throws));
    run := Extend(run, allowed, State(Done(0), {0}, [0], [], [Recover]), Run(0, Works));
    run := Extend(run, allowed, State(Free, {0}, [0], [], [AckError]), Arrive);
    run := Extend(run, allowed, State(Free, {0}, [0], [], [AckError, Reserve]), Run(1, Works));
    run := Extend(run, allowed, State(Pending, {0}, [0], [], [AckError, FindConversation]), Run(1, Works));
    run := Extend(run, allowed, State(Pending, {0}, [0], [], [AckError, Insert]), Run(1, Works));
  }

  lemma DeletionDuplicates(allowed: set<Fault>) returns (run: seq<Action>)
    requires RowDeleted in allowed
    ensures OnlyFaults(run, allowed) && !AtMostOnce(Exec(run))
  {
    run := Recorded(allowed);
    run := Extend(run, allowed, State(Done(0), {0}, [0], [], [AckNew(0)]), DeleteRow(0));
    run := Extend(run, allowed, State(Done(0), {}, [0], [], [AckNew(0)]), Arrive);
    run := Extend(run, allowed, State(Done(0), {}, [0], [], [AckNew(0), Reserve]), Run(1, Works));
    run := Extend(run, allowed, State(Done(0), {}, [0], [], [AckNew(0), Poll(0)]), Run(1, Works));
    run := Extend(run, allowed, State(Done(0), {}, [0], [], [AckNew(0), Fetch(0)]), Run(1, Works));
    run := Extend(run, allowed, State(Done(0), {}, [0], [], [AckNew(0), ReleaseStale]), Run(1, Works));
    run := Extend(run, allowed, State(Free, {}, [0], [], [AckNew(0), FindConversation]), Run(1, Works));
    run := Extend(run, allowed, State(Free, {}, [0], [], [AckNew(0), Insert]), Run(1, Works));
  }

  /** Safe over every run exactly when no fault of any kind is allowed: each kind alone, in some run,
  stores the message twice. */
  lemma IdempotentExactlyWithoutFaults(allowed: set<Fault>)
    ensures (forall actions | OnlyFaults(actions, allowed) :: AtMostOnce(Exec(actions))) <==> allowed == {}
  {
    hide OnlyFaults, Exec, AtMostOnce, Invariant;
    if allowed == {} {
      forall actions | OnlyFaults(actions, allowed)
        ensures AtMostOnce(Exec(actions))
      {
        SendIsIdempotent(actions);
      }
    } else {
      var f :| f in allowed;
      var run;
      match f {
        case SlotExpired => run := ExpiryDuplicates(allowed);
        case RowDeleted => run := DeletionDuplicates(allowed);
        case OutsiderFailed => run := OutsiderDuplicates(allowed);
        case FailedAfterInsert => run := LateFailureDuplicates(allowed);
      }
    }
  }
}
