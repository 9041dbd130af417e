/** What senders are told: how one request goes when left alone, and why any request is answered as it is. */
module SendAnswers {
  import opened Wrappers
  import opened SendDedupe

  // ---------------------------------------------------------------------------------------------
  // One request, left alone.

  /** Handler h performs its next operations one after the other, and all of them work. */
  function Alone(s: State, h: nat, steps: nat): (t: State)
    requires h < |s.handlers|
    ensures |t.handlers| == |s.handlers|
  {
    if steps == 0 then s else Operate(Alone(s, h, steps - 1), h, Works)
  }

  /** The request is at its beginning. */
  predicate Begins(s: State, h: nat) {
    h < |s.handlers| && s.handlers[h] == Reserve
  }

  lemma StepOn(s: State, h: nat, steps: nat, t: State, u: State)
    requires h < |s.handlers| && Alone(s, h, steps) == t && Operate(t, h, Works) == u
    ensures Alone(s, h, steps + 1) == u
  {
  }

  /** With the slot free, six operations store one message, put its id into the slot and answer yes with it. */
  lemma FreshSendIsStored(s: State, h: nat)
    requires Begins(s, h) && s.slot == Free
    ensures Alone(s, h, 1).slot == Pending
    ensures Alone(s, h, 6) == State(Done(|s.inserted|), s.rows + {|s.inserted|}, s.inserted + [|s.inserted|],
                                    s.acks + [Accepted(|s.inserted|)], s.handlers[h := Finished])
  {
    hide Alone;
    var id, hs := |s.inserted|, s.handlers;
    var rows, inserted := s.rows + {id}, s.inserted + [id];
    AtStart(s, h);
    StepOn(s, h, 0, s, State(Pending, s.rows, s.inserted, s.acks, hs[h := FindConversation]));
    StepOn(s, h, 1, State(Pending, s.rows, s.inserted, s.acks, hs[h := FindConversation]),
           State(Pending, s.rows, s.inserted, s.acks, hs[h := Insert]));
    StepOn(s, h, 2, State(Pending, s.rows, s.inserted, s.acks, hs[h := Insert]),
           State(Pending, rows, inserted, s.acks, hs[h := Finalize(id)]));
    StepOn(s, h, 3, State(Pending, rows, inserted, s.acks, hs[h := Finalize(id)]),
           State(Done(id), rows, inserted, s.acks, hs[h := AckNew(id)]));
    StepOn(s, h, 4, State(Done(id), rows, inserted, s.acks, hs[h := AckNew(id)]),
           State(Done(id), rows, inserted, s.acks + [Accepted(id)], hs[h := Relay(id)]));
    StepOn(s, h, 5, State(Done(id), rows, inserted, s.acks + [Accepted(id)], hs[h := Relay(id)]),
           State(Done(id), rows, inserted, s.acks + [Accepted(id)], hs[h := Finished]));
  }

  lemma AtStart(s: State, h: nat)
    requires h < |s.handlers|
    ensures Alone(s, h, 0) == s
  {
  }

  /** With the id of a stored message in the slot, four operations answer yes with it and change nothing. */
  lemma ResendIsAnswered(s: State, h: nat)
    requires Begins(s, h) && s.slot.Done? && s.slot.id in s.rows
    ensures Alone(s, h, 4) == State(s.slot, s.rows, s.inserted, s.acks + [Accepted(s.slot.id)], s.handlers[h := Finished])
  {
    hide Alone;
    var id, hs := s.slot.id, s.handlers;
    AtStart(s, h);
    StepOn(s, h, 0, s, s.(handlers := hs[h := Poll(0)]));
    StepOn(s, h, 1, s.(handlers := hs[h := Poll(0)]), s.(handlers := hs[h := Fetch(id)]));
    StepOn(s, h, 2, s.(handlers := hs[h := Fetch(id)]), s.(handlers := hs[h := AckExisting(id)]));
    StepOn(s, h, 3, s.(handlers := hs[h := AckExisting(id)]), s.(acks := s.acks + [Accepted(id)], handlers := hs[h := Finished]));
  }

  /** If that message is gone, the slot is given up and the message stored anew. */
  lemma StaleResendIsStored(s: State, h: nat)
    requires Begins(s, h) && s.slot.Done? && s.slot.id !in s.rows
    ensures Alone(s, h, 4).slot == Free
    ensures Alone(s, h, 9) == State(Done(|s.inserted|), s.rows + {|s.inserted|}, s.inserted + [|s.inserted|],
                                    s.acks + [Accepted(|s.inserted|)], s.handlers[h := Finished])
  {
    hide Alone;
    var id, hs, next := s.slot.id, s.handlers, |s.inserted|;
    var rows, inserted := s.rows + {next}, s.inserted + [next];
    AtStart(s, h);
    StepOn(s, h, 0, s, s.(handlers := hs[h := Poll(0)]));
    StepOn(s, h, 1, s.(handlers := hs[h := Poll(0)]), s.(handlers := hs[h := Fetch(id)]));
    StepOn(s, h, 2, s.(handlers := hs[h := Fetch(id)]), s.(handlers := hs[h := ReleaseStale]));
    StepOn(s, h, 3, s.(handlers := hs[h := ReleaseStale]), s.(slot := Free, handlers := hs[h := FindConversation]));
    StepOn(s, h, 4, s.(slot := Free, handlers := hs[h := FindConversation]), s.(slot := Free, handlers := hs[h := Insert]));
    StepOn(s, h, 5, s.(slot := Free, handlers := hs[h := Insert]), State(Free, rows, inserted, s.acks, hs[h := Finalize(next)]));
    StepOn(s, h, 6, State(Free, rows, inserted, s.acks, hs[h := Finalize(next)]),
           State(Done(next), rows, inserted, s.acks, hs[h := AckNew(next)]));
    StepOn(s, h, 7, State(Done(next), rows, inserted, s.acks, hs[h := AckNew(next)]),
           State(Done(next), rows, inserted, s.acks + [Accepted(next)], hs[h := Relay(next)]));
    StepOn(s, h, 8, State(Done(next), rows, inserted, s.acks + [Accepted(next)], hs[h := Relay(next)]),
           State(Done(next), rows, inserted, s.acks + [Accepted(next)], hs[h := Finished]));
  }

  lemma {:induction false} KeepsPolling(s: State, h: nat, k: nat)
    requires Begins(s, h) && s.slot == Pending && k < 10
    ensures Alone(s, h, k + 1) == s.(handlers := s.handlers[h := Poll(k)])
    decreases k
  {
    hide Alone;
    if k == 0 {
      AtStart(s, h);
      StepOn(s, h, 0, s, s.(handlers := s.handlers[h := Poll(0)]));
    } else {
      KeepsPolling(s, h, k - 1);
      StepOn(s, h, k, s.(handlers := s.handlers[h := Poll(k - 1)]), s.(handlers := s.handlers[h := Poll(k)]));
    }
  }

  /** While another request is under way the slot is read ten times, and then the answer is no. */
  lemma PendingSendIsRefused(s: State, h: nat)
    requires Begins(s, h) && s.slot == Pending
    ensures Alone(s, h, 12) == State(Pending, s.rows, s.inserted, s.acks + [Refused], s.handlers[h := Finished])
    ensures forall k: nat | k < 12 :: Alone(s, h, k).acks == s.acks
  {
    hide Alone;
    var hs := s.handlers;
    AtStart(s, h);
    forall k: nat | 1 <= k < 11
      ensures Alone(s, h, k).acks == s.acks
    {
      KeepsPolling(s, h, k - 1);
    }
    KeepsPolling(s, h, 9);
    StepOn(s, h, 10, s.(handlers := hs[h := Poll(9)]), s.(handlers := hs[h := GiveUp]));
    StepOn(s, h, 11, s.(handlers := hs[h := GiveUp]), s.(acks := s.acks + [Refused], handlers := hs[h := Finished]));
  }

  /** Without a conversation the answer is no, nothing is stored, and the slot stays taken. */
  lemma NoConversationIsRefused(s: State, h: nat)
    requires h < |s.handlers| && s.handlers[h] == FindConversation
    ensures Operate(Operate(s, h, Declines), h, Works) == State(s.slot, s.rows, s.inserted, s.acks + [Refused], s.handlers[h := Finished])
  {
  }

  /** Errors in writing the slot and in recovery are dropped where they occur. */
  predicate Raises(pc: Pc) {
    !pc.ReleaseStale? && !pc.Finalize? && !pc.Recover? && !pc.AckError? && !pc.Finished?
  }

  /** Any other error is answered with no, and the slot is freed for the next attempt; if freeing it fails
  the answer is the same. */
  lemma FailureIsRefused(s: State, h: nat, outcome: Outcome)
    requires h < |s.handlers| && Raises(s.handlers[h])
    ensures Operate(Operate(Operate(s, h, Throws), h, outcome), h, Works)
            == State(if outcome.Works? then Free else s.slot, s.rows, s.inserted, s.acks + [Refused], s.handlers[h := Finished])
  {
    var t := Operate(s, h, Throws);
    assert t == s.(handlers := s.handlers[h := Recover]);
  }

  /** A stored message is answered with yes even if its id could not be written to the slot. */
  lemma LostWriteIsAccepted(s: State, h: nat, id: nat, outcome: Outcome)
    requires h < |s.handlers| && s.handlers[h] == Finalize(id)
    ensures Operate(Operate(Operate(s, h, outcome), h, Works), h, Works)
            == State(if outcome.Works? then Done(id) else s.slot, s.rows, s.inserted, s.acks + [Accepted(id)], s.handlers[h := Finished])
  {
  }

  // ---------------------------------------------------------------------------------------------
  // Any request, in any run.

  /** What happened to one handler: how often it read the slot without finding an id, whether it was told
  there is no conversation, whether an operation raised an error, what it stored, which stored messages it
  looked up, and what it answered. */
  datatype Track = Track(looks: nat, declined: bool, failed: bool, stored: set<nat>, found: set<nat>, answers: seq<Ack>)

  const NOTHING := Track(0, false, false, {}, {}, [])

  /** What an operation adds. */
  function Happened(t: Track, s: State, h: nat, outcome: Outcome): Track
    requires h < |s.handlers|
  {
    var pc, after := s.handlers[h], Operate(s, h, outcome);
    Track(
      t.looks + (if pc.Poll? && !outcome.Throws? && !s.slot.Done? then 1 else 0),
      t.declined || (pc.FindConversation? && outcome.Declines?),
      t.failed || (Raises(pc) && outcome.Throws?),
      t.stored + (if |after.inserted| > |s.inserted| then {|s.inserted|} else {}),
      t.found + (if pc.Fetch? && !outcome.Throws? && pc.id in s.rows then {pc.id} else {}),
      t.answers + (if |after.acks| > |s.acks| then [after.acks[|s.acks|]] else []))
  }

  /** What happened to handler h over a run. */
  function TrackOf(actions: seq<Action>, h: nat): Track {
    if actions == [] then NOTHING
    else
      var before, a := actions[..|actions| - 1], actions[|actions| - 1];
      var s := Exec(before);
      if a.Run? && a.h == h && h < |s.handlers| then Happened(TrackOf(before, h), s, h, a.outcome) else TrackOf(before, h)
  }

  /** Every answer has its reason: a yes names a message the handler stored or looked up, a no comes after ten
  reads of the slot without an id, without a conversation, or after an error. */
  ghost predicate Reasoned(t: Track) {
    && (forall id | Accepted(id) in t.answers :: id in t.stored || id in t.found)
    && (Refused in t.answers ==> t.looks == 10 || t.declined || t.failed)
  }

  /** How far the handler is tells what happened to it. */
  ghost predicate Fits(t: Track, pc: Pc) {
    && Reasoned(t) && (Refused in t.answers ==> pc.Finished?)
    && match pc
       case Reserve => t.looks == 0
       case Poll(done) => t.looks == done < 10
       case GiveUp => t.looks == 10
       case RefuseConversation => t.declined
       case Recover => t.failed
       case AckError => t.failed
       case AckExisting(id) => id in t.found
       case Finalize(id) => id in t.stored
       case AckNew(id) => id in t.stored
       case Relay(id) => id in t.stored
       case _ => true
  }

  lemma OperationFits(t: Track, s: State, h: nat, outcome: Outcome)
    requires h < |s.handlers| && Fits(t, s.handlers[h])
    ensures Fits(Happened(t, s, h, outcome), Operate(s, h, outcome).handlers[h])
  {
  }

  lemma OthersStay(s: State, a: Action, h: nat)
    requires h < |s.handlers| && !(a.Run? && a.h == h)
    ensures h < |Next(s, a).handlers| && Next(s, a).handlers[h] == s.handlers[h]
  {
  }

  lemma NewcomersBegin(s: State, a: Action, h: nat)
    requires |s.handlers| <= h < |Next(s, a).handlers|
    ensures Next(s, a).handlers[h] == Reserve
  {
  }

  lemma {:induction false} TracksFit(actions: seq<Action>, h: nat)
    ensures if h < |Exec(actions).handlers| then Fits(TrackOf(actions, h), Exec(actions).handlers[h])
            else TrackOf(actions, h) == NOTHING
    decreases |actions|
  {
    hide Operate, Happened, Fits, Next;
    if actions == [] {
    } else {
      var before, a := actions[..|actions| - 1], actions[|actions| - 1];
      var s := Exec(before);
      TracksFit(before, h);
      if h >= |s.handlers| {
        if h < |Next(s, a).handlers| { NewcomersBegin(s, a, h); }
        NothingFits();
        FewerBefore(s, a, h);
      } else if a.Run? && a.h == h {
        OperationFits(TrackOf(before, h), s, h, a.outcome);
        RunOperates(s, h, a.outcome);
      } else {
        OthersStay(s, a, h);
      }
    }
  }

  lemma NothingFits()
    ensures Fits(NOTHING, Reserve)
  {
  }

  lemma FewerBefore(s: State, a: Action, h: nat)
    requires |s.handlers| <= h
    ensures a.Run? && a.h == h ==> Next(s, a) == s
  {
  }

  lemma RunOperates(s: State, h: nat, outcome: Outcome)
    requires h < |s.handlers|
    ensures Next(s, Run(h, outcome)) == Operate(s, h, outcome) && |Operate(s, h, outcome).handlers| == |s.handlers|
  {
  }

  /** Over every run, whatever goes wrong: each answer of each handler has its reason. */
  lemma AnswersHaveReasons(actions: seq<Action>, h: nat)
    ensures Reasoned(TrackOf(actions, h))
  {
    hide Exec, TrackOf;
    TracksFit(actions, h);
  }

  /** How many answers a handler has given. */
  ghost predicate AnswersFit(t: Track, pc: Pc) {
    if pc.Finished? then |t.answers| <= 1 && (|t.answers| == 1 || t.failed)
    else |t.answers| == if pc.Relay? then 1 else 0
  }

  lemma OperationAnswers(t: Track, s: State, h: nat, outcome: Outcome)
    requires h < |s.handlers| && AnswersFit(t, s.handlers[h]) && Fits(t, s.handlers[h]) && FaultOf(s, Run(h, outcome)) == None
    ensures AnswersFit(Happened(t, s, h, outcome), Operate(s, h, outcome).handlers[h])
  {
  }

  /** Without faults a handler answers at most once, and if it has finished without an error it has answered. */
  lemma {:induction false} AnswersOnce(actions: seq<Action>, h: nat)
    requires OnlyFaults(actions, {})
    ensures |TrackOf(actions, h).answers| <= 1
    ensures h < |Exec(actions).handlers| ==> AnswersFit(TrackOf(actions, h), Exec(actions).handlers[h])
    decreases |actions|
  {
    hide Operate, Happened, Fits, Next, FaultOf;
    TracksFit(actions, h);
    if actions != [] {
      var before, a := actions[..|actions| - 1], actions[|actions| - 1];
      var s := Exec(before);
      AllowedBefore(actions, {});
      assert StepAllowed(actions, |actions| - 1, {});
      AnswersOnce(before, h);
      TracksFit(before, h);
      if h >= |s.handlers| {
        if h < |Next(s, a).handlers| { NewcomersBegin(s, a, h); }
        FewerBefore(s, a, h);
      } else if a.Run? && a.h == h {
        OperationAnswers(TrackOf(before, h), s, h, a.outcome);
        RunOperates(s, h, a.outcome);
      } else {
        OthersStay(s, a, h);
      }
    }
  }
}
