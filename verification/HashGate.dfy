/** The bounded concurrency gate shared by password hashing and verification: any
    number of calls, interleaved step by step, each of which may be cancelled, fail
    to read a salt, or panic. */
module HashGate {
  import opened Domain
  import PasswordHash

  const MAXIMUM_CONCURRENCY: nat := 4

  datatype Operation = Hashing | Verifying(encoded: string)

  datatype Outcome = Cancelled | PasswordInvalid | Malformed | SaltFailed | Panicked | Completed

  /** From `Admitted` to `Exiting` the call holds a slot; `Exiting` is the deferred release. */
  datatype Call =
    | Starting(operation: Operation)
    | Waiting(operation: Operation)
    | Admitted(operation: Operation)
    | Holding(operation: Operation)
    | Salted(operation: Operation)
    | Deriving(operation: Operation)
    | Exiting(operation: Operation, outcome: Outcome)
    | Ended(operation: Operation, outcome: Outcome)

  datatype Gate = Gate(capacity: nat, occupied: nat, calls: seq<Call>)

  /** What the environment decides at one step. */
  datatype Event = Event(cancelled: bool, admit: bool, passwordOk: bool, saltOk: bool, panics: bool)

  datatype Move = Arrive(operation: Operation) | Advance(id: nat, event: Event)

  predicate Supported(operation: Operation) {
    operation.Verifying? ==> PasswordHash.Parse(operation.encoded).Some?
  }

  predicate HoldsSlot(call: Call) {
    call.Admitted? || call.Holding? || call.Salted? || call.Deriving? || call.Exiting?
  }

  function New(maxConcurrency: int): Option<Gate> {
    if maxConcurrency <= 0 || maxConcurrency > MAXIMUM_CONCURRENCY then None else Some(Gate(maxConcurrency, 0, []))
  }

  function Begin(call: Call, event: Event): Call
    requires call.Starting?
  {
    if event.cancelled then Ended(call.operation, Cancelled)
    else if !event.passwordOk then Ended(call.operation, PasswordInvalid)
    else if !Supported(call.operation) then Ended(call.operation, Malformed)
    else Waiting(call.operation)
  }

  /** The steps of a call that already holds a slot and keeps it. */
  function Work(call: Call, event: Event): Call
    requires HoldsSlot(call) && !call.Exiting?
  {
    match call
    case Admitted(op) => if event.cancelled then Exiting(op, Cancelled) else Holding(op)
    case Holding(op) =>
      if op.Hashing? then
        if event.panics then Exiting(op, Panicked)
        else if !event.saltOk then Exiting(op, SaltFailed)
        else Salted(op)
      else if event.cancelled then Exiting(op, Cancelled)
      else Deriving(op)
    case Salted(op) => if event.cancelled then Exiting(op, Cancelled) else Deriving(op)
    case Deriving(op) => Exiting(op, if event.panics then Panicked else Completed)
  }

  /** A waiting call takes a slot if one is free and the select picks it, or leaves
      when cancelled; a releasing call would block on an empty channel. */
  function Step(g: Gate, move: Move): Gate {
    match move
    case Arrive(operation) => g.(calls := g.calls + [Starting(operation)])
    case Advance(id, event) =>
      if id >= |g.calls| then g
      else
        match g.calls[id]
        case Starting(_) => g.(calls := g.calls[id := Begin(g.calls[id], event)])
        case Waiting(op) =>
          if event.admit && g.occupied < g.capacity then
            g.(calls := g.calls[id := Admitted(op)], occupied := g.occupied + 1)
          else if event.cancelled then g.(calls := g.calls[id := Ended(op, Cancelled)])
          else g
        case Exiting(op, outcome) =>
          if g.occupied == 0 then g
          else g.(calls := g.calls[id := Ended(op, outcome)], occupied := g.occupied - 1)
        case Ended(_, _) => g
        case _ => g.(calls := g.calls[id := Work(g.calls[id], event)])
  }

  function Exec(g: Gate, moves: seq<Move>): Gate
    decreases |moves|
  {
    if moves == [] then g else Exec(Step(g, moves[0]), moves[1..])
  }

  // ----- counting -----

  function Holders(calls: seq<Call>): nat
    decreases |calls|
  {
    if calls == [] then 0 else (if HoldsSlot(calls[0]) then 1 else 0) + Holders(calls[1..])
  }

  function Derivations(calls: seq<Call>): nat
    decreases |calls|
  {
    if calls == [] then 0 else (if calls[0].Deriving? then 1 else 0) + Derivations(calls[1..])
  }

  lemma {:induction false} DerivationsHold(calls: seq<Call>)
    ensures Derivations(calls) <= Holders(calls)
    decreases |calls|
  {
    if calls != [] {
      DerivationsHold(calls[1..]);
    }
  }

  lemma {:induction false} HoldersUpdate(calls: seq<Call>, id: nat, call: Call)
    requires id < |calls|
    ensures Holders(calls[id := call])
         == Holders(calls) - (if HoldsSlot(calls[id]) then 1 else 0) + (if HoldsSlot(call) then 1 else 0)
    decreases |calls|
  {
    if id > 0 {
      HoldersUpdate(calls[1..], id - 1, call);
      assert calls[id := call][1..] == calls[1..][id - 1 := call];
    } else {
      assert calls[id := call][1..] == calls[1..];
    }
  }

  lemma {:induction false} HoldersAppend(calls: seq<Call>, call: Call)
    requires !HoldsSlot(call)
    ensures Holders(calls + [call]) == Holders(calls)
    decreases |calls|
  {
    if calls != [] {
      HoldersAppend(calls[1..], call);
      assert (calls + [call])[1..] == calls[1..] + [call];
    }
  }

  lemma {:induction false} HolderExists(calls: seq<Call>)
    requires Holders(calls) > 0
    ensures exists id :: 0 <= id < |calls| && HoldsSlot(calls[id])
    decreases |calls|
  {
    if !HoldsSlot(calls[0]) {
      HolderExists(calls[1..]);
      var k :| 0 <= k < |calls[1..]| && HoldsSlot(calls[1..][k]);
      assert HoldsSlot(calls[k + 1]);
    }
  }

  lemma {:induction false} HolderCounts(calls: seq<Call>, id: nat)
    requires id < |calls| && HoldsSlot(calls[id])
    ensures Holders(calls) > 0
    decreases |calls|
  {
    if id > 0 {
      HolderCounts(calls[1..], id - 1);
    }
  }

  // ----- the invariant -----

  /** Occupied slots are exactly the calls between acquire and release; a digest that
      does not parse is in no state that waits for, holds or uses a slot. */
  ghost predicate Invariant(g: Gate) {
    && g.occupied == Holders(g.calls) <= g.capacity <= MAXIMUM_CONCURRENCY
    && forall id :: 0 <= id < |g.calls| && !g.calls[id].Starting? && !g.calls[id].Ended? ==>
         Supported(g.calls[id].operation)
  }

  lemma StepKeepsInvariant(g: Gate, move: Move)
    requires Invariant(g)
    ensures Invariant(Step(g, move)) && Step(g, move).capacity == g.capacity
  {
    match move
    case Arrive(operation) => HoldersAppend(g.calls, Starting(operation));
    case Advance(id, event) =>
      if id < |g.calls| {
        var after := Step(g, move);
        HoldersUpdate(g.calls, id, after.calls[id]);
        assert after.calls == g.calls[id := after.calls[id]];
        if HoldsSlot(g.calls[id]) {
          HolderCounts(g.calls, id);
        }
      }
  }

  lemma {:induction false} ExecKeepsInvariant(g: Gate, moves: seq<Move>)
    requires Invariant(g)
    ensures Invariant(Exec(g, moves)) && Exec(g, moves).capacity == g.capacity
    decreases |moves|
  {
    if moves != [] {
      StepKeepsInvariant(g, moves[0]);
      ExecKeepsInvariant(Step(g, moves[0]), moves[1..]);
    }
  }

  /** In every interleaving: slots are the calls between acquire and release, and no
      more derivations run at once than the configured maximum. */
  lemma DerivationsBounded(maxConcurrency: int, moves: seq<Move>)
    requires New(maxConcurrency).Some?
    ensures var g := Exec(New(maxConcurrency).value, moves);
            && g.occupied == Holders(g.calls)
            && Derivations(g.calls) <= g.occupied <= maxConcurrency <= MAXIMUM_CONCURRENCY
  {
    ExecKeepsInvariant(New(maxConcurrency).value, moves);
    DerivationsHold(Exec(New(maxConcurrency).value, moves).calls);
  }

  /** Every exit returns its slot at once: the deferred release never blocks. */
  lemma ReleaseNeverBlocks(maxConcurrency: int, moves: seq<Move>, id: nat, event: Event)
    requires New(maxConcurrency).Some?
    requires var g := Exec(New(maxConcurrency).value, moves); id < |g.calls| && g.calls[id].Exiting?
    ensures var g := Exec(New(maxConcurrency).value, moves);
            var after := Step(g, Advance(id, event));
            && after.calls[id] == Ended(g.calls[id].operation, g.calls[id].outcome)
            && after.occupied == g.occupied - 1
            && forall other :: 0 <= other < |g.calls| && other != id ==> after.calls[other] == g.calls[other]
  {
    ExecKeepsInvariant(New(maxConcurrency).value, moves);
    HolderCounts(Exec(New(maxConcurrency).value, moves).calls, id);
  }

  /** Once every call has ended, every slot is free. */
  lemma {:induction false} AllEndedAllFree(calls: seq<Call>)
    requires forall id :: 0 <= id < |calls| ==> calls[id].Ended?
    ensures Holders(calls) == 0
    decreases |calls|
  {
    if calls != [] {
      AllEndedAllFree(calls[1..]);
    }
  }

  lemma NoSlotIsLost(maxConcurrency: int, moves: seq<Move>)
    requires New(maxConcurrency).Some?
    requires var g := Exec(New(maxConcurrency).value, moves);
             forall id :: 0 <= id < |g.calls| ==> g.calls[id].Ended?
    ensures Exec(New(maxConcurrency).value, moves).occupied == 0
  {
    ExecKeepsInvariant(New(maxConcurrency).value, moves);
    AllEndedAllFree(Exec(New(maxConcurrency).value, moves).calls);
  }

  /** How many steps a holder needs to give its slot back. */
  function Remaining(call: Call): nat {
    match call
    case Admitted(_) => 5
    case Holding(_) => 4
    case Salted(_) => 3
    case Deriving(_) => 2
    case Exiting(_, _) => 1
    case _ => 0
  }

  /** Only call `id` moves, whatever the environment decides at each step. */
  function Drive(id: nat, events: seq<Event>): seq<Move> {
    if events == [] then [] else [Advance(id, events[0])] + Drive(id, events[1..])
  }

  lemma {:induction false} EndedStays(g: Gate, id: nat, events: seq<Event>)
    requires id < |g.calls| && g.calls[id].Ended?
    ensures Exec(g, Drive(id, events)) == g
    decreases |events|
  {
    if events != [] {
      EndedStays(g, id, events[1..]);
    }
  }

  lemma HolderSteps(g: Gate, id: nat, event: Event)
    requires Invariant(g) && id < |g.calls| && HoldsSlot(g.calls[id])
    ensures var after := Step(g, Advance(id, event));
            && id < |after.calls|
            && if g.calls[id].Exiting? then after.calls[id].Ended? && after.occupied == g.occupied - 1
               else HoldsSlot(after.calls[id]) && after.occupied == g.occupied
                    && Remaining(after.calls[id]) < Remaining(g.calls[id])
  {
    HolderCounts(g.calls, id);
  }

  lemma {:induction false} HolderLeaves(g: Gate, id: nat, events: seq<Event>)
    requires Invariant(g) && id < |g.calls| && HoldsSlot(g.calls[id])
    requires Remaining(g.calls[id]) <= |events|
    ensures Exec(g, Drive(id, events)).occupied == g.occupied - 1
    decreases |events|
  {
    var after := Step(g, Advance(id, events[0]));
    HolderSteps(g, id, events[0]);
    StepKeepsInvariant(g, Advance(id, events[0]));
    if g.calls[id].Exiting? {
      EndedStays(after, id, events[1..]);
    } else {
      HolderLeaves(after, id, events[1..]);
    }
  }

  /** Five steps of call `id` free a slot, however they turn out, and none is idle. */
  ghost predicate FreesSlot(g: Gate, id: nat) {
    && id < |g.calls| && HoldsSlot(g.calls[id])
    && (forall event :: Step(g, Advance(id, event)).calls[id] != g.calls[id])
    && (forall events :: |events| == 5 ==> Exec(g, Drive(id, events)).occupied < g.capacity)
  }

  /** A call waits on a full gate only while some holder can free a slot by itself. */
  lemma FullGateMakesProgress(maxConcurrency: int, moves: seq<Move>)
    requires New(maxConcurrency).Some?
    requires var g := Exec(New(maxConcurrency).value, moves); g.occupied == g.capacity
    ensures exists id :: FreesSlot(Exec(New(maxConcurrency).value, moves), id)
  {
    var g := Exec(New(maxConcurrency).value, moves);
    ExecKeepsInvariant(New(maxConcurrency).value, moves);
    HolderExists(g.calls);
    var id :| 0 <= id < |g.calls| && HoldsSlot(g.calls[id]);
    forall event ensures Step(g, Advance(id, event)).calls[id] != g.calls[id] {
      HolderSteps(g, id, event);
    }
    forall events: seq<Event> | |events| == 5 ensures Exec(g, Drive(id, events)).occupied < g.capacity {
      HolderLeaves(g, id, events);
    }
    assert FreesSlot(g, id);
  }

  // ----- a call that nothing disturbs -----

  const QUIET := Event(false, true, true, true, false)

  function Quiet(steps: nat): seq<Event> {
    if steps == 0 then [] else [QUIET] + Quiet(steps - 1)
  }

  lemma QuietFirst(g: Gate, id: nat, steps: nat)
    requires steps > 0
    ensures Exec(g, Drive(id, Quiet(steps))) == Exec(Step(g, Advance(id, QUIET)), Drive(id, Quiet(steps - 1)))
  {
    assert Quiet(steps)[1..] == Quiet(steps - 1);
  }

  /** The last step of work is the derivation. */
  lemma CompletedHasDerived(call: Call, event: Event)
    requires HoldsSlot(call) && !call.Exiting? && Work(call, event) == Exiting(call.operation, Completed)
    ensures call == Deriving(call.operation) && !event.panics
  {
  }

  /** A derivation starts uncancelled, for a hash only with a salt that was read. */
  lemma DerivesExactlyWhen(call: Call, event: Event)
    requires HoldsSlot(call) && !call.Exiting?
    ensures Work(call, event).Deriving?
       <==> !event.cancelled && (call.Salted? || (call.Holding? && call.operation.Verifying?))
    ensures Work(call, event).Salted? <==> call.Holding? && call.operation.Hashing? && !event.panics && event.saltOk
  {
  }

  lemma {:induction false} HolderCompletes(g: Gate, id: nat, steps: nat)
    requires Invariant(g) && id < |g.calls| && HoldsSlot(g.calls[id]) && Remaining(g.calls[id]) <= steps
    requires g.calls[id].Exiting? ==> g.calls[id].outcome == Completed
    ensures var end := Exec(g, Drive(id, Quiet(steps)));
            id < |end.calls| && end.calls[id] == Ended(g.calls[id].operation, Completed)
    decreases steps
  {
    var after := Step(g, Advance(id, QUIET));
    HolderSteps(g, id, QUIET);
    StepKeepsInvariant(g, Advance(id, QUIET));
    QuietFirst(g, id, steps);
    if g.calls[id].Exiting? {
      EndedStays(after, id, Quiet(steps - 1));
    } else {
      HolderCompletes(after, id, steps - 1);
    }
  }

  /** With a slot free and nothing to disturb it, a call completes within seven steps, or
      ends at once when its digest does not parse. */
  lemma UndisturbedCallCompletes(g: Gate, id: nat)
    requires Invariant(g) && id < |g.calls| && g.calls[id].Starting? && g.occupied < g.capacity
    ensures var end := Exec(g, Drive(id, Quiet(7)));
            && id < |end.calls|
            && end.calls[id]
               == Ended(g.calls[id].operation, if Supported(g.calls[id].operation) then Completed else Malformed)
  {
    var waiting := Step(g, Advance(id, QUIET));
    StepKeepsInvariant(g, Advance(id, QUIET));
    QuietFirst(g, id, 7);
    if Supported(g.calls[id].operation) {
      StepKeepsInvariant(waiting, Advance(id, QUIET));
      QuietFirst(waiting, id, 6);
      HolderCompletes(Step(waiting, Advance(id, QUIET)), id, 5);
    } else {
      EndedStays(waiting, id, Quiet(6));
    }
  }

  /** A malformed digest never takes a slot and never derives. */
  lemma MalformedNeverAdmitted(maxConcurrency: int, moves: seq<Move>, id: nat)
    requires New(maxConcurrency).Some?
    requires var g := Exec(New(maxConcurrency).value, moves);
             id < |g.calls| && g.calls[id].operation.Verifying? && PasswordHash.Parse(g.calls[id].operation.encoded).None?
    ensures var call := Exec(New(maxConcurrency).value, moves).calls[id];
            !HoldsSlot(call) && !call.Waiting?
  {
    ExecKeepsInvariant(New(maxConcurrency).value, moves);
  }
}
