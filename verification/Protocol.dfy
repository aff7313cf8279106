/** Any number of calls of every use case, interleaved command by command over the
    two stores, with lost commands, lost answers, calls that stop for good, and
    keys that expire at any moment. */
module Protocol {
  import opened Domain
  import opened SessionStore
  import AccountStore
  import opened UseCases

  /** `chains` records, for every session ever created, the JTIs it has carried in order;
      `minted` every identity ever signed. Identifiers are drawn from counters. */
  datatype State = State(
    stores: Stores,
    calls: seq<Call>,
    minted: set<Token>,
    chains: map<SessionId, seq<Jti>>,
    nextId: nat,
    nextUser: nat)

  datatype Move =
    | Begin(call: Call)
    | Advance(id: nat, fault: Fault, local: Local)
    | CreateAccount(digest: nat, status: UserStatus, role: UserRole)
    | Validate(token: Token)
    | Expire(command: Command)

  function Init(): State {
    State(Stores(map[], Empty()), [], {}, map[], 1, 1)
  }

  /** Whether a caller can start this call: tokens cannot be forged. */
  predicate Startable(s: State, call: Call) {
    match call
    case RefreshFind(token) => token in s.minted
    case LoginLookup(_) => true
    case LogoutDelete(_, _) => true
    case LogoutOthers(_, _) => true
    case StatusSnapshot(_, _, _) => true
    case RoleSnapshot(_, _, role) => role.IsKnown()
    case PasswordLookup(_, _) => true
    case FieldsWrite(_, _, _) => true
    case DeleteLookup(_) => true
    case _ => false
  }

  function Mints(call: Call): set<Token> {
    match call
    case LoginCreate(token) => {token}
    case RefreshRotate(_, renewed) => {renewed}
    case _ => {}
  }

  predicate Expiry(command: Command) {
    command.ExpireSession? || command.ExpirePointer? || command.ExpireIndex?
  }

  /** The Redis command that takes effect in this step, if any. */
  function Effect(s: State, move: Move): Option<Command> {
    match move
    case Advance(id, fault, _) =>
      if id < |s.calls| && Next(s.calls[id]).Redis? && !fault.Lost? then Some(Next(s.calls[id]).command) else None
    case Validate(t) => if t in s.minted then Some(Find(t.jti, t.user, t.session, t.version)) else None
    case Expire(command) => if Expiry(command) then Some(command) else None
    case _ => None
  }

  /** The SQL statement that takes effect in this step, if any. */
  function Statement(s: State, move: Move): Option<AccountStore.Query> {
    match move
    case Advance(id, fault, _) =>
      if id < |s.calls| && Next(s.calls[id]).Sql? && !fault.Lost? then Some(Next(s.calls[id]).query) else None
    case _ => None
  }

  function RedisAfter(redis: Store, effect: Option<Command>): Store {
    match effect
    case Some(command) => Run(redis, command).0
    case None => redis
  }

  function ChainsAfter(chains: map<SessionId, seq<Jti>>, redis: Store, effect: Option<Command>)
    : map<SessionId, seq<Jti>>
  {
    match effect
    case None => chains
    case Some(command) =>
      var reply := Run(redis, command).1;
      if reply.Created? then chains[command.session := [command.jti]]
      else if reply.Rotated? && command.Rotate? then
        chains[reply.session := (if reply.session in chains then chains[reply.session] else []) + [command.renewed]]
      else chains
  }

  function Resume(s: State, move: Move): Call
    requires move.Advance? && move.id < |s.calls|
  {
    Perform(s.stores, s.calls[move.id], move.fault, ChoiceOf(s, move)).1
  }

  function ChoiceOf(s: State, move: Move): Choice
    requires move.Advance?
  {
    Choice(move.local, s.nextId, s.nextId + 1)
  }

  function Step(s: State, move: Move): State {
    var redis := RedisAfter(s.stores.redis, Effect(s, move));
    var chains := ChainsAfter(s.chains, s.stores.redis, Effect(s, move));
    match move
    case Begin(call) =>
      if Startable(s, call) then s.(calls := s.calls + [call]) else s
    case Advance(id, _, _) =>
      if id >= |s.calls| then s
      else
        var rows := if Statement(s, move).Some? then AccountStore.RunQuery(s.stores.rows, Statement(s, move).value).0
                    else s.stores.rows;
        var call := Resume(s, move);
        State(Stores(rows, redis), s.calls[id := call], s.minted + Mints(call), chains, s.nextId + 2, s.nextUser)
    case CreateAccount(digest, status, role) =>
      if (status.Inactive? || status.Active?) && role.IsKnown() then
        var row := AccountStore.Row(digest, status, role, AccountStore.INITIAL_CREDENTIAL_VERSION);
        s.(stores := s.stores.(rows := s.stores.rows[s.nextUser := row]),
           nextUser := s.nextUser + 1)
      else s
    case Validate(_) => s.(stores := s.stores.(redis := redis))
    case Expire(_) => s.(stores := s.stores.(redis := redis))
  }

  function Exec(s: State, moves: seq<Move>): State
    decreases |moves|
  {
    if moves == [] then s else Exec(Step(s, moves[0]), moves[1..])
  }

  /** A step performs exactly one command of one call on both stores. */
  lemma StepPerforms(s: State, move: Move)
    requires move.Advance? && move.id < |s.calls|
    ensures Perform(s.stores, s.calls[move.id], move.fault, ChoiceOf(s, move))
         == (Step(s, move).stores, Step(s, move).calls[move.id])
  {
  }

  lemma {:induction false} ExecConcat(s: State, first: seq<Move>, second: seq<Move>)
    ensures Exec(s, first + second) == Exec(Exec(s, first), second)
    decreases |first|
  {
    if first == [] {
      assert first + second == second;
    } else {
      assert (first + second)[0] == first[0] && (first + second)[1..] == first[1..] + second;
      ExecConcat(Step(s, first[0]), first[1..], second);
    }
  }

  lemma ExecSnoc(s: State, moves: seq<Move>, move: Move)
    ensures Exec(s, moves + [move]) == Step(Exec(s, moves), move)
  {
    ExecConcat(s, moves, [move]);
    assert Exec(Exec(s, moves), [move]) == Exec(Step(Exec(s, moves), move), []);
  }

  /** The part of a Redis run that a protocol run performs. */
  function Effects(s: State, moves: seq<Move>): seq<Command>
    decreases |moves|
  {
    if moves == [] then []
    else (if Effect(s, moves[0]).Some? then [Effect(s, moves[0]).value] else [])
         + Effects(Step(s, moves[0]), moves[1..])
  }

  lemma {:induction false} RunAllConcat(store: Store, first: seq<Command>, second: seq<Command>)
    ensures RunAll(store, first + second) == RunAll(RunAll(store, first), second)
    decreases |first|
  {
    if first == [] {
      assert first + second == second;
    } else {
      assert (first + second)[0] == first[0] && (first + second)[1..] == first[1..] + second;
      RunAllConcat(Run(store, first[0]).0, first[1..], second);
    }
  }

  /** Every protocol run drives Redis by a sequence of atomic scripts. */
  lemma {:induction false} ExecRunsEffects(s: State, moves: seq<Move>)
    ensures Exec(s, moves).stores.redis == RunAll(s.stores.redis, Effects(s, moves))
    decreases |moves|
  {
    if moves != [] {
      var step := Step(s, moves[0]);
      var head := if Effect(s, moves[0]).Some? then [Effect(s, moves[0]).value] else [];
      ExecRunsEffects(step, moves[1..]);
      RunAllConcat(s.stores.redis, head, Effects(step, moves[1..]));
      if head != [] {
        assert RunAll(s.stores.redis, head) == RunAll(Run(s.stores.redis, head[0]).0, head[1..]);
      }
      assert step.stores.redis == RunAll(s.stores.redis, head);
    }
  }
}
