/** The migration history engine: validation of the recorded history, serialised
    all-or-nothing application by any number of concurrent runs, and the startup check. */
module Migrations {
  import opened Domain
  import MigrationFiles

  type Migration = MigrationFiles.Migration

  /** A row of `schema_migrations`. */
  datatype Applied = Applied(version: nat, name: string, checksum: string)

  function RecordOf(m: Migration): Applied {
    Applied(m.version, m.name, m.checksum)
  }

  function Recorded(ms: seq<Migration>): (rows: seq<Applied>)
    ensures |rows| == |ms| && forall i :: 0 <= i < |ms| ==> rows[i] == RecordOf(ms[i])
  {
    seq(|ms|, i requires 0 <= i < |ms| => RecordOf(ms[i]))
  }

  /** What `LoadMigrations` guarantees of a list. */
  predicate Numbered(ms: seq<Migration>) {
    forall i :: 0 <= i < |ms| ==> ms[i].version == i + 1
  }

  /** The history is what the first migrations of the list would have recorded. */
  predicate Agrees(available: seq<Migration>, rows: seq<Applied>) {
    available != [] && rows <= Recorded(available)
  }

  function PendingOf(available: seq<Migration>, rows: seq<Applied>): Option<seq<Migration>> {
    if Agrees(available, rows) then Some(available[|rows|..]) else None
  }

  /** Compares row by row and stops at the first difference. */
  method ValidateMigrationState(available: seq<Migration>, applied: seq<Applied>)
    returns (result: Option<seq<Migration>>)
    ensures result.Some? <==> available != [] && applied <= Recorded(available)
    ensures result.Some? ==> available == available[..|applied|] + result.value
    ensures result == PendingOf(available, applied)
  {
    if |available| == 0 {
      return None;
    }
    if |applied| > |available| {
      return None;
    }
    for index := 0 to |applied|
      invariant forall i :: 0 <= i < index ==> applied[i] == RecordOf(available[i])
    {
      var recorded, expected := applied[index], available[index];
      if recorded.version != expected.version {
        return None;
      }
      if recorded.name != expected.name || recorded.checksum != expected.checksum {
        return None;
      }
    }
    assert applied == Recorded(available)[..|applied|];
    result := Some(available[|applied|..]);
  }

  // ----- the table, read in version order -----

  predicate VersionTaken(rows: seq<Applied>, version: nat) {
    exists i :: 0 <= i < |rows| && rows[i].version == version
  }

  function InsertRow(rows: seq<Applied>, row: Applied): seq<Applied>
    decreases |rows|
  {
    if rows == [] || row.version < rows[0].version then [row] + rows else [rows[0]] + InsertRow(rows[1..], row)
  }

  function InsertRows(rows: seq<Applied>, more: seq<Applied>): seq<Applied>
    decreases |more|
  {
    if more == [] then rows else InsertRows(InsertRow(rows, more[0]), more[1..])
  }

  lemma {:induction false} InsertLast(rows: seq<Applied>, row: Applied)
    requires forall i :: 0 <= i < |rows| ==> rows[i].version < row.version
    ensures InsertRow(rows, row) == rows + [row]
    decreases |rows|
  {
    if rows != [] {
      InsertLast(rows[1..], row);
      assert rows == [rows[0]] + rows[1..];
    }
  }

  lemma {:induction false} InsertSuffix(rows: seq<Applied>, more: seq<Applied>)
    requires forall i :: 0 <= i < |rows + more| ==> (rows + more)[i].version == i + 1
    ensures InsertRows(rows, more) == rows + more
    decreases |more|
  {
    if more != [] {
      forall i | 0 <= i < |rows| ensures rows[i].version < more[0].version {
        assert rows[i] == (rows + more)[i] && more[0] == (rows + more)[|rows|];
      }
      InsertLast(rows, more[0]);
      assert (rows + [more[0]]) + more[1..] == rows + more;
      InsertSuffix(rows + [more[0]], more[1..]);
    } else {
      assert rows + more == rows;
    }
  }

  lemma RecordedJoin(a: seq<Migration>, b: seq<Migration>)
    ensures Recorded(a + b) == Recorded(a) + Recorded(b)
  {
  }

  lemma RecordsNumber(a: seq<Migration>, b: seq<Migration>)
    requires Recorded(a) == Recorded(b) && Numbered(b)
    ensures Numbered(a)
  {
    forall i | 0 <= i < |a| ensures a[i].version == i + 1 {
      assert Recorded(a)[i] == Recorded(b)[i];
    }
  }

  /** A history that the list extends, extended by the rest of the list. */
  lemma HistoryJoin(executed: seq<Migration>, available: seq<Migration>, start: nat)
    requires Numbered(available)
    requires start == |executed| <= |available| && Recorded(executed) == Recorded(available)[..start]
    ensures Recorded(available[..start]) == Recorded(executed)
    ensures Recorded(executed) + Recorded(available[start..]) == Recorded(available)
    ensures Recorded(executed + available[start..]) == Recorded(available)
    ensures Numbered(executed + available[start..])
  {
    RecordedJoin(executed, available[start..]);
    RecordedJoin(available[..start], available[start..]);
    assert available[..start] + available[start..] == available;
    RecordsNumber(executed + available[start..], available);
  }

  // ----- concurrent runs -----

  /** `executed` lists the migrations whose SQL is committed, in commit order. */
  datatype Database = Database(created: bool, table: seq<Applied>, executed: seq<Migration>)

  /** A run of the migration command. From `Waiting` to `Aborting` its transaction is
      open; its writes stay in it until the commit. `committed` of a failed run says
      whether the commit took effect although the run was told otherwise. */
  datatype Run =
    | Opening(available: seq<Migration>)
    | Waiting(available: seq<Migration>)
    | Locked(available: seq<Migration>)
    | Reading(available: seq<Migration>)
    | Applying(available: seq<Migration>, pending: seq<Migration>, recorded: nat, ran: bool)
    | Aborting(available: seq<Migration>)
    | Done(available: seq<Migration>, applied: nat, currentVersion: nat)
    | Failed(available: seq<Migration>, committed: bool)

  datatype System = System(db: Database, holder: Option<nat>, runs: seq<Run>)

  datatype Move = Begin(available: seq<Migration>) | Advance(id: nat, fault: Fault)

  function Init(): System {
    System(Database(false, [], []), None, [])
  }

  function Set(s: System, id: nat, run: Run): System
    requires id < |s.runs|
  {
    s.(runs := s.runs[id := run])
  }

  /** The session lock: waiting leaves the run where it is. */
  function AcquireLock(s: System, id: nat, fault: Fault): System
    requires id < |s.runs| && s.runs[id].Waiting?
  {
    var list := s.runs[id].available;
    if fault.Lost? then Set(s, id, Aborting(list))
    else if s.holder.Some? then (if fault.Unacknowledged? then Set(s, id, Aborting(list)) else s)
    else Set(s, id, if fault.Acknowledged? then Locked(list) else Aborting(list)).(holder := Some(id))
  }

  function ReleaseLock(s: System, id: nat): System {
    if s.holder == Some(id) then s.(holder := None) else s
  }

  /** Execute the SQL of the next pending migration, then record it; a row whose
      version is already there violates the primary key. */
  function ApplyNext(s: System, id: nat): Run
    requires id < |s.runs| && s.runs[id].Applying? && s.runs[id].recorded < |s.runs[id].pending|
  {
    var run := s.runs[id];
    var next := run.pending[run.recorded];
    if !run.ran then run.(ran := true)
    else if VersionTaken(s.db.table + Recorded(run.pending[..run.recorded]), next.version) then Aborting(run.available)
    else run.(recorded := run.recorded + 1, ran := false)
  }

  /** Makes the writes of the transaction visible and releases its lock. */
  function Commit(s: System, id: nat, fault: Fault): System
    requires id < |s.runs| && s.runs[id].Applying? && s.runs[id].available != []
  {
    var run := s.runs[id];
    if fault.Lost? then Set(s, id, Aborting(run.available))
    else
      var db := Database(true, InsertRows(s.db.table, Recorded(run.pending)), s.db.executed + run.pending);
      var end :=
        if fault.Acknowledged? then
          Done(run.available, |run.pending|, run.available[|run.available| - 1].version)
        else
          Failed(run.available, true);
      ReleaseLock(Set(s, id, end).(db := db), id)
  }

  function Step(s: System, move: Move): System {
    match move
    case Begin(list) => if Numbered(list) then s.(runs := s.runs + [Opening(list)]) else s
    case Advance(id, fault) =>
      if id >= |s.runs| then s
      else
        match s.runs[id]
        case Opening(list) => Set(s, id, if fault.Acknowledged? then Waiting(list) else Failed(list, false))
        case Waiting(_) => AcquireLock(s, id, fault)
        case Locked(list) => Set(s, id, if fault.Acknowledged? then Reading(list) else Aborting(list))
        case Reading(list) =>
          var pending := PendingOf(list, s.db.table);
          if !fault.Acknowledged? || pending.None? then Set(s, id, Aborting(list))
          else Set(s, id, Applying(list, pending.value, 0, false))
        case Applying(list, pending, recorded, _) =>
          if recorded < |pending| then Set(s, id, if fault.Acknowledged? then ApplyNext(s, id) else Aborting(list))
          else if list == [] then s
          else Commit(s, id, fault)
        case Aborting(list) => ReleaseLock(Set(s, id, Failed(list, false)), id)
        case Done(_, _, _) => s
        case Failed(_, _) => s
  }

  function Exec(s: System, moves: seq<Move>): System
    decreases |moves|
  {
    if moves == [] then s else Exec(Step(s, moves[0]), moves[1..])
  }

  // ----- the invariant -----

  predicate Protected(run: Run) {
    run.Locked? || run.Reading? || run.Applying?
  }

  /** What an applying run read is still the whole committed history. */
  predicate UpToDate(db: Database, run: Run) {
    run.Applying? ==>
      && Agrees(run.available, db.table)
      && run.pending == run.available[|db.table|..]
      && run.recorded <= |run.pending|
  }

  ghost predicate Invariant(s: System) {
    && Numbered(s.db.executed)
    && s.db.table == Recorded(s.db.executed)
    && (s.holder.Some? ==> s.holder.value < |s.runs| && (Protected(s.runs[s.holder.value]) || s.runs[s.holder.value].Aborting?))
    && (forall id :: 0 <= id < |s.runs| && Protected(s.runs[id]) ==> s.holder == Some(id))
    && (forall id :: 0 <= id < |s.runs| ==> Numbered(s.runs[id].available) && UpToDate(s.db, s.runs[id]))
  }

  /** The run commits: its list extends the history, and becomes all of it. */
  predicate Commits(s: System, after: System, id: nat) {
    && id < |s.runs| == |after.runs| && s.runs[id].Applying?
    && Agrees(s.runs[id].available, s.db.table)
    && after.db == Database(true, Recorded(s.runs[id].available), s.db.executed + s.runs[id].pending)
    && after.runs[id].available == s.runs[id].available
    && (after.runs[id] == Done(s.runs[id].available, |s.runs[id].available| - |s.db.table|, |s.runs[id].available|)
        || after.runs[id] == Failed(s.runs[id].available, true))
  }

  lemma NumberedJoin(s: System, id: nat)
    requires Invariant(s) && id < |s.runs| && s.runs[id].Applying?
    ensures InsertRows(s.db.table, Recorded(s.runs[id].pending)) == Recorded(s.runs[id].available)
    ensures Recorded(s.db.executed + s.runs[id].pending) == Recorded(s.runs[id].available)
    ensures Numbered(s.db.executed + s.runs[id].pending)
  {
    assert UpToDate(s.db, s.runs[id]);
    HistoryJoin(s.db.executed, s.runs[id].available, |s.db.table|);
    var rows, more := s.db.table, Recorded(s.runs[id].pending);
    assert forall i :: 0 <= i < |rows + more| ==> (rows + more)[i] == Recorded(s.runs[id].available)[i];
    InsertSuffix(rows, more);
  }

  predicate AtCommit(run: Run) {
    run.Applying? && run.recorded >= |run.pending| && run.available != []
  }

  /** Any other step leaves the database and ends no run in success or in doubt. */
  lemma OtherSteps(s: System, id: nat, fault: Fault)
    requires id < |s.runs| && !AtCommit(s.runs[id])
    ensures var after := Step(s, Advance(id, fault));
            && after.db == s.db && id < |after.runs|
            && (after.runs[id].Done? || (after.runs[id].Failed? && after.runs[id].committed) ==> Ended(s.runs[id]))
  {
  }

  lemma CommitCommits(s: System, id: nat, fault: Fault)
    requires Invariant(s) && id < |s.runs| && AtCommit(s.runs[id])
    ensures var after := Step(s, Advance(id, fault));
            if fault.Lost? then after == Set(s, id, Aborting(s.runs[id].available)) else Commits(s, after, id)
  {
    assert Step(s, Advance(id, fault)) == Commit(s, id, fault);
    if !fault.Lost? {
      CommitEffect(s, id, fault);
    }
  }

  lemma CommitEffect(s: System, id: nat, fault: Fault)
    requires Invariant(s) && id < |s.runs| && AtCommit(s.runs[id]) && !fault.Lost?
    ensures Commits(s, Commit(s, id, fault), id)
  {
    NumberedJoin(s, id);
    assert UpToDate(s.db, s.runs[id]);
    assert |s.runs[id].pending| == |s.runs[id].available| - |s.db.table|;
    assert s.runs[id].available[|s.runs[id].available| - 1].version == |s.runs[id].available|;
  }

  /** Only a commit changes the database. */
  lemma StepCommits(s: System, move: Move)
    requires Invariant(s)
    ensures Step(s, move).db == s.db || (move.Advance? && Commits(s, Step(s, move), move.id))
  {
    if move.Advance? && move.id < |s.runs| {
      if AtCommit(s.runs[move.id]) {
        CommitCommits(s, move.id, move.fault);
      } else {
        OtherSteps(s, move.id, move.fault);
      }
    }
  }

  /** A step concerns one run; the lock passes between that run and nobody. */
  lemma StepFrame(s: System, id: nat, fault: Fault)
    requires id < |s.runs|
    ensures var after := Step(s, Advance(id, fault));
            && |after.runs| == |s.runs|
            && (forall other :: 0 <= other < |s.runs| && other != id ==> after.runs[other] == s.runs[other])
            && after.runs[id].available == s.runs[id].available
            && (after.holder == s.holder
                || (after.holder == Some(id) && s.holder.None?)
                || (after.holder.None? && s.holder == Some(id)))
  {
  }

  lemma StepProtects(s: System, id: nat, fault: Fault)
    requires Invariant(s) && id < |s.runs|
    ensures var after := Step(s, Advance(id, fault));
            && id < |after.runs|
            && (Protected(after.runs[id]) ==> after.holder == Some(id))
            && (after.holder == Some(id) ==> Protected(after.runs[id]) || after.runs[id].Aborting?)
  {
  }

  lemma StepUpToDate(s: System, id: nat, fault: Fault)
    requires Invariant(s) && id < |s.runs|
    ensures var after := Step(s, Advance(id, fault));
            id < |after.runs| && (after.runs[id].Applying? ==> after.db == s.db) && UpToDate(after.db, after.runs[id])
  {
  }

  lemma StepKeepsHistory(s: System, move: Move)
    requires Invariant(s)
    ensures Numbered(Step(s, move).db.executed) && Step(s, move).db.table == Recorded(Step(s, move).db.executed)
  {
    StepCommits(s, move);
    if Step(s, move).db != s.db {
      NumberedJoin(s, move.id);
    }
  }

  lemma StepKeepsInvariant(s: System, move: Move)
    requires Invariant(s)
    ensures Invariant(Step(s, move))
  {
    if move.Advance? && move.id < |s.runs| {
      var id, after := move.id, Step(s, move);
      StepKeepsHistory(s, move);
      StepCommits(s, move);
      StepFrame(s, id, move.fault);
      StepProtects(s, id, move.fault);
      StepUpToDate(s, id, move.fault);
      forall other | 0 <= other < |after.runs|
        ensures Numbered(after.runs[other].available) && UpToDate(after.db, after.runs[other])
        ensures Protected(after.runs[other]) ==> after.holder == Some(other)
      {
        assert Numbered(s.runs[other].available) && UpToDate(s.db, s.runs[other]);
      }
    }
  }

  lemma {:induction false} ExecKeepsInvariant(s: System, moves: seq<Move>)
    requires Invariant(s)
    ensures Invariant(Exec(s, moves))
    decreases |moves|
  {
    if moves != [] {
      StepKeepsInvariant(s, moves[0]);
      ExecKeepsInvariant(Step(s, moves[0]), moves[1..]);
    }
  }

  // ----- what every run of the system satisfies, whatever the lists -----

  /** The table records exactly the migrations whose SQL is committed, numbered from 1. */
  lemma HistoryRecordsExecution(moves: seq<Move>)
    ensures var db := Exec(Init(), moves).db;
            && db.table == Recorded(db.executed)
            && forall i :: 0 <= i < |db.executed| ==> db.executed[i].version == i + 1
  {
    ExecKeepsInvariant(Init(), moves);
  }

  /** Nothing committed is ever executed again, reordered or withdrawn. */
  lemma {:induction false} HistoryOnlyGrows(s: System, moves: seq<Move>)
    requires Invariant(s)
    ensures s.db.executed <= Exec(s, moves).db.executed
    decreases |moves|
  {
    if moves != [] {
      StepCommits(s, moves[0]);
      StepKeepsInvariant(s, moves[0]);
      HistoryOnlyGrows(Step(s, moves[0]), moves[1..]);
    }
  }

  /** At most one transaction is between taking the lock and its end. */
  lemma RunsAreSerial(moves: seq<Move>, a: nat, b: nat)
    requires var s := Exec(Init(), moves);
             a < |s.runs| && b < |s.runs| && Protected(s.runs[a]) && Protected(s.runs[b])
    ensures a == b
  {
    ExecKeepsInvariant(Init(), moves);
  }

  // ----- one run -----

  predicate Ended(run: Run) {
    run.Done? || run.Failed?
  }

  lemma {:induction false} EndedForever(s: System, moves: seq<Move>, id: nat)
    requires id < |s.runs| && Ended(s.runs[id])
    ensures id < |Exec(s, moves).runs| && Exec(s, moves).runs[id] == s.runs[id]
    decreases |moves|
  {
    if moves != [] {
      EndedForever(Step(s, moves[0]), moves[1..], id);
    }
  }

  /** A step of a run that ends in failure changes the database exactly when it is a
      commit that takes effect without its acknowledgement and has something to make
      visible: pending migrations, or the history table itself. */
  lemma FailedRunChangesExactlyWhen(before: seq<Move>, id: nat, fault: Fault, rest: seq<Move>)
    requires id < |Exec(Init(), before).runs|
    requires var final := Exec(Step(Exec(Init(), before), Advance(id, fault)), rest);
             id < |final.runs| && final.runs[id].Failed?
    ensures var s := Exec(Init(), before);
            Step(s, Advance(id, fault)).db != s.db
            <==> AtCommit(s.runs[id]) && fault.Unacknowledged? && (s.runs[id].pending != [] || !s.db.created)
  {
    var s := Exec(Init(), before);
    ExecKeepsInvariant(Init(), before);
    if AtCommit(s.runs[id]) {
      var after := Step(s, Advance(id, fault));
      CommitCommits(s, id, fault);
      if !fault.Lost? {
        EndedForever(after, rest, id);
        CommitShows(s, after, id);
      }
    } else {
      OtherSteps(s, id, fault);
    }
  }

  lemma CommitShows(s: System, after: System, id: nat)
    requires Invariant(s) && Commits(s, after, id)
    ensures after.db != s.db <==> s.runs[id].pending != [] || !s.db.created
  {
    assert UpToDate(s.db, s.runs[id]);
    if s.runs[id].pending == [] {
      assert s.db.executed + [] == s.db.executed;
      assert s.db.table == Recorded(s.runs[id].available)[..|s.db.table|];
    } else {
      assert |after.db.executed| > |s.db.executed|;
    }
  }

  /** A run that fails although it committed left exactly what success would have left. */
  lemma UnacknowledgedCommitIsComplete(before: seq<Move>, move: Move, id: nat)
    requires var s := Exec(Init(), before);
             && id < |s.runs| && !Ended(s.runs[id])
             && Step(s, move).runs[id] == Failed(s.runs[id].available, true)
    ensures Step(Exec(Init(), before), move).db.table == Recorded(Exec(Init(), before).runs[id].available)
  {
    ExecKeepsInvariant(Init(), before);
    EndsByCommit(Exec(Init(), before), move, id);
  }

  lemma EndsByCommit(s: System, move: Move, id: nat)
    requires Invariant(s) && id < |s.runs| && !Ended(s.runs[id])
    requires id < |Step(s, move).runs|
    requires Step(s, move).runs[id].Done? || Step(s, move).runs[id] == Failed(s.runs[id].available, true)
    ensures Commits(s, Step(s, move), id)
  {
    if move.Advance? && move.id < |s.runs| {
      StepFrame(s, move.id, move.fault);
      if AtCommit(s.runs[move.id]) {
        CommitCommits(s, move.id, move.fault);
      } else {
        OtherSteps(s, move.id, move.fault);
      }
    }
  }

  /** A run that succeeds leaves exactly its own list recorded, and reports its newest
      version and how many migrations it added. */
  lemma SuccessLeavesOwnList(before: seq<Move>, move: Move, id: nat)
    requires var s := Exec(Init(), before);
             id < |s.runs| && !Ended(s.runs[id]) && Step(s, move).runs[id].Done?
    ensures var s := Exec(Init(), before);
            var after := Step(s, move);
            var list := s.runs[id].available;
            && after.db.table == Recorded(list)
            && |s.db.table| <= |list|
            && after.runs[id] == Done(list, |list| - |s.db.table|, |list|)
            && |after.db.executed| == |s.db.executed| + after.runs[id].applied
  {
    ExecKeepsInvariant(Init(), before);
    EndsByCommit(Exec(Init(), before), move, id);
  }

  // ----- binaries whose lists are prefixes of one another -----

  predicate OneFamily(moves: seq<Move>, longest: seq<Migration>) {
    forall i :: 0 <= i < |moves| && moves[i].Begin? ==> moves[i].available <= longest
  }

  ghost predicate WithinFamily(s: System, longest: seq<Migration>) {
    && s.db.executed <= longest
    && forall id :: 0 <= id < |s.runs| ==> s.runs[id].available <= longest
  }

  lemma CommitStaysWithin(s: System, after: System, id: nat, longest: seq<Migration>)
    requires Invariant(s) && WithinFamily(s, longest) && Commits(s, after, id)
    ensures after.db.executed == s.runs[id].available
  {
    var list := s.runs[id].available;
    assert UpToDate(s.db, s.runs[id]);
    assert s.db.executed == longest[..|s.db.executed|] == list[..|s.db.executed|];
  }

  lemma StepStaysWithin(s: System, move: Move, longest: seq<Migration>)
    requires Invariant(s) && WithinFamily(s, longest)
    requires move.Begin? ==> move.available <= longest
    ensures WithinFamily(Step(s, move), longest)
  {
    StepCommits(s, move);
    if move.Advance? && move.id < |s.runs| {
      StepFrame(s, move.id, move.fault);
      if Step(s, move).db != s.db {
        CommitStaysWithin(s, Step(s, move), move.id, longest);
      }
    }
  }

  lemma {:induction false} ExecStaysWithin(s: System, moves: seq<Move>, longest: seq<Migration>)
    requires Invariant(s) && WithinFamily(s, longest) && OneFamily(moves, longest)
    ensures WithinFamily(Exec(s, moves), longest)
    decreases |moves|
  {
    if moves != [] {
      StepKeepsInvariant(s, moves[0]);
      StepStaysWithin(s, moves[0], longest);
      assert OneFamily(moves[1..], longest);
      ExecStaysWithin(Step(s, moves[0]), moves[1..], longest);
    }
  }

  /** In every interleaving the committed history is a prefix of the longest list, and
      the SQL of each of its migrations has committed exactly once, in version order. */
  lemma HistoryIsPrefixOfLongest(moves: seq<Move>, longest: seq<Migration>)
    requires OneFamily(moves, longest)
    ensures var db := Exec(Init(), moves).db;
            && db.executed <= longest
            && |db.table| == |db.executed|
            && db.table == Recorded(longest[..|db.table|])
  {
    ExecKeepsInvariant(Init(), moves);
    ExecStaysWithin(Init(), moves, longest);
    var db := Exec(Init(), moves).db;
    assert db.executed == longest[..|db.table|];
  }

  /** Among such binaries a successful run leaves exactly the SQL of its own list committed. */
  lemma SuccessExecutedOwnList(before: seq<Move>, move: Move, id: nat, longest: seq<Migration>)
    requires OneFamily(before, longest)
    requires var s := Exec(Init(), before);
             id < |s.runs| && !Ended(s.runs[id]) && Step(s, move).runs[id].Done?
    ensures Step(Exec(Init(), before), move).db.executed == Exec(Init(), before).runs[id].available
  {
    var s := Exec(Init(), before);
    ExecKeepsInvariant(Init(), before);
    ExecStaysWithin(Init(), before, longest);
    StepStaysWithin(s, move, longest);
    SuccessLeavesOwnList(before, move, id);
    var done := Step(s, move).db.executed;
    StepKeepsInvariant(s, move);
    assert done == longest[..|done|];
  }

  // ----- a run that is left alone -----

  function Alone(id: nat, steps: nat): seq<Move> {
    if steps == 0 then [] else [Advance(id, Acknowledged)] + Alone(id, steps - 1)
  }

  lemma AloneFirst(s: System, id: nat, steps: nat)
    requires steps > 0
    ensures Exec(s, Alone(id, steps)) == Exec(Step(s, Advance(id, Acknowledged)), Alone(id, steps - 1))
  {
  }

  lemma {:induction false} AloneJoin(s: System, id: nat, a: nat, b: nat)
    ensures Exec(s, Alone(id, a + b)) == Exec(Exec(s, Alone(id, a)), Alone(id, b))
    decreases a
  {
    if a > 0 {
      AloneFirst(s, id, a + b);
      AloneFirst(s, id, a);
      AloneJoin(Step(s, Advance(id, Acknowledged)), id, a - 1, b);
    }
  }

  lemma NextVersionIsFree(s: System, id: nat)
    requires Invariant(s) && id < |s.runs| && s.runs[id].Applying? && s.runs[id].recorded < |s.runs[id].pending|
    ensures var run := s.runs[id];
            !VersionTaken(s.db.table + Recorded(run.pending[..run.recorded]), run.pending[run.recorded].version)
  {
    var run := s.runs[id];
    var rows := s.db.table + Recorded(run.pending[..run.recorded]);
    forall i | 0 <= i < |rows| ensures rows[i].version == i + 1 {
      if i < |s.db.table| {
        assert s.db.table[i] == RecordOf(s.db.executed[i]);
      } else {
        assert rows[i] == RecordOf(run.available[i]);
      }
    }
  }

  lemma ApplyingAdvances(s: System, id: nat)
    requires Invariant(s) && id < |s.runs| && s.runs[id].Applying? && s.runs[id].recorded < |s.runs[id].pending|
    ensures var run := s.runs[id];
            var after := Step(s, Advance(id, Acknowledged));
            && Invariant(after) && after.db == s.db && |after.runs| == |s.runs|
            && after.runs[id] == if run.ran then run.(recorded := run.recorded + 1, ran := false) else run.(ran := true)
  {
    NextVersionIsFree(s, id);
    StepKeepsInvariant(s, Advance(id, Acknowledged));
  }

  lemma {:induction false} ExecJoin(s: System, first: seq<Move>, second: seq<Move>)
    ensures Exec(s, first + second) == Exec(Exec(s, first), second)
    decreases |first|
  {
    if first == [] {
      assert first + second == second;
    } else {
      assert (first + second)[1..] == first[1..] + second;
      ExecJoin(Step(s, first[0]), first[1..], second);
    }
  }

  /** How many more steps an applying run takes to its commit. */
  function StepsLeft(run: Run): nat
    requires run.Applying? && run.recorded <= |run.pending|
  {
    2 * (|run.pending| - run.recorded) - if run.ran && run.recorded < |run.pending| then 1 else 0
  }

  lemma {:induction false} ApplyingReachesCommit(s: System, id: nat)
    requires Invariant(s) && id < |s.runs| && s.runs[id].Applying?
    ensures s.runs[id].recorded <= |s.runs[id].pending|
    ensures var run := s.runs[id];
            var end := Exec(s, Alone(id, StepsLeft(run)));
            && Invariant(end) && end.db == s.db && id < |end.runs| && AtCommit(end.runs[id])
            && end.runs[id].available == run.available && end.runs[id].pending == run.pending
    decreases |s.runs[id].pending| - s.runs[id].recorded, !s.runs[id].ran
  {
    var run := s.runs[id];
    if run.recorded < |run.pending| {
      AloneFirst(s, id, StepsLeft(run));
      ApplyingAdvances(s, id);
      ApplyingReachesCommit(Step(s, Advance(id, Acknowledged)), id);
    } else {
      assert Alone(id, 0) == [];
    }
  }

  lemma Ready(s: System, id: nat)
    requires Invariant(s) && s.holder.None? && id < |s.runs| && s.runs[id].Opening?
    ensures var ready := Exec(s, Alone(id, 3));
            && Invariant(ready) && ready.db == s.db && id < |ready.runs|
            && ready.runs[id] == Reading(s.runs[id].available)
  {
    ExecKeepsInvariant(s, Alone(id, 3));
    var go := Advance(id, Acknowledged);
    AloneFirst(s, id, 3);
    AloneFirst(Step(s, go), id, 2);
    AloneFirst(Step(Step(s, go), go), id, 1);
    assert Alone(id, 0) == [];
  }

  lemma ReadingStarts(s: System, id: nat)
    requires Invariant(s) && id < |s.runs| && s.runs[id].Reading? && Agrees(s.runs[id].available, s.db.table)
    ensures var next := Step(s, Advance(id, Acknowledged));
            && Invariant(next) && next.db == s.db && id < |next.runs|
            && next.runs[id] == Applying(s.runs[id].available, s.runs[id].available[|s.db.table|..], 0, false)
  {
    StepKeepsInvariant(s, Advance(id, Acknowledged));
  }

  /** The steps of an undisturbed run before its commit. */
  function CommitSteps(available: seq<Migration>, rows: seq<Applied>): nat
    requires Agrees(available, rows)
  {
    4 + 2 * (|available| - |rows|)
  }

  /** The run is about to commit all of its list that `db` does not record. */
  ghost predicate AtCommitOf(s: System, id: nat, list: seq<Migration>, db: Database) {
    && Invariant(s) && s.db == db && id < |s.runs| && AtCommit(s.runs[id])
    && s.runs[id].available == list
    && |db.table| <= |list| && s.runs[id].pending == list[|db.table|..]
  }

  lemma LoneRunReachesCommit(s: System, id: nat)
    requires Invariant(s) && s.holder.None? && id < |s.runs| && s.runs[id].Opening?
    requires Agrees(s.runs[id].available, s.db.table)
    ensures AtCommitOf(Exec(s, Alone(id, CommitSteps(s.runs[id].available, s.db.table))), id, s.runs[id].available, s.db)
  {
    var n := 2 * (|s.runs[id].available| - |s.db.table|);
    assert CommitSteps(s.runs[id].available, s.db.table) == 3 + (n + 1);
    Ready(s, id);
    var reading := Exec(s, Alone(id, 3));
    ReadingReachesCommit(reading, id, n);
    AloneJoin(s, id, 3, n + 1);
  }

  lemma ReadingReachesCommit(s: System, id: nat, n: nat)
    requires Invariant(s) && id < |s.runs| && s.runs[id].Reading? && Agrees(s.runs[id].available, s.db.table)
    requires n == 2 * (|s.runs[id].available| - |s.db.table|)
    ensures AtCommitOf(Exec(s, Alone(id, n + 1)), id, s.runs[id].available, s.db)
  {
    ReadingStarts(s, id);
    var next := Step(s, Advance(id, Acknowledged));
    assert StepsLeft(next.runs[id]) == n;
    ApplyingReachesCommit(next, id);
    AloneFirst(s, id, n + 1);
  }

  /** The whole run, with any fate of its commit. */
  function LoneRun(id: nat, available: seq<Migration>, rows: seq<Applied>, commit: Fault): seq<Move>
    requires Agrees(available, rows)
  {
    Alone(id, CommitSteps(available, rows)) + [Advance(id, commit)]
  }

  lemma LoneRunCommits(s: System, id: nat, commit: Fault)
    requires Invariant(s) && s.holder.None? && id < |s.runs| && s.runs[id].Opening?
    requires Agrees(s.runs[id].available, s.db.table) && !commit.Lost?
    ensures var list := s.runs[id].available;
            var end := Exec(s, LoneRun(id, list, s.db.table, commit));
            && id < |end.runs|
            && end.runs[id] == (if commit.Acknowledged? then Done(list, |list| - |s.db.table|, |list|) else Failed(list, true))
            && end.db == Database(true, Recorded(list), s.db.executed + list[|s.db.table|..])
  {
    var steps := CommitSteps(s.runs[id].available, s.db.table);
    LoneRunReachesCommit(s, id);
    var ready := Exec(s, Alone(id, steps));
    ExecJoin(s, Alone(id, steps), [Advance(id, commit)]);
    CommitCommits(ready, id, commit);
    CommitEnds(ready, id, commit);
    assert Exec(ready, [Advance(id, commit)]) == Step(ready, Advance(id, commit));
  }

  lemma CommitEnds(s: System, id: nat, commit: Fault)
    requires id < |s.runs| && AtCommit(s.runs[id]) && !commit.Lost?
    ensures id < |Step(s, Advance(id, commit)).runs|
    ensures commit.Acknowledged? <==> Step(s, Advance(id, commit)).runs[id].Done?
  {
  }

  /** A success that is reported as a failure can be reached: the first run of a list
      whose commit takes effect and is not acknowledged. */
  lemma CommitCanBeInDoubt(list: seq<Migration>)
    requires list != [] && Numbered(list)
    ensures var end := Exec(Init(), [Begin(list)] + LoneRun(0, list, [], Unacknowledged));
            && |end.runs| > 0 && end.runs[0] == Failed(list, true)
            && end.db == Database(true, Recorded(list), list)
  {
    var s := Step(Init(), Begin(list));
    StepKeepsInvariant(Init(), Begin(list));
    LoneRunCommits(s, 0, Unacknowledged);
    assert ([Begin(list)] + LoneRun(0, list, [], Unacknowledged))[1..] == LoneRun(0, list, [], Unacknowledged);
    assert [] + list[0..] == list;
  }

  /** A run whose list the history does not follow fails and changes nothing. */
  lemma LoneRunGivesUp(s: System, id: nat)
    requires Invariant(s) && s.holder.None? && id < |s.runs| && s.runs[id].Opening?
    requires !Agrees(s.runs[id].available, s.db.table)
    ensures var end := Exec(s, Alone(id, 5));
            id < |end.runs| && end.runs[id] == Failed(s.runs[id].available, false) && end.db == s.db
  {
    Ready(s, id);
    ReadingGivesUp(Exec(s, Alone(id, 3)), id);
    AloneJoin(s, id, 3, 2);
  }

  lemma ReadingGivesUp(s: System, id: nat)
    requires id < |s.runs| && s.runs[id].Reading? && !Agrees(s.runs[id].available, s.db.table)
    ensures var end := Exec(s, Alone(id, 2));
            id < |end.runs| && end.runs[id] == Failed(s.runs[id].available, false) && end.db == s.db
  {
    AloneFirst(s, id, 2);
    AloneFirst(Step(s, Advance(id, Acknowledged)), id, 1);
    assert Alone(id, 0) == [];
  }

  /** An immediate rerun of the list that is recorded succeeds, applies nothing and
      leaves the history as it is. */
  lemma RerunAppliesZero(s: System, id: nat)
    requires Invariant(s) && s.holder.None? && id < |s.runs| && s.runs[id].Opening?
    requires s.runs[id].available != [] && s.db.table == Recorded(s.runs[id].available)
    ensures var list := s.runs[id].available;
            var end := Exec(s, LoneRun(id, list, s.db.table, Acknowledged));
            && id < |end.runs| && end.runs[id] == Done(list, 0, |list|)
            && end.db.table == s.db.table && end.db.executed == s.db.executed
  {
    LoneRunCommits(s, id, Acknowledged);
    assert s.runs[id].available[|s.db.table|..] == [];
  }

  // ----- the command and the startup check -----

  datatype Result = Completed(applied: nat, currentVersion: nat) | Aborted

  datatype Readiness = Current | Pending | Invalid

  predicate NoneFails(fails: nat -> bool, from: nat, to: nat) {
    forall i :: from <= i < to ==> !fails(i)
  }

  /** Every statement before the commit succeeds: four of them, and two a migration. */
  predicate ReachesCommit(available: seq<Migration>, rows: seq<Applied>, fails: nat -> bool) {
    Agrees(available, rows) && NoneFails(fails, 0, 4 + 2 * (|available| - |rows|))
  }

  lemma CommitReached(available: seq<Migration>, rows: seq<Applied>, fails: nat -> bool)
    requires Agrees(available, rows)
    ensures ReachesCommit(available, rows, fails)
       <==> !fails(0) && !fails(1) && !fails(2) && !fails(3) && NoneFails(fails, 4, 4 + 2 * (|available| - |rows|))
  {
  }

  /** The schema and its history as one run sees them under the lock. */
  class Schema {
    var created: bool
    var table: seq<Applied>
    var executed: seq<Migration>

    ghost predicate Valid()
      reads this
    {
      Numbered(executed) && table == Recorded(executed)
    }

    constructor ()
      ensures Valid() && !created && table == [] && executed == []
    {
      created, table, executed := false, [], [];
    }

    /** Executes and records the pending migrations one by one until one fails. */
    method ApplyPending(available: seq<Migration>, pending: seq<Migration>, fails: nat -> bool) returns (ok: bool)
      requires Valid() && Numbered(available) && |table| <= |available|
      requires table == Recorded(available[..|table|]) && pending == available[|table|..]
      modifies this`table, this`executed
      ensures ok ==> table == Recorded(available) && executed == old(executed) + pending
      ensures ok <==> NoneFails(fails, 4, 4 + 2 * |pending|)
    {
      ghost var start := |table|;
      for next := 0 to |pending|
        invariant table == Recorded(available[..start + next])
        invariant executed == old(executed) + pending[..next]
        invariant NoneFails(fails, 4, 4 + 2 * next)
      {
        if fails(4 + 2 * next) {
          return false;
        }
        executed := executed + [pending[next]];
        if fails(5 + 2 * next) {
          return false;
        }
        AppendRecord(available, start + next);
        table := InsertRow(table, RecordOf(pending[next]));
      }
      assert available[..start + |pending|] == available;
      assert pending[..|pending|] == pending;
      ok := true;
    }

    /** One transaction; `fails` decides statement by statement whether it fails. It is
        complete exactly when the history agrees, no statement fails and the commit takes
        effect, and reported so when that is acknowledged; otherwise the deferred rollback
        leaves what was there. */
    method ApplyMigrations(available: seq<Migration>, fails: nat -> bool, commit: Fault) returns (result: Result)
      requires Valid() && Numbered(available)
      modifies this
      ensures Valid()
      ensures if old(ReachesCommit(available, table, fails)) && !commit.Lost? then
                && created
                && table == Recorded(available)
                && executed == old(executed) + available[old(|table|)..]
              else
                created == old(created) && table == old(table) && executed == old(executed)
      ensures result == if old(ReachesCommit(available, table, fails)) && commit.Acknowledged?
                        then Completed(|available| - old(|table|), |available|) else Aborted
    {
      var snapshot := (created, table, executed);
      ghost var reaches := ReachesCommit(available, table, fails);
      if fails(0) || fails(1) || fails(2) || fails(3) {
        return Aborted;
      }
      created := true;
      var pending := ValidateMigrationState(available, table);
      var ok := pending.Some?;
      if ok {
        CommitReached(available, table, fails);
        HistoryJoin(executed, available, |table|);
        ok := ApplyPending(available, pending.value, fails);
      }
      if !ok || commit.Lost? {
        created, table, executed := snapshot.0, snapshot.1, snapshot.2;
        return Aborted;
      }
      assert reaches;
      if commit.Unacknowledged? {
        return Aborted;
      }
      return Completed(|pending.value|, available[|available| - 1].version);
    }

    /** The startup check changes nothing: current means exactly this list is recorded. */
    method CheckCurrent(available: seq<Migration>) returns (readiness: Readiness)
      ensures readiness == Current <==> created && available != [] && table == Recorded(available)
      ensures readiness == Invalid <==> created && !Agrees(available, table)
    {
      if !created {
        return Pending;
      }
      var pending := ValidateMigrationState(available, table);
      if pending.None? {
        return Invalid;
      }
      return if |pending.value| != 0 then Pending else Current;
    }
  }

  lemma AppendRecord(available: seq<Migration>, n: nat)
    requires Numbered(available) && n < |available|
    ensures InsertRow(Recorded(available[..n]), RecordOf(available[n])) == Recorded(available[..n + 1])
  {
    InsertLast(Recorded(available[..n]), RecordOf(available[n]));
  }
}
