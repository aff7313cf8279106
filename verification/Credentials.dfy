/** The credential version as a security boundary: what a committed password write
    takes away from every token issued before it. */
module Credentials {
  import opened Domain
  import opened UseCases
  import opened Protocol
  import opened ProtocolInvariant
  import Authorization

  /** The step commits a new password of `user`, by either of the two statements that can. */
  predicate CommitsPassword(s: State, move: Move, user: UserId) {
    && Statement(s, move).Some?
    && user in s.stores.rows
    && var query := Statement(s, move).value;
       || (query.WritePassword? && query.user == user)
       || (query.WriteFields? && query.user == user && query.newDigest.Some?)
  }

  /** The stored version of `user` is at least `version`, or the account is gone for good. */
  predicate VersionAtLeast(s: State, user: UserId, version: nat) {
    user < s.nextUser && (user in s.stores.rows ==> version <= s.stores.rows[user].version)
  }

  lemma CommitRaisesVersion(s: State, move: Move, user: UserId)
    requires Invariant(s) && CommitsPassword(s, move, user)
    ensures VersionAtLeast(Step(s, move), user, s.stores.rows[user].version + 1)
    ensures forall token :: token in s.minted && token.user == user ==>
              token.version < s.stores.rows[user].version + 1
  {
    forall token | token in s.minted && token.user == user
      ensures token.version < s.stores.rows[user].version + 1
    {
      assert TokenOk(s, token);
    }
  }

  /** Every token ever signed carries at most the stored version. */
  lemma VersionsBounded(moves: seq<Move>, token: Token)
    requires token in Exec(Init(), moves).minted && token.user in Exec(Init(), moves).stores.rows
    ensures 1 <= token.version <= Exec(Init(), moves).stores.rows[token.user].version
  {
    ReachableInvariant(moves);
    assert TokenOk(Exec(Init(), moves), token);
  }

  /** After a password commit no token of an earlier version passes fresh authorization
      again, at any later moment of any run. */
  lemma OldTokensNeverPass(before: seq<Move>, commit: Move, after: seq<Move>, user: UserId, token: Token,
                           role: UserRole, permissions: seq<string>,
                           grants: map<UserRole, seq<string>>, required: string)
    requires CommitsPassword(Exec(Init(), before), commit, user)
    requires token.user == user
    requires token in Exec(Init(), before).minted
             || token.version <= Exec(Init(), before).stores.rows[user].version
    ensures var rows := Exec(Init(), before + [commit] + after).stores.rows;
            var principal := Authorization.Principal(token.user, token.session, token.version, role, permissions);
            && !Authorization.AuthorizeFreshIdentity(rows, principal).Granted?
            && !Authorization.AuthorizeFresh(rows, grants, principal, required).Granted?
  {
    var s := Exec(Init(), before);
    ReachableInvariant(before);
    CommitRaisesVersion(s, commit, user);
    StepKeepsInvariant(s, commit);
    ExecSnoc(Init(), before, commit);
    ExecConcat(Init(), before + [commit], after);
    ExecKeepsInvariant(Step(s, commit), after);
  }

  /** The refresh call has passed the version check with a token of `user` older than `version`. */
  predicate PassedStale(call: Call, user: UserId, version: nat) {
    (call.RefreshRotate? || call.Refreshed?) && call.token.user == user && call.token.version < version
  }

  lemma StaleStep(s: State, move: Move, i: nat, user: UserId, version: nat)
    requires Invariant(s) && VersionAtLeast(s, user, version)
    requires i < |s.calls| ==> !PassedStale(s.calls[i], user, version)
    ensures VersionAtLeast(Step(s, move), user, version)
    ensures i < |Step(s, move).calls| ==> !PassedStale(Step(s, move).calls[i], user, version)
  {
    StepIsTransition(s, move);
    StepKeepsInvariant(s, move);
  }

  lemma {:induction false} StaleRun(s: State, moves: seq<Move>, i: nat, user: UserId, version: nat)
    requires Invariant(s) && VersionAtLeast(s, user, version)
    requires i < |s.calls| ==> !PassedStale(s.calls[i], user, version)
    ensures i < |Exec(s, moves).calls| ==> !PassedStale(Exec(s, moves).calls[i], user, version)
    decreases |moves|
  {
    if moves != [] {
      StepKeepsInvariant(s, moves[0]);
      StaleStep(s, moves[0], i, user, version);
      StaleRun(Step(s, moves[0]), moves[1..], i, user, version);
    }
  }

  /** No refresh begun after the commit, and none that had not yet passed its version
      check, ever succeeds with a token issued before the commit. */
  lemma OldTokensNeverRefresh(before: seq<Move>, commit: Move, after: seq<Move>, user: UserId, i: nat)
    requires CommitsPassword(Exec(Init(), before), commit, user)
    requires var s := Step(Exec(Init(), before), commit);
             i < |s.calls| ==> !s.calls[i].RefreshRotate? && !s.calls[i].Refreshed?
    ensures var earlier := Exec(Init(), before);
            var later := Exec(Init(), before + [commit] + after);
            i < |later.calls| && later.calls[i].Refreshed? && later.calls[i].token.user == user ==>
              later.calls[i].token.version > earlier.stores.rows[user].version && later.calls[i].token !in earlier.minted
  {
    var s := Exec(Init(), before);
    ReachableInvariant(before);
    CommitRaisesVersion(s, commit, user);
    StepKeepsInvariant(s, commit);
    ExecSnoc(Init(), before, commit);
    ExecConcat(Init(), before + [commit], after);
    StaleRun(Step(s, commit), after, i, user, s.stores.rows[user].version + 1);
  }

  /** A login signs a token only while the stored digest is the one the password was
      verified against, the version is the one that digest belongs to, and the account is active. */
  lemma LoginSignsVerifiedDigest(moves: seq<Move>, move: Move)
    requires var s := Exec(Init(), moves);
             move.Advance? && move.id < |s.calls| && s.calls[move.id].LoginConfirm? && Resume(s, move).LoginCreate?
    ensures var s := Exec(Init(), moves);
            var seen := s.calls[move.id].seen;
            var token := Resume(s, move).token;
            && token.user == s.calls[move.id].user && token.user in s.stores.rows
            && s.stores.rows[token.user].digest == seen.digest
            && s.stores.rows[token.user].version == seen.version == token.version
            && s.stores.rows[token.user].status == Active
            && token !in s.minted && token.session !in s.chains
  {
    var s := Exec(Init(), moves);
    ReachableInvariant(moves);
    assert CallOk(s, s.calls[move.id]);
    assert Resume(s, move).token in s.minted ==> TokenOk(s, Resume(s, move).token);
  }
}
