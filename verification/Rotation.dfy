/** Refresh-token rotation: one success a token, one valid JTI a session, one chain. */
module Rotation {
  import opened Domain
  import opened SessionStore
  import opened UseCases
  import opened Protocol
  import opened ProtocolInvariant

  /** Whether the session store admits the identity at this instant. */
  predicate Validates(s: State, token: Token) {
    Run(s.stores.redis, Find(token.jti, token.user, token.session, token.version)).1.Found?
  }

  predicate CanRotate(s: State, token: Token, renewed: Jti) {
    Run(s.stores.redis, Rotate(token.jti, renewed, token.user, token.session, token.version)).1.Rotated?
  }

  /** Of any number of concurrent refreshes with one token, at most one succeeds. */
  lemma AtMostOneRefreshSucceeds(moves: seq<Move>, a: nat, b: nat)
    requires var s := Exec(Init(), moves);
             && a < |s.calls| && b < |s.calls|
             && s.calls[a].Refreshed? && s.calls[b].Refreshed?
             && s.calls[a].token.session == s.calls[b].token.session
             && s.calls[a].token.jti == s.calls[b].token.jti
    ensures a == b
  {
    var s := Exec(Init(), moves);
    ReachableInvariant(moves);
    assert CallOk(s, s.calls[a]) && CallOk(s, s.calls[b]);
    var t := s.calls[a].token;
    var chain := s.chains[t.session];
    var i: nat :| LinkedAt(chain, i, t.jti, s.calls[a].renewed.jti);
    var j: nat :| LinkedAt(chain, j, t.jti, s.calls[b].renewed.jti);
    assert i == j;
    assert Owns(s.calls[a]) == Owns(s.calls[b]);
  }

  /** An identity that validates or rotates carries the last JTI of its session's chain. */
  lemma OnlyTheLastJtiValidates(moves: seq<Move>, token: Token, renewed: Jti)
    requires var s := Exec(Init(), moves); Validates(s, token) || CanRotate(s, token, renewed)
    ensures var s := Exec(Init(), moves); token.session in s.chains && Last(s.chains[token.session], token.jti)
  {
    ReachableInvariant(moves);
  }

  /** At most one JTI per session validates in any reachable state. */
  lemma OneJtiPerSessionValidates(moves: seq<Move>, first: Token, second: Token)
    requires var s := Exec(Init(), moves); Validates(s, first) && Validates(s, second)
    requires first.session == second.session
    ensures first == second
  {
    OnlyTheLastJtiValidates(moves, first, 0);
    OnlyTheLastJtiValidates(moves, second, 0);
  }

  /** A JTI that is not the last of its chain neither validates nor rotates, now or at any later moment. */
  lemma RetiredForever(moves: seq<Move>, more: seq<Move>, id: SessionId, k: nat, token: Token, renewed: Jti)
    requires var s := Exec(Init(), moves); id in s.chains && k + 1 < |s.chains[id]| && s.chains[id][k] == token.jti
    ensures var later := Exec(Init(), moves + more); !Validates(later, token) && !CanRotate(later, token, renewed)
  {
    var s := Exec(Init(), moves);
    ReachableInvariant(moves);
    ReachableInvariant(moves + more);
    ExecConcat(Init(), moves, more);
    ExecKeepsInvariant(s, more);
    assert Exec(s, more).chains[id][k] == token.jti;
  }

  /** A successful refresh is one link of its session's chain, its new token differs from
      the consumed one only in the JTI, and the consumed one is useless from then on. */
  lemma RefreshesFormOneChain(moves: seq<Move>, more: seq<Move>, a: nat, renewed: Jti)
    requires a < |Exec(Init(), moves).calls| && Exec(Init(), moves).calls[a].Refreshed?
    ensures var s := Exec(Init(), moves);
            var call := s.calls[a];
            var later := Exec(Init(), moves + more);
            && Linked(s, call.token.session, call.token.jti, call.renewed.jti)
            && Linked(later, call.token.session, call.token.jti, call.renewed.jti)
            && call.renewed == call.token.(jti := call.renewed.jti)
            && !Validates(later, call.token) && !CanRotate(later, call.token, renewed)
  {
    var s := Exec(Init(), moves);
    ReachableInvariant(moves);
    var call := s.calls[a];
    assert CallOk(s, call);
    var id := call.token.session;
    var k: nat :| LinkedAt(s.chains[id], k, call.token.jti, call.renewed.jti);
    RetiredForever(moves, more, id, k, call.token, renewed);
    ExecConcat(Init(), moves, more);
    ExecKeepsInvariant(s, more);
    assert LinkedAt(Exec(s, more).chains[id], k, call.token.jti, call.renewed.jti);
  }
}
