/** What the session scripts are for: which identities the store admits, and what each
    script gives, takes away and leaves alone. */
module SessionLaws {
  import opened Domain
  import opened SessionStore
  import opened SessionGenerations

  /** New sessions of the user are accepted, and existing ones of this generation are valid. */
  predicate IsOpen(store: Store, user: UserId) {
    user in store.access && store.access[user].Usable() && !store.access[user].blocked
  }

  /** The identity belongs to a stored session of the current generation, under its current JTI. */
  predicate Admits(store: Store, jti: Jti, user: UserId, session: SessionId, version: nat) {
    && version > 0 && IsOpen(store, user)
    && jti in store.pointers && store.pointers[jti] == session
    && session in store.sessions
    && store.sessions[session] == Session(user, jti, version, store.access[user].generation)
  }

  // ----- lookup -----

  /** A lookup answers exactly the admitted identities, with their record. */
  lemma FoundExactlyWhen(store: Store, jti: Jti, user: UserId, session: SessionId, version: nat)
    ensures Run(store, Find(jti, user, session, version)).1.Found? <==> Admits(store, jti, user, session, version)
    ensures Admits(store, jti, user, session, version) ==>
              Run(store, Find(jti, user, session, version)) == (store, Found(session, store.sessions[session]))
    ensures Run(store, Find(jti, user, session, version)).1.Blocked?
       <==> version > 0 && user in store.access && store.access[user].Usable() && store.access[user].blocked
  {
  }

  /** A lookup removes at most a pointer that admits nobody. */
  lemma FindKeepsIdentities(store: Store, find: Command, jti: Jti, user: UserId, session: SessionId, version: nat)
    requires find.Find?
    ensures var after := Run(store, find).0;
            && after.sessions == store.sessions && after.access == store.access && after.index == store.index
            && (Admits(after, jti, user, session, version) <==> Admits(store, jti, user, session, version))
  {
  }

  // ----- creation -----

  /** A creation is refused exactly for a blocked user or unusable access state, and
      otherwise stores the session under the user's generation, the first being one. */
  lemma CreatedExactlyWhen(store: Store, session: SessionId, user: UserId, jti: Jti, version: nat)
    ensures var (after, reply) := Run(store, Create(session, user, jti, version));
            && (reply.Created? <==> version > 0 && (user !in store.access || IsOpen(store, user)))
            && (reply.Blocked? <==>
                  version > 0 && user in store.access && store.access[user].Usable() && store.access[user].blocked)
            && (!reply.Created? ==> after == store)
            && (reply.Created? ==>
                  var generation := if user in store.access then store.access[user].generation else 1;
                  && reply.generation == generation
                  && after.access == store.access[user := Access(false, generation)]
                  && after.sessions == store.sessions[session := Session(user, jti, version, generation)]
                  && session in Indexed(after, user)
                  && Admits(after, jti, user, session, version))
  {
  }

  /** A creation touches no other identity. */
  lemma CreateKeepsIdentities(store: Store, create: Command, jti: Jti, user: UserId, session: SessionId, version: nat)
    requires create.Create? && Ordered(store) && jti != create.jti && session != create.session
    ensures Admits(Run(store, create).0, jti, user, session, version) <==> Admits(store, jti, user, session, version)
  {
    assert session in store.sessions ==> WithinGeneration(store, session);
  }

  // ----- rotation -----

  /** Exactly what a lookup would find can be rotated. Afterwards the session goes on
      under the new JTI with nothing else changed, and the old JTI admits nobody. */
  lemma RotatedExactlyWhen(store: Store, jti: Jti, renewed: Jti, user: UserId, session: SessionId, version: nat)
    ensures var (after, reply) := Run(store, Rotate(jti, renewed, user, session, version));
            && (reply.Rotated? <==> Admits(store, jti, user, session, version))
            && (!reply.Rotated? ==>
                  after.sessions == store.sessions && after.access == store.access && after.index == store.index)
            && (reply.Rotated? ==>
                  && reply == Rotated(session)
                  && after.sessions == store.sessions[session := store.sessions[session].(jti := renewed)]
                  && after.access == store.access
                  && session in Indexed(after, user)
                  && Admits(after, renewed, user, session, version))
  {
  }

  /** The renewed identity is found, with the record it had. */
  lemma RenewedIsFound(store: Store, jti: Jti, renewed: Jti, user: UserId, session: SessionId, version: nat)
    requires Run(store, Rotate(jti, renewed, user, session, version)).1.Rotated?
    ensures var after := Run(store, Rotate(jti, renewed, user, session, version)).0;
            Run(after, Find(renewed, user, session, version)).1
            == Found(session, store.sessions[session].(jti := renewed))
  {
    RotatedExactlyWhen(store, jti, renewed, user, session, version);
    FoundExactlyWhen(Run(store, Rotate(jti, renewed, user, session, version)).0, renewed, user, session, version);
  }

  /** A rotation touches no identity but the two it is about. */
  lemma RotateKeepsIdentities(store: Store, rotate: Command, jti: Jti, user: UserId, session: SessionId, version: nat)
    requires rotate.Rotate? && jti != rotate.jti && jti != rotate.renewed
    ensures Admits(Run(store, rotate).0, jti, user, session, version) <==> Admits(store, jti, user, session, version)
  {
  }

  // ----- deletion -----

  /** No two stored sessions carry the same JTI. */
  ghost predicate JtisDistinct(store: Store) {
    forall a, b :: a in store.sessions && b in store.sessions && store.sessions[a].jti == store.sessions[b].jti ==> a == b
  }

  /** A deletion by target is done exactly when the user owns every target. It removes
      exactly those sessions, with their places in the index, and no other identity. */
  lemma DeletedExactlyWhenOwned(store: Store, user: UserId, targets: set<SessionId>)
    ensures var (after, reply) := Run(store, DeleteOwned(user, targets));
            && (reply.Deleted? <==> forall id :: id in targets ==> id in store.sessions && store.sessions[id].user == user)
            && (!reply.Deleted? ==> reply.Rejected? && after == store)
            && (reply.Deleted? ==>
                  && after.sessions == store.sessions - targets
                  && (forall jti :: jti in after.pointers <==>
                        jti in store.pointers && forall id :: id in targets ==> store.sessions[id].jti != jti)
                  && after.access == store.access
                  && Indexed(after, user) == Indexed(store, user) - targets)
  {
    if forall id :: id in targets ==> id in store.sessions && store.sessions[id].user == user {
      assert OwnedAmong(store, user, targets) == targets;
    } else {
      var id :| id in targets && !(id in store.sessions && store.sessions[id].user == user);
      assert id !in OwnedAmong(store, user, targets);
    }
  }

  lemma DeleteOwnedIdentities(store: Store, owner: UserId, targets: set<SessionId>,
                              jti: Jti, user: UserId, session: SessionId, version: nat)
    requires JtisDistinct(store) && Run(store, DeleteOwned(owner, targets)).1.Deleted?
    ensures Admits(Run(store, DeleteOwned(owner, targets)).0, jti, user, session, version)
       <==> Admits(store, jti, user, session, version) && session !in targets
  {
    var after := Run(store, DeleteOwned(owner, targets)).0;
    assert after == Drop(store, owner, targets);
    if Admits(store, jti, user, session, version) && session !in targets {
      assert jti !in CurrentJtis(store, targets);
    }
  }

  /** The sessions that a deletion of indexed sessions removes: those of the user that the
      index holds, but for the kept one. */
  predicate Removes(store: Store, user: UserId, kept: Option<SessionId>, id: SessionId) {
    id in store.sessions && store.sessions[id].user == user && id in Indexed(store, user) && kept != Some(id)
  }

  /** Exactly the sessions that are not removed survive, record for record and with their
      pointers; a removed session has lost the pointer of its JTI. */
  ghost predicate RemovesExactly(store: Store, after: Store, user: UserId, kept: Option<SessionId>) {
    && (forall id :: id in after.sessions <==> id in store.sessions && !Removes(store, user, kept, id))
    && (forall id :: id in after.sessions ==> after.sessions[id] == store.sessions[id])
    && (forall jti, id | id in after.sessions && after.sessions[id].jti == jti
          :: (jti in after.pointers && after.pointers[jti] == id) <==> (jti in store.pointers && store.pointers[jti] == id))
    && (forall id :: Removes(store, user, kept, id) && store.sessions[id].jti in after.pointers ==>
          after.pointers[store.sessions[id].jti] != id)
  }

  lemma RevokeRemoves(store: Store, user: UserId, candidates: set<SessionId>, kept: Option<SessionId>)
    requires candidates == Indexed(store, user) - (if kept.Some? then {kept.value} else {})
    ensures RemovesExactly(store, Revoke(store, OwnedAmong(store, user, candidates)), user, kept)
  {
  }

  /** Deleting the others is done exactly when the user owns the session to keep, which
      stays with everything that is not the user's. */
  lemma DeleteOthersKeepsExactly(store: Store, user: UserId, keep: SessionId)
    ensures var (after, reply) := Run(store, DeleteOthers(user, keep));
            && (reply.Deleted? <==> keep in store.sessions && store.sessions[keep].user == user)
            && (!reply.Deleted? ==> reply.Rejected? && after == store)
            && (reply.Deleted? ==>
                  && RemovesExactly(store, after, user, Some(keep))
                  && keep in after.sessions && after.access == store.access
                  && Indexed(after, user) == Indexed(store, user) * {keep})
  {
    if keep in store.sessions && store.sessions[keep].user == user {
      RevokeRemoves(store, user, Indexed(store, user) - {keep}, Some(keep));
    }
  }

  /** Deleting all always succeeds and leaves the user no index. */
  lemma DeleteAllRemovesIndexed(store: Store, user: UserId)
    ensures var (after, reply) := Run(store, DeleteAll(user));
            && reply.Deleted? && RemovesExactly(store, after, user, None)
            && after.access == store.access && Indexed(after, user) == {}
  {
    assert Indexed(store, user) - {} == Indexed(store, user);
    RevokeRemoves(store, user, Indexed(store, user), None);
  }

  /** A block closes the user's access, moving the generation on unless it was closed, and
      removes the indexed sessions; exhausted or unusable access state refuses it unchanged. */
  lemma BlockCloses(store: Store, user: UserId)
    ensures var (after, reply) := Run(store, Block(user));
            var generation := if user in store.access then store.access[user].generation else 0;
            var closed := user in store.access && store.access[user].blocked;
            && (reply.Deleted? <==>
                  (user in store.access ==> store.access[user].Usable()) && (closed || generation < MAX_SAFE_GENERATION))
            && (!reply.Deleted? ==> reply.Failed? && after == store)
            && (reply.Deleted? ==>
                  && after.access == store.access[user := Access(true, if closed then generation else generation + 1)]
                  && RemovesExactly(store, after, user, None) && Indexed(after, user) == {})
  {
    DeleteAllRemovesIndexed(store, user);
  }

  /** An unblock opens existing access state and changes nothing else. */
  lemma UnblockOpens(store: Store, user: UserId)
    ensures var (after, reply) := Run(store, Unblock(user));
            && (reply.Updated? <==> user in store.access && store.access[user].Usable())
            && (!reply.Updated? ==> reply.Failed? && after == store)
            && (reply.Updated? ==>
                  && after == store.(access := store.access[user := Access(false, store.access[user].generation)])
                  && IsOpen(after, user))
  {
  }

  /** What survives a removal with the access of its user unchanged admits as before, and nothing else does. */
  lemma RemovalIdentities(store: Store, after: Store, owner: UserId, kept: Option<SessionId>,
                          jti: Jti, user: UserId, session: SessionId, version: nat)
    requires RemovesExactly(store, after, owner, kept)
    requires user in after.access <==> user in store.access
    requires user in store.access ==> after.access[user] == store.access[user]
    ensures Admits(after, jti, user, session, version)
       <==> Admits(store, jti, user, session, version) && !Removes(store, owner, kept, session)
  {
  }
}
