# Verified model of the account and session service

The service keeps an account in two stores that share no transaction. PostgreSQL holds
status, role, password digest and credential version. Redis holds, per user, the access
state (a blocked flag and a session generation), the sessions, the JTI pointers and the
index of sessions. This project models both stores, every use case as a call that can be
interleaved or cut off between any two remote commands, and the self-contained codecs
and engines around them. It proves what every run keeps.

Check it with `dafny verify dfyconfig.toml` in this directory.

## How it is built

| part | modules |
|---|---|
| value objects, byte strings, decimals | `Domain`, `Text`, `Decimal` |
| Redis: one function per script, the mutable repository proved equal to them, generation order, what each script gives and leaves alone, index lifetime | `SessionStore`, `SessionGenerations`, `SessionLaws`, `IndexLifetime` |
| PostgreSQL: one function per statement, the mutable repository | `AccountStore` |
| use cases as resumable calls, one command at a time | `UseCases` |
| any number of calls interleaved, with faults and expiry | `Protocol`, `ProtocolInvariant` |
| what holds over all runs | `CallHistories`, `Revocation`, `Rotation`, `Credentials`, `AccountHistory` |
| calls that run alone: when each succeeds, what it stores, why it refuses, and recovery | `SerialCalls`, `Outcomes`, `StatusRecovery` |
| the use cases as the methods a server runs | `Workflows` |
| request-time authorization, permission sets, token claims | `Authorization`, `Permissions`, `TokenClaims` |
| the Argon2id hash string and the concurrency gate | `Base64`, `PasswordHash`, `HashGate`, `PasswordService` |
| migrations | `MigrationFiles`, `Migrations` |
| user listing, pages, session lists, the `Vary` header | `Listing`, `Pagination`, `SessionList`, `VaryHeader` |

`Outcomes` says of every use case what it ends in and leaves stored when it runs alone, and
`CallHistories` what a call must have done on its way when others run beside it. The methods
of `Workflows` end as the completed call does (`SerialCalls.ReachedEndIsCompletion`), so the
outcomes are theirs too.

A run is a sequence of moves. `Advance` performs exactly one command of one call; its
fault says whether the command took effect, was lost, or took effect with its answer
lost. A call that gets no further `Advance` has stopped for good. Sessions, pointers and
indexes may expire at any move. Access state does not expire: no script sets a lifetime
on it. Identifiers are drawn from counters, which is the service's assumption that ULIDs
are fresh. A token is the identity it carries (user, session, JTI, credential version);
the access token and the refresh token of one issue carry the same one. Whether a
password matched and whether a token could be signed is decided by the run.

Results that are negative or conditional:

- `Migrations.FailedRunChangesExactlyWhen`: a step of a run that reports failure changes the
  database exactly when it is a commit that takes effect without its acknowledgement and has
  something to make visible. Everything that success leaves is then stored
  (`Migrations.UnacknowledgedCommitIsComplete`), and the case is reachable for every list
  (`Migrations.CommitCanBeInDoubt`).
- `TokenClaims.RoundTrip`: a token with a life below a second may not come back; it
  does exactly when a whole second lies after its issue and not after its expiry.
- `Pagination.TotalPagesExactly`: the page count is the rounded-up quotient exactly when
  `total + limit - 1` fits in 64 bits; beyond that the sum wraps and no page is announced.
- `SessionGenerations.BlockOvertakes`: a block fails exactly when an unblocked user has used
  up the generations.
- `StatusRecovery.OneActivationRecoversExactlyWhen`: one activation request does not undo
  every interrupted suspension; it does exactly when the account is suspended or not
  blocked. Activate, suspend, activate always does. A suspension cut off between its block and
  its write leaves an active, blocked account (`StatusRecovery.OneActivationMayNotRecover`).
- `SessionGenerations.DeleteAllLeavesOnlyUnindexed`: the comment at
  `internal/domain/repository/session_repository.go:21-22` says that deleting all sessions
  revokes every stored session of the user. The script revokes the indexed ones; a stored
  session that the index has lost survives, as after the run of
  `Revocation.SessionOutsideIndexSurvives`. The code can lose the index in spite of the
  extension at `internal/infra/storage/redis/scripts/create_session.lua:85-90` and
  `internal/infra/storage/redis/scripts/rotate_jti.lua:134-139`: both compare the session's
  life with the index's remaining life in the whole seconds that `TTL` reports, and Redis
  rounds those to the nearest second. An index short by at most half a second is not
  extended, so of two sessions of one lifetime opened at most half a second apart the second
  outlives the index (`IndexLifetime.SecondSessionLosesIndexExactlyWhen`). The rounding is
  Redis's own and is assumed; Redis is not part of this model. Eviction of the index key by
  the server would have the same effect. Version and block checks do not use the index
  and still hold for such a session.

## Model

| member | source | states |
|---|---|---|
| SessionStore.RevokeOneMore | internal/infra/storage/redis/scripts/delete_other_sessions.lua:127-146 | the deletion loop handles candidates in any order with one result: revoking a set is revoking its members one by one, each JTI going only while it still points at its session |
| SessionStore.DropOneMore | internal/infra/storage/redis/scripts/delete_owned_sessions.lua:12-19 | the same for the owned-session script, which drops current JTIs wherever they point and also prunes the index |
| SessionStore.SessionRepository.Create | internal/infra/storage/redis/scripts/create_session.lua:1-92 | in-place creation has exactly the effect and reply of the atomic script: refused while blocked, first access state unblocked with generation 1, a clash changes nothing |
| SessionStore.SessionRepository.FindByJTI | internal/infra/storage/redis/scripts/get_session_by_jti.lua:1-105 | lookup with exactly the script's replies and pruning |
| SessionStore.SessionRepository.RotateJTI | internal/infra/storage/redis/scripts/rotate_jti.lua:1-146 | rotation moves one pointer, renews the record's JTI and nothing else, or refuses unchanged |
| SessionStore.SessionRepository.RevokeOwned | internal/infra/storage/redis/scripts/delete_other_sessions.lua:127-146 | the loop over candidates removes exactly those of the user, foreign ones stay |
| SessionStore.SessionRepository.DeleteByUser | internal/infra/storage/redis/scripts/delete_owned_sessions.lua:1-21 | all or nothing: one foreign or missing target rejects the call unchanged |
| SessionStore.SessionRepository.DeleteOthersByUser | internal/infra/storage/redis/scripts/delete_other_sessions.lua:14-29 | the current session must be the caller's, and is the one kept |
| SessionStore.SessionRepository.DeleteAllByUser | internal/infra/storage/redis/session/repository.go:342-360 | revokes the user's indexed sessions and removes the index |
| SessionStore.SessionRepository.BlockAndDeleteAllByUser | internal/infra/storage/redis/scripts/delete_other_sessions.lua:31-73 | blocks, raises the generation once however often repeated, revokes the indexed sessions |
| SessionStore.SessionRepository.UnblockUser | internal/infra/storage/redis/scripts/unblock_user.lua:1-37 | unblocks an existing access state and keeps its generation |
| SessionGenerations.SessionEffect | internal/infra/storage/redis/session/repository.go:31-78 | after any script a stored session is the created one, the rotated one, or what it was |
| SessionGenerations.RunKeepsOrder | internal/domain/repository/session_repository.go:24-30 | no script lets a session's generation exceed its user's, equal it while blocked, or lowers a generation |
| SessionGenerations.EveryRunKeepsOrder | internal/domain/repository/session_repository.go:24-30 | the same for every sequence of scripts |
| SessionGenerations.OvertakenForever | internal/infra/storage/redis/session/repository.go:233-300 | a session whose generation was passed stays passed whatever follows |
| SessionGenerations.OvertakenIsUseless | internal/usecase/session/usecase.go:158-167 | a passed session answers no lookup and no rotation, under any JTI or claim |
| SessionGenerations.BlockOvertakes | internal/infra/storage/redis/scripts/delete_other_sessions.lua:65-72 | a block fails exactly at exhausted generations; otherwise it passes every session of the user, indexed or not |
| SessionGenerations.RevokedForever | internal/domain/repository/session_repository.go:24-30 | a session alive at a block never validates or rotates again, however many unblocks and logins follow |
| SessionGenerations.BlockIsIdempotent | internal/infra/storage/redis/scripts/delete_other_sessions.lua:65-67 | a repeated block changes no access state and no generation |
| SessionGenerations.DeleteAllLeavesOnlyUnindexed | internal/domain/repository/session_repository.go:21-22 | after deleting all, a session of the user survives exactly when the index did not hold it |
| SessionLaws.FoundExactlyWhen | internal/infra/storage/redis/scripts/get_session_by_jti.lua:19-105 | a lookup finds exactly the identities of stored sessions of the current generation under their current JTI, for an open user; blocked exactly when the user is |
| SessionLaws.FindKeepsIdentities | internal/infra/storage/redis/scripts/get_session_by_jti.lua:53-90 | a lookup prunes at most a pointer that admits nobody |
| SessionLaws.CreatedExactlyWhen | internal/infra/storage/redis/scripts/create_session.lua:20-92 | a creation is refused exactly for blocked or unusable access; otherwise the session is stored under the user's generation, the first being 1, indexed, and admitted at once |
| SessionLaws.CreateKeepsIdentities | internal/infra/storage/redis/scripts/create_session.lua:80-90 | a creation touches no other identity |
| SessionLaws.RotatedExactlyWhen | internal/infra/storage/redis/scripts/rotate_jti.lua:45-146 | exactly the admitted identities rotate; the record changes only its JTI and the renewed identity is admitted |
| SessionLaws.RenewedIsFound | internal/infra/storage/redis/scripts/rotate_jti.lua:121-131 | a lookup with the renewed JTI finds the record as it was but for the JTI |
| SessionLaws.RotateKeepsIdentities | internal/infra/storage/redis/scripts/rotate_jti.lua:115-139 | a rotation touches no identity but its two |
| SessionLaws.DeletedExactlyWhenOwned | internal/infra/storage/redis/scripts/delete_owned_sessions.lua:1-21 | done exactly when the user owns every target, and removes exactly the targets with their index entries |
| SessionLaws.DeleteOwnedIdentities | internal/infra/storage/redis/scripts/delete_owned_sessions.lua:12-19 | afterwards exactly the identities of other sessions are admitted as before |
| SessionLaws.DeleteOthersKeepsExactly | internal/infra/storage/redis/scripts/delete_other_sessions.lua:14-29 | done exactly when the user owns the kept session; it stays, with everything that is not the user's or not indexed |
| SessionLaws.DeleteAllRemovesIndexed | internal/infra/storage/redis/scripts/delete_other_sessions.lua:121-146 | removes exactly the user's indexed sessions and the index |
| SessionLaws.BlockCloses | internal/infra/storage/redis/scripts/delete_other_sessions.lua:31-146 | exact success condition, exact access state, exactly the indexed sessions removed |
| SessionLaws.UnblockOpens | internal/infra/storage/redis/scripts/unblock_user.lua:1-37 | opens existing access state at its generation and changes nothing else |
| SessionLaws.RemovalIdentities | internal/infra/storage/redis/scripts/delete_other_sessions.lua:127-146 | what survives a removal admits as before, and nothing else does |
| IndexLifetime.OutlivesExactlyWhen | internal/infra/storage/redis/scripts/rotate_jti.lua:134-139 | after the extension the index lives as long as the session exactly unless it was short by at most half a second |
| IndexLifetime.SecondSessionLosesIndexExactlyWhen | internal/infra/storage/redis/scripts/create_session.lua:85-90 | of two sessions of one lifetime the second outlives the index exactly when at most half a second lay between them |
| AccountStore.UserRepository.UpdatePassword | internal/infra/database/postgres/user/repository.go:140-166 | digest and credential version change in one statement |
| AccountStore.UserRepository.UpdateUserFields | internal/infra/database/postgres/user/repository.go:290-340 | a new digest always raises the version, an e-mail alone never does, no field is an error |
| AccountStore.UserRepository.UpdateStatus | internal/infra/database/postgres/user/repository.go:342-435 | compare-and-set and miss classification: applied exactly from the expected status, success means the requested one is stored |
| AccountStore.UserRepository.UpdateRole | internal/infra/database/postgres/user/repository.go:192-288 | the same for roles |
| AccountStore.UserRepository.Delete | internal/infra/database/postgres/user/repository.go:437-451 | removes exactly the named row, or reports it missing |
| AccountStore.PasswordIsStored | internal/infra/database/postgres/user/repository.go:148-161 | a password write stores the given digest under the next version and changes no other column or row |
| AccountStore.FieldsAreStored | internal/infra/database/postgres/user/repository.go:290-340 | a new digest is stored the same way; without one no credential column changes |
| AccountStore.StatusIsSwapped | internal/infra/database/postgres/user/repository.go:342-393 | a compare-and-set writes exactly the status, exactly from the expected one |
| AccountStore.RoleIsSwapped | internal/infra/database/postgres/user/repository.go:192-240 | the same for roles |
| AccountStore.RowIsRemoved | internal/infra/database/postgres/user/repository.go:437-451 | a deletion removes exactly the row |
| Protocol.ExecRunsEffects | internal/infra/storage/redis/session/repository.go:31-78 | every protocol run drives Redis by a sequence of whole scripts, so script-level results carry over to interleaved calls |
| Domain.RankDecides | internal/domain/valueobject/user_role.go:58-83 | rank alone decides whose role may be changed, to what, and who is listed: an administrator all, an operator clients, a client nobody |
| Domain.StatusGraph | internal/domain/valueobject/user_status.go:42-63 | the permitted transitions spelled out |
| ProtocolInvariant.QueryEffect | internal/infra/database/postgres/user/repository.go:140-166 | a statement never lowers a version, changes a digest only with the version, and changes status or role only by the matching compare-and-set |
| ProtocolInvariant.StepIsTransition | internal/usecase/authentication/usecase.go:99-363 | every step of every call is one of the permitted transitions over rows, sessions, chains, tokens and calls |
| ProtocolInvariant.TransitionKeepsInvariant | internal/usecase/authentication/usecase.go:141-163 | every such transition keeps the nine-part invariant, and versions, generations, chains and minted tokens only grow |
| ProtocolInvariant.ReachableInvariant | internal/usecase/authentication/usecase.go:141-163 | the invariant holds after every run |
| CallHistories.LoginsAreVerified | internal/usecase/authentication/usecase.go:120-139 | in every run, a login past the password check had the password of an active account verified at one of its own steps |
| CallHistories.LoggedInWasAdmitted | internal/usecase/authentication/usecase.go:173-189 | the token of a successful login was admitted right after its session was created |
| CallHistories.RefreshesAreChecked | internal/usecase/authentication/usecase.go:273-300 | a successful refresh found its token admitted and then its account healthy at the token's version, at steps of its own |
| CallHistories.RefreshedWasAdmitted | internal/usecase/authentication/usecase.go:344-353 | the renewed token of a successful refresh was admitted right after the rotation |
| CallHistories.PasswordChangesAreVerified | internal/usecase/user/usecase.go:270-290 | a password change past its checks verified the current password and hashed the new one at a step of its own |
| CallHistories.PasswordChangesAreStored | internal/usecase/user/usecase.go:292-301 | a successful password change stored its digest under the next version at a step of its own |
| CallHistories.UpdatesAreStored | internal/usecase/user/usecase.go:223-232 | a successful update stored its digest, if it had one, at a step of its own |
| CallHistories.StatusChangesAreAuthorized | internal/usecase/user/usecase.go:433-460 | a status change past its snapshot had an actor who outranked the stored target, and a permitted transition, at a step of its own |
| CallHistories.DeletedUsersAreGone | internal/usecase/user/usecase.go:197-208 | once DeleteUser has returned nil the account is in no later state |
| CallHistories.EndedForGood | internal/usecase/authentication/usecase.go:240-258 | a session that has ended is never stored again |
| CallHistories.LogoutsEndSessions | internal/usecase/authentication/usecase.go:240-258 | a successful logout ended its sessions at a step of its own, for good |
| Revocation.BlockedSessionsStayRevoked | internal/usecase/user/usecase.go:470-513 | in every interleaving, a session alive when a block takes effect never validates or rotates again |
| Revocation.BlockedRefuses | internal/infra/storage/redis/session/repository.go:70-76 | while a user is blocked no create, lookup or rotation admits the user |
| Revocation.ShutOutUntilUnblock | internal/usecase/user/usecase.go:177-209 | from a block to the next unblock the user stays blocked, sessions only disappear, and every admitting script refuses, whatever is in flight |
| Revocation.DeletionBlocked | internal/usecase/user/usecase.go:189-206 | a deletion that got past its block performed it inside the call and was told so |
| Revocation.DeletedUsersSessionsAreGone | internal/usecase/user/usecase.go:177-209 | once DeleteUser has returned nil, there was a moment inside the call such that no session of the user alive then validates or rotates in any later state |
| Revocation.SessionOutsideIndexSurvives | internal/domain/repository/session_repository.go:21-22 | a login whose index expires first leaves a stored session that deleting all sessions does not revoke |
| Rotation.AtMostOneRefreshSucceeds | internal/usecase/authentication/usecase.go:260-363 | of any number of concurrent refreshes with one token at most one succeeds |
| Rotation.OnlyTheLastJtiValidates | internal/usecase/session/usecase.go:140-169 | what validates or rotates carries the last JTI of its session's chain |
| Rotation.OneJtiPerSessionValidates | internal/usecase/session/usecase.go:140-169 | two identities of one session that validate in the same state are equal |
| Rotation.RetiredForever | internal/infra/storage/redis/session/repository.go:233-300 | a JTI that has a successor never validates or rotates at any later moment |
| Rotation.RefreshesFormOneChain | internal/usecase/authentication/usecase.go:303-353 | each successful refresh is one link of its session's chain, changes only the JTI, and makes the consumed identity useless |
| Credentials.CommitRaisesVersion | internal/infra/database/postgres/user/repository.go:148-161 | a password commit puts the stored version above that of every token ever signed for the user |
| Credentials.VersionsBounded | internal/usecase/authentication/usecase.go:303-309 | every signed token carries a version between 1 and the stored one |
| Credentials.OldTokensNeverPass | internal/usecase/authorization/usecase.go:27-100 | after a password commit no older token passes either fresh check in any later state, cleaned up or not |
| Credentials.OldTokensNeverRefresh | internal/usecase/authentication/usecase.go:290-300 | no refresh that had not passed its version check at the commit ever succeeds with an older token |
| Credentials.LoginSignsVerifiedDigest | internal/usecase/authentication/usecase.go:141-163 | a login signs only while the stored digest is the verified one, with its version, an active account and a new identity |
| AccountHistory.CommittedStatusesFormPath | internal/domain/valueobject/user_status.go:42-63 | in every run a user's statuses form a path of permitted transitions |
| AccountHistory.NeverInactiveAgain | internal/domain/valueobject/user_status.go:42-63 | such a path never re-enters inactive |
| AccountHistory.DeletedForGood | internal/usecase/user/usecase.go:197-206 | a deleted account has no status at any later moment |
| AccountHistory.SuccessWasCurrent | internal/usecase/user/usecase.go:433-562 | a ChangeStatus or ChangeRole call that returned nil had, at some step inside the call, the requested value stored |
| AccountHistory.RoleChangesAuthorized | internal/domain/valueobject/user_role.go:58-72 | every committed role change satisfied the actor's hierarchy against the role overwritten and the role written |
| AccountHistory.NoAdminNoRoleChange | internal/usecase/user/usecase.go:344-431 | a run without an acting administrator changes no role |
| SerialCalls.ReachedEndIsCompletion | internal/usecase/user/usecase.go:433-562 | a finished state reached command by command is the result of the completed call |
| Outcomes.LoginSucceedsExactlyWhen | internal/usecase/authentication/usecase.go:99-225 | a lone login succeeds exactly with the right password for a healthy open account and both tokens signed; the token carries the stored version and is admitted; otherwise no row changes and no session stays |
| Outcomes.LoginRefuses | internal/usecase/authentication/usecase.go:102-154 | every refusal before the session leaves all as it was, with the error of its reason |
| Outcomes.CreateTakenBack | internal/usecase/authentication/usecase.go:199-208 | a session whose access token cannot be signed is removed again |
| Outcomes.CreateRefuses | internal/usecase/authentication/usecase.go:184-189 | a blocked account is told it is suspended, and nothing changes |
| Outcomes.RefreshSucceedsExactlyWhen | internal/usecase/authentication/usecase.go:260-363 | a lone refresh succeeds exactly for an admitted token of a healthy account at its version; the session goes on under the renewed token, which is admitted; otherwise no row and no session changes |
| Outcomes.RefreshConfirmPerforms | internal/usecase/authentication/usecase.go:290-300 | the account check refuses in order: missing, malformed, another version, inactive, suspended, unsigned |
| Outcomes.RefreshNotAdmitted | internal/usecase/authentication/usecase.go:273-288 | a token that is not admitted is refused, a blocked account with its own error |
| Outcomes.StatusForbidden | internal/usecase/user/usecase.go:441-444 | nobody changes the status of an account that the actor does not outrank |
| Outcomes.StatusUnchanged | internal/usecase/user/usecase.go:446-461 | repeating a status succeeds and changes nothing; a transition outside the graph is refused |
| Outcomes.StatusMissing | internal/usecase/user/usecase.go:434-440 | a missing account is reported |
| Outcomes.Activation | internal/usecase/user/usecase.go:515-531 | a first activation writes the status and leaves the sessions alone |
| Outcomes.Suspension | internal/usecase/user/usecase.go:470-531 | a suspension blocks and then writes the status; a refused block changes nothing |
| Outcomes.Reactivation | internal/usecase/user/usecase.go:470-531 | a reactivation unblocks and then writes the status; without access state nothing changes |
| Outcomes.StatusWriteMisses | internal/infra/database/postgres/user/repository.go:360-393 | a status write that does not find the expected status changes nothing and goes on to ask why |
| Outcomes.StatusMissPerforms | internal/infra/database/postgres/user/repository.go:395-435 | a missed status write succeeds exactly when the requested status is stored, and else says why |
| Outcomes.RoleChange | internal/usecase/user/usecase.go:344-431 | a role change needs the rank over the old and the new role and writes exactly the new one |
| Outcomes.RoleWriteMisses | internal/infra/database/postgres/user/repository.go:210-240 | the same for roles |
| Outcomes.RoleMissPerforms | internal/infra/database/postgres/user/repository.go:242-288 | the same for a missed role write |
| Outcomes.PasswordChange | internal/usecase/user/usecase.go:261-321 | succeeds exactly with a verified password and a hashed new one, whose digest is stored under the next version with the sessions cleaned up; otherwise nothing changes |
| Outcomes.FieldsChange | internal/infra/database/postgres/user/repository.go:290-340 | a digest is stored under the next version, an e-mail alone leaves the credentials, no field is a bad request |
| Outcomes.Deletion | internal/usecase/user/usecase.go:177-209 | blocks the account and removes exactly its row; a refused block changes nothing |
| Outcomes.LogoutOutcome | internal/usecase/session/usecase.go:171-216 | ends exactly the targets when all are the user's, and else nothing |
| Outcomes.LogoutOthersOutcome | internal/usecase/session/usecase.go:171-216 | keeps the current session, which must be the user's, and ends the other indexed ones |
| Outcomes.ErrorsNeverSucceed | internal/usecase/user/usecase.go:303-314 | no command that reports an error ends in success, but for the cleanup after a password write, which never ends in failure |
| StatusRecovery.SuspensionLeavesBlocked | internal/usecase/user/usecase.go:462-531 | a suspension cut off anywhere, with any faults, never itself leaves suspended and unblocked |
| StatusRecovery.ReachableHaveAccess | internal/usecase/user/usecase.go:470-513 | in every reachable state a suspended account has the access state that its reactivation needs |
| StatusRecovery.OneActivationRecoversExactlyWhen | internal/usecase/user/usecase.go:462-531 | one activation ends active and unblocked exactly when the account is suspended or not blocked |
| StatusRecovery.OneActivationMayNotRecover | internal/usecase/user/usecase.go:470-513 | a concrete run that cuts a suspension off after its block leaves an active, blocked account that one activation does not recover |
| StatusRecovery.ThreeRequestsRecover | internal/usecase/user/usecase.go:462-531 | activate, suspend, activate ends active and unblocked |
| StatusRecovery.EveryAccountRecovers | internal/usecase/user/usecase.go:177-209 | the same from every reachable state of every run |
| Workflows.Application.ChangeStatus | internal/usecase/user/usecase.go:433-562 | the method over the mutable stores ends exactly as the completed call does |
| Workflows.Application.ChangeRole | internal/usecase/user/usecase.go:344-416 | the same; an unknown role is refused before any read |
| Workflows.Application.ChangePassword | internal/usecase/user/usecase.go:254-323 | the same, with verification before the new password is checked and hashed and a cleanup that cannot undo success; an unchanged password is refused before any read |
| Workflows.Application.UpdateUser | internal/usecase/user/usecase.go:211-235 | the same; a password that is refused or cannot be hashed ends the call before its statement |
| Workflows.Application.ChangeEmail | internal/usecase/user/usecase.go:237-252 | the same without a password; an empty address is a bad request |
| Workflows.Application.DeleteUser | internal/usecase/user/usecase.go:177-209 | the same; the block comes before the deletion |
| Workflows.Application.Login | internal/usecase/authentication/usecase.go:99-225 | the same, with both reads, creation and the cleanup when the access token cannot be signed |
| Workflows.Application.Refresh | internal/usecase/authentication/usecase.go:260-363 | the same, with validation, the version check and the rotation |
| Workflows.Application.Logout | internal/usecase/authentication/usecase.go:240-258 | the same |
| Authorization.GrantedMeans | internal/usecase/authorization/usecase.go:59-100 | a grant means an active account at the token's version, and hands out stored role and permissions that contain the required one |
| Authorization.GrantedExactlyWhen | internal/usecase/authorization/usecase.go:27-100 | access is granted exactly to a current token of an active account whose stored role is entitled; nobody entitled is refused |
| Authorization.RefusedBecause | internal/usecase/authorization/usecase.go:113-148 | changed, inactive, suspended and not permitted are told apart in that order |
| Authorization.SignedClaimsDecideNothing | internal/usecase/authorization/usecase.go:59-100 | the role and permissions signed into the token do not influence the decision |
| Permissions.NewPermissionSet | internal/domain/valueobject/permission.go:69-85 | whatever order the map yields, the result is the sorted set of the input, and an unknown permission is an error |
| Permissions.NormalFormCanonical | internal/domain/valueobject/permission.go:69-85 | two inputs have equal values exactly when they have equal members; values are their own normal form |
| Permissions.Has | internal/domain/valueobject/permission.go:91-101 | holds for a known permission exactly when it or full access is a member |
| TokenClaims.TokenClaimsFromDomain | internal/infra/auth/jwt_manager.go:93-121 | the copying loop yields the wire form the laws below are about |
| TokenClaims.WireToDomain | internal/infra/auth/jwt_manager.go:153-202 | the parsing loop yields the domain value the laws below are about, or nothing |
| TokenClaims.RoundTrip | internal/infra/auth/jwt_manager.go:93-202 | there and back gives the same identity, type, role and permissions with instants cut to seconds, exactly when a whole second separates issue and expiry and a refresh token carries no permissions |
| TokenClaims.WholeSecondBetween | internal/domain/valueobject/jwt_claims.go:66-68 | that condition in terms of the clock; a duration of one second always meets it |
| TokenClaims.WireFormIsStable | internal/infra/auth/jwt_manager.go:153-202 | claims that came over the wire survive another trip unchanged |
| TokenClaims.TokenLife | internal/infra/auth/jwt_manager.go:66-151 | a minted token is valid exactly from the second of its issue to the last whole second of its life, expired after, invalid before |
| TokenClaims.AcceptedIsSound | internal/infra/auth/jwt_manager.go:123-241 | accepted claims are well formed, current, and say nothing the envelope did not |
| TokenClaims.AcceptedExactlyWhen | internal/infra/auth/jwt_manager.go:123-241 | an envelope is accepted exactly when its identity is complete, its type, role and permissions fit, and it is in force |
| Base64.DecodeEncode | internal/infra/auth/password_hash.go:171-199 | decoding inverts encoding for every byte string |
| Base64.EncodeDecode | internal/infra/auth/password_hash.go:171-199 | an accepted field is the encoding of what it decodes to, so trailing bits must be zero |
| Base64.TestVectors | internal/infra/auth/password_hash.go:171-199 | encodings of section 10 of RFC 4648 |
| Base64.Alphabet | internal/infra/auth/password_hash.go:194-199 | the alphabet in order |
| Base64.GroupsAreBigEndian | internal/infra/auth/password_hash.go:171-199 | four characters carry three bytes most significant first |
| PasswordHash.ParseNamedUint | internal/infra/auth/password_hash.go:153-169 | accepts exactly `name=` and decimal digits below the width, leading zeros allowed |
| PasswordHash.DecodeFixedRawBase64 | internal/infra/auth/password_hash.go:171-192 | the alphabet scan, length check and strict decoding together |
| PasswordHash.ParseParameters | internal/infra/auth/password_hash.go:91-151 | the loop with its seen flags accepts exactly `m`, `t` and `p` once each in any order at the supported values |
| PasswordHash.ParseArgon2idHash | internal/infra/auth/password_hash.go:42-89 | the staged parser computes the parse the laws below are about |
| PasswordHash.ParserAcceptsExactly | internal/infra/auth/password_hash.go:42-89 | the accepted strings are exactly a language given without the parser: frame, length, version 19, parameter list and the two encodings |
| PasswordHash.ParsePrint | internal/infra/auth/password_service_impl.go:160-167 | parsing inverts printing for every 32-byte salt and key |
| PasswordHash.PrintIs | internal/infra/auth/password_service_impl.go:163-167 | the printed hash spelled out with its parameters in order |
| PasswordHash.ReprintIsNormalForm | internal/infra/auth/password_service_impl.go:160-167 | reprinting is idempotent, and two accepted strings reprint alike exactly when they parse alike |
| PasswordHash.FieldBijection | internal/infra/auth/password_hash.go:171-192 | 43-character accepted fields and 32-byte strings are in bijection |
| HashGate.StepKeepsInvariant | internal/infra/auth/password_service_impl.go:94-112 | occupied slots are the calls between acquire and release, never above capacity, after every step |
| HashGate.DerivationsBounded | internal/infra/auth/password_service_impl.go:137-210 | in every interleaving no more derivations run at once than the configured maximum |
| HashGate.ReleaseNeverBlocks | internal/infra/auth/password_service_impl.go:110-112 | every exit, also after a panic or cancellation, returns its slot at once and touches no other call |
| HashGate.NoSlotIsLost | internal/infra/auth/password_service_impl.go:137-210 | once all calls have ended every slot is free |
| HashGate.HolderLeaves | internal/infra/auth/password_service_impl.go:137-210 | a call that holds a slot has given it back after as many of its own steps as its position allows, five at most, however they turn out |
| HashGate.FullGateMakesProgress | internal/infra/auth/password_service_impl.go:94-112 | when the gate is full some holder frees a slot within five steps of its own, whatever the environment decides at each, and none of its steps is idle |
| HashGate.UndisturbedCallCompletes | internal/infra/auth/password_service_impl.go:137-210 | with a slot free and nothing to disturb it a call completes within seven steps, or ends at once when its digest does not parse |
| HashGate.DerivesExactlyWhen | internal/infra/auth/password_service_impl.go:152-161 | a derivation starts only uncancelled, for a hash only with a salt that was read |
| HashGate.CompletedHasDerived | internal/infra/auth/password_service_impl.go:160-161 | only an undisturbed derivation completes a call |
| HashGate.MalformedNeverAdmitted | internal/infra/auth/password_service_impl.go:176-210 | a digest that does not parse never waits, takes a slot or derives |
| PasswordService.HashThenVerify | internal/infra/auth/password_service_impl.go:137-210 | a hash verifies its own password, and another exactly when it derives the same key |
| PasswordService.Service.Hash | internal/infra/auth/password_service_impl.go:137-174 | every exit restores the occupancy: refused password, cancellation, failed or panicking salt, panicking derivation and success, each with its exact condition; success prints the derived key |
| PasswordService.Service.Verify | internal/infra/auth/password_service_impl.go:176-210 | every exit restores the occupancy, each with its exact condition; refused passwords and malformed digests are told apart before admission |
| MigrationFiles.PathOf | internal/infra/database/postgres/migrations.go:33-35 | six digits and a name put together are a valid path of that version and name |
| MigrationFiles.PathIs | internal/infra/database/postgres/migrations.go:33-35 | and every valid path is put together so |
| MigrationFiles.DigitsOrder | internal/infra/database/postgres/migrations.go:33-35 | for numerals of one width, numeric order implies byte order |
| MigrationFiles.LowerVersionSortsFirst | internal/infra/database/postgres/migrations.go:70-70 | sorting paths sorts versions |
| MigrationFiles.SequentialIsComplete | internal/infra/database/postgres/migrations.go:74-106 | the i-th sorted file has version i + 1 for all i exactly when the versions are 1 to n |
| MigrationFiles.LoadSorted | internal/infra/database/postgres/migrations.go:72-128 | the loop accepts exactly a sequential, readable, non-blank list |
| MigrationFiles.LoadMigrations | internal/infra/database/postgres/migrations.go:62-129 | succeeds exactly when the files are valid, non-blank and numbered 1 to n; entry i is then the file of version i + 1 |
| MigrationFiles.VersionsAreDistinct | internal/infra/database/postgres/migrations.go:91-98 | in a complete set a version names one file |
| Migrations.ValidateMigrationState | internal/infra/database/postgres/migrations.go:131-166 | accepts exactly a recorded prefix of a non-empty list and returns the rest |
| Migrations.StepKeepsInvariant | internal/infra/database/postgres/migrations.go:227-303 | at every step of concurrent runs the lock is exclusive, the history is what was executed, and a pending list is still current |
| Migrations.HistoryRecordsExecution | internal/infra/database/postgres/migrations.go:273-294 | the table records exactly the migrations whose SQL committed, numbered from 1, for any lists |
| Migrations.HistoryOnlyGrows | internal/infra/database/postgres/migrations.go:273-294 | nothing committed is executed again, reordered or withdrawn |
| Migrations.RunsAreSerial | internal/infra/database/postgres/migrations.go:246-252 | at most one run is between lock and end of transaction |
| Migrations.FailedRunChangesExactlyWhen | internal/infra/database/postgres/migrations.go:236-244 | a step of a run that ends in failure changes the database exactly when it is an unacknowledged commit that takes effect with something pending or the table to create |
| Migrations.CommitCanBeInDoubt | internal/infra/database/postgres/migrations.go:296-298 | for every list, a first run whose commit is not acknowledged fails with its whole list recorded and executed |
| Migrations.UnacknowledgedCommitIsComplete | internal/infra/database/postgres/migrations.go:296-298 | a commit whose acknowledgement was lost left exactly what success leaves |
| Migrations.SuccessLeavesOwnList | internal/infra/database/postgres/migrations.go:296-302 | success leaves exactly the run's list recorded and reports its size and what it added |
| Migrations.HistoryIsPrefixOfLongest | internal/infra/database/postgres/migrations.go:131-166 | among lists that are prefixes of one another the history is a prefix of the longest, each SQL once and in order |
| Migrations.SuccessExecutedOwnList | internal/infra/database/postgres/migrations.go:296-302 | among such lists success leaves exactly the SQL of its own list committed |
| Migrations.LoneRunCommits | internal/infra/database/postgres/migrations.go:227-303 | left alone, a run whose list the history follows applies exactly what is missing; the acknowledgement alone decides between success and failure |
| Migrations.LoneRunGivesUp | internal/infra/database/postgres/migrations.go:268-271 | left alone, a run whose list the history does not follow fails and changes nothing |
| Migrations.RerunAppliesZero | internal/infra/database/postgres/migrations.go:299-302 | an immediate rerun succeeds, applies zero and changes nothing recorded |
| Migrations.Schema.ApplyMigrations | internal/infra/database/postgres/migrations.go:227-303 | one run in place: complete exactly when the history agrees, no statement fails and the commit takes effect, successful exactly when that is acknowledged as well, and otherwise everything as before |
| Migrations.Schema.CheckCurrent | internal/infra/database/postgres/migrations.go:168-195 | current exactly when this list is recorded; drift and pending are told apart |
| Listing.ToInput | internal/delivery/http/handlers/user_dto.go:61-89 | the parsed filters hold exactly the named known values; a supplied filter that names none matches nobody |
| Listing.EffectiveCriteria | internal/usecase/user/usecase.go:129-161 | the intersection with the visible roles; the reader is never given an empty role list |
| Listing.BuildWhere | internal/infra/database/postgres/user/repository.go:453-487 | numbered placeholders and arguments agree: the clauses hold of exactly the matching users |
| Listing.ListUsers | internal/infra/database/postgres/user/repository.go:489-517 | count and page of the matching rows in the stated order |
| Listing.CriteriaMeanQuery | internal/usecase/user/usecase.go:140-167 | the criteria given to the reader select exactly whom the query string asked for |
| Listing.NobodyWanted | internal/usecase/user/usecase.go:132-138 | an empty answer given without asking the reader is right |
| Listing.GetUserList | internal/delivery/http/handlers/user_handler.go:70-97 | the whole pipeline: the page of exactly the wanted users, and their number |
| Listing.EveryWantedUserOnce | internal/infra/database/postgres/user/repository.go:489-517 | the announced pages together show every wanted user once, newest first; later pages are empty |
| Pagination.PaginationInput.Validate | internal/delivery/http/helper/pagination.go:8-18 | page at least 1, limit 1 to 100, valid values kept |
| Pagination.OffsetSaturates | internal/delivery/http/helper/pagination.go:20-31 | the offset is the smaller of (page - 1) * limit and the largest integer, without wrapping |
| Pagination.PaginationInput.Offset | internal/delivery/http/helper/pagination.go:20-31 | the same of the stored page and limit, and zero for input that was not validated |
| Pagination.TotalPagesExactly | internal/delivery/http/helper/pagination.go:40-48 | the page count is the rounded-up quotient exactly when the rounding sum fits in 64 bits |
| Pagination.PaginationInput.NewPaginationMeta | internal/delivery/http/helper/pagination.go:40-48 | page, limit and total as given, and the rounded-up page count while the sum fits |
| Pagination.PagesConcatenate | internal/delivery/http/helper/pagination.go:20-48 | pages 1 to the announced count are the whole list in order |
| Pagination.LaterPagesEmpty | internal/delivery/http/helper/pagination.go:20-48 | a page is empty exactly when it comes after the announced ones |
| SessionList.DecodeSessionList | internal/infra/storage/redis/session/repository.go:171-231 | the stride-ten loop accepts exactly a total and whole valid rows, and yields one session per row in order |
| SessionList.DecodeEncode | internal/infra/storage/redis/session/repository.go:169-231 | decoding inverts the flat encoding of every list with positive versions and generations and 64-bit numbers, and refuses any other |
| SessionList.DecodedIsStorable | internal/infra/storage/redis/session/repository.go:169-231 | an accepted reply has 1 + 10k values for k sessions, which encode and decode to themselves |
| VaryHeader.MergeVary | internal/delivery/http/response/response.go:68-100 | the nested loops set the header the laws below are about |
| VaryHeader.MergedNames | internal/delivery/http/response/response.go:84-98 | the merged names are those of the members and the required one, each once without regard to case |
| VaryHeader.MergedSpelling | internal/delivery/http/response/response.go:89-92 | the required name has its given spelling, every other that of a member |
| VaryHeader.FirstOccurrenceOrder | internal/delivery/http/response/response.go:84-92 | first occurrences keep their order |
| VaryHeader.MergedOrder | internal/delivery/http/response/response.go:84-98 | each first occurrence stands right behind the values of those before it, in its own or the required spelling; an added required name comes last |
| VaryHeader.AnyExactly | internal/delivery/http/response/response.go:79-82 | the header is `*` exactly when some member is; otherwise reading it back gives exactly the merged members |
| VaryHeader.MergeAgain | internal/delivery/http/response/response.go:68-100 | merging the result again changes nothing |

## Left out

- Outages of a store: the possible failure of every command is modelled, the error text and its mapping to HTTP are not.
- Sign-up and account creation: an account appears with any known role and an inactive or active status; the checks before that are not modelled.
- E-mail addresses: which account an address resolves to at login is any account; uniqueness of addresses is not modelled, and an e-mail write is only a field that leaves the version alone.
- Cryptography: Argon2id is any function of password and salt, and a signed token is an identity that was minted; HMAC, JSON and the parsing library are not modelled beyond the checks the claims pass.
- Token kinds: the protocol does not tell access from refresh tokens, so its claims about a token hold for both; the type check is part of `TokenClaims`.
- Lifetimes in Redis: a session, pointer or index may vanish at any moment; when it does is not modelled.
- Session metadata: device, address and timestamps appear only in the session-list codec.
- Malformed Redis values: keys of a wrong type or with unparsable fields are not modelled; the script branches that report or prune them are left out.
- Identifier syntax: identifiers are numbers, so checks for empty or ill-formed ones are left out of the protocol.
- Password rules: the policy is any predicate; its character classes and lengths are not modelled.
- ChangeStatus against a concurrent role change of the target: the compare-and-set does not look at the role, so no hierarchy claim is made at commit time.
- Suspension against concurrent reactivation: suspended does not imply blocked in every run, because a stale unblock may follow; `Revocation.ShutOutUntilUnblock` is the windowed claim.
- Credential versions and 64 bits: versions are unbounded numbers; the database column is not.
- SQL text, drivers and pools: one statement is one step on a map of rows; the SQL of a migration is opaque and does not touch the history table.
- `ILIKE` wildcards: the pattern match is any relation, and an empty search restricts nobody.
- Count and page of a listing are two statements in the source; the pages are of one fixed result.
- Strings are sequences of characters: encodings and Unicode case folding are not modelled; the folding in `VaryHeader` is any function.
- The list, orphan-cleaning and rate-limit scripts, handlers, routes, middleware, logging, metrics, configuration, start-up and localization.
- PasswordService.Service.Acquire: a lone caller cannot be woken by another, so a full gate ends with its context; the waiting itself is in `HashGate`.
