/**
 * Authorization guards of the emergency-recovery controller
 * (server/pkg/controller/emergency/recovery_contact.go): `StartRecovery`,
 * `RejectRecovery` and `StopRecovery` each run two identity checks in a
 * fixed order and then make their repository calls.
 *
 * The repository is a database; here it is an abstract store holding the
 * active emergency-contact pairs, the recovery rows and the log of calls
 * made to it. A database failure is a parameter of each write.
 */
module Recovery {
  import opened Wrappers

  type UserId = int
  type RecoveryId = string

  /** `ente.ContactIdentifier`. */
  datatype ContactIdentifier = ContactIdentifier(userId: UserId, emergencyContactId: UserId)

  /** `ente.RecoveryIdentifier`. */
  datatype RecoveryIdentifier = RecoveryIdentifier(id: RecoveryId, userId: UserId, emergencyContactId: UserId)

  /** `ente.RecoveryStatus`. */
  datatype RecoveryStatus = Waiting | Rejected | Recovered | Stopped | Ready

  datatype RecoveryRow = RecoveryRow(userId: UserId, emergencyContactId: UserId, status: RecoveryStatus)

  datatype Error =
    | BadRequest(message: string)
    | PermissionDenied(reason: string)
    | NotFound
    | DbFailure(message: string)

  /** The calls the controller makes on its repository, in order. */
  datatype RepoCall =
    | GetActiveEmergencyContact(userId: UserId, emergencyContactId: UserId)
    | InsertIntoRecovery(req: ContactIdentifier)
    | UpdateRecoveryStatusForID(id: RecoveryId, status: RecoveryStatus)

  const SameContactAndUser := BadRequest("contact and user can not be same")

  /** Guards of `StartRecovery`: the contact differs from the user, and the actor is the contact. */
  function StartGuard(actor: UserId, req: ContactIdentifier): (r: Option<Error>)
    ensures req.emergencyContactId == req.userId ==> r == Some(SameContactAndUser)
    ensures r.None? <==> req.emergencyContactId != req.userId && actor == req.emergencyContactId
    ensures r.Some? && req.emergencyContactId != req.userId ==> r.value.PermissionDenied?
  {
    if req.emergencyContactId == req.userId then Some(SameContactAndUser)
    else if req.emergencyContactId != actor then
      Some(PermissionDenied("only the emergency contact can start recovery"))
    else None
  }

  /** Guards of `RejectRecovery`: the contact differs from the user, and the caller owns the account. */
  function RejectGuard(caller: UserId, req: RecoveryIdentifier): (r: Option<Error>)
    ensures req.emergencyContactId == req.userId ==> r == Some(SameContactAndUser)
    ensures r.None? <==> req.emergencyContactId != req.userId && caller == req.userId
    ensures r.Some? && req.emergencyContactId != req.userId ==> r.value.PermissionDenied?
  {
    if req.emergencyContactId == req.userId then Some(SameContactAndUser)
    else if req.userId != caller then
      Some(PermissionDenied("only account owner can reject recovery"))
    else None
  }

  /** Guards of `StopRecovery`: the contact differs from the user, and the caller is the contact. */
  function StopGuard(caller: UserId, req: RecoveryIdentifier): (r: Option<Error>)
    ensures req.emergencyContactId == req.userId ==> r == Some(SameContactAndUser)
    ensures r.None? <==> req.emergencyContactId != req.userId && caller == req.emergencyContactId
    ensures r.Some? && req.emergencyContactId != req.userId ==> r.value.PermissionDenied?
  {
    if req.emergencyContactId == req.userId then Some(SameContactAndUser)
    else if req.emergencyContactId != caller then
      Some(PermissionDenied("only the emergency contact can stop recovery"))
    else None
  }

  /** Rejecting and stopping are allowed to different parties: never both to the same caller. */
  lemma RejectAndStopExclusive(caller: UserId, req: RecoveryIdentifier)
    ensures RejectGuard(caller, req).None? ==> StopGuard(caller, req).Some?
    ensures StopGuard(caller, req).None? ==> RejectGuard(caller, req).Some?
  {
  }

  /** `rows` with the status of `id` replaced; rows without that id are untouched. */
  function WithStatus(rows: map<RecoveryId, RecoveryRow>, id: RecoveryId, status: RecoveryStatus): (r: map<RecoveryId, RecoveryRow>)
    ensures r.Keys == rows.Keys
    ensures forall other :: other in rows && other != id ==> r[other] == rows[other]
    ensures id in rows ==> r[id] == rows[id].(status := status)
  {
    if id in rows then rows[id := rows[id].(status := status)] else rows
  }

  /** True when the pair already has a recovery that is waiting. */
  predicate HasWaitingRecovery(rows: map<RecoveryId, RecoveryRow>, userId: UserId, contactId: UserId)
  {
    exists id :: id in rows && rows[id] == RecoveryRow(userId, contactId, Waiting)
  }

  /** The repository the controller talks to (`c.Repo`). */
  class RecoveryStore {
    var activeContacts: set<(UserId, UserId)>      // (user, emergency contact) pairs that are active
    var rows: map<RecoveryId, RecoveryRow>
    var calls: seq<RepoCall>

    constructor (activeContacts: set<(UserId, UserId)>, rows: map<RecoveryId, RecoveryRow>)
      ensures this.activeContacts == activeContacts && this.rows == rows && calls == []
    {
      this.activeContacts := activeContacts;
      this.rows := rows;
      calls := [];
    }

    /** Looks up the active contact relation for the pair; missing means not found. */
    method GetActiveEmergencyContact(userId: UserId, contactId: UserId) returns (err: Option<Error>)
      modifies this`calls
      ensures calls == old(calls) + [RepoCall.GetActiveEmergencyContact(userId, contactId)]
      ensures err.None? <==> (userId, contactId) in activeContacts
      ensures err.Some? ==> err.value == NotFound
    {
      calls := calls + [RepoCall.GetActiveEmergencyContact(userId, contactId)];
      err := if (userId, contactId) in activeContacts then None else Some(NotFound);
    }

    /**
     * Adds a waiting recovery for the pair under the fresh id `newId`, unless
     * one is already waiting (no update) or the database fails.
     */
    method InsertIntoRecovery(req: ContactIdentifier, newId: RecoveryId, dbError: Option<string>)
      returns (hasUpdate: bool, err: Option<Error>)
      requires newId !in rows
      modifies this`calls, this`rows
      ensures calls == old(calls) + [RepoCall.InsertIntoRecovery(req)]
      ensures err.Some? <==> dbError.Some?
      ensures err.Some? ==> err.value == DbFailure(dbError.value)
      ensures hasUpdate <==> dbError.None? && !HasWaitingRecovery(old(rows), req.userId, req.emergencyContactId)
      ensures rows == if hasUpdate then old(rows)[newId := RecoveryRow(req.userId, req.emergencyContactId, Waiting)]
                      else old(rows)
    {
      calls := calls + [RepoCall.InsertIntoRecovery(req)];
      if dbError.Some? {
        return false, Some(DbFailure(dbError.value));
      }
      err := None;
      hasUpdate := !HasWaitingRecovery(rows, req.userId, req.emergencyContactId);
      if hasUpdate {
        rows := rows[newId := RecoveryRow(req.userId, req.emergencyContactId, Waiting)];
      }
    }

    /** Sets the status of the row `id`; no such row means no update. */
    method UpdateRecoveryStatusForID(id: RecoveryId, status: RecoveryStatus, dbError: Option<string>)
      returns (hasUpdate: bool, err: Option<Error>)
      modifies this`calls, this`rows
      ensures calls == old(calls) + [RepoCall.UpdateRecoveryStatusForID(id, status)]
      ensures err.Some? <==> dbError.Some?
      ensures err.Some? ==> err.value == DbFailure(dbError.value)
      ensures hasUpdate <==> dbError.None? && id in old(rows)
      ensures rows == if dbError.None? then WithStatus(old(rows), id, status) else old(rows)
    {
      calls := calls + [RepoCall.UpdateRecoveryStatusForID(id, status)];
      if dbError.Some? {
        return false, Some(DbFailure(dbError.value));
      }
      hasUpdate, err := id in rows, None;
      rows := WithStatus(rows, id, status);
    }
  }

  /** `emergency.Controller`. */
  class Controller {
    const repo: RecoveryStore

    constructor (repo: RecoveryStore)
      ensures this.repo == repo
    {
      this.repo := repo;
    }

    /**
     * `StartRecovery`: after the guards, fetches the active contact and
     * inserts a waiting recovery. A failed fetch is returned and nothing is
     * inserted; "no update" without an error still succeeds.
     */
    method StartRecovery(actor: UserId, req: ContactIdentifier, newId: RecoveryId, dbError: Option<string>)
      returns (err: Option<Error>)
      requires newId !in repo.rows
      modifies repo
      ensures repo.activeContacts == old(repo.activeContacts)
      ensures StartGuard(actor, req).Some? ==>
        err == StartGuard(actor, req) && repo.calls == old(repo.calls) && repo.rows == old(repo.rows)
      ensures StartGuard(actor, req).None? && (req.userId, req.emergencyContactId) !in repo.activeContacts ==>
        err == Some(NotFound) &&
        repo.calls == old(repo.calls) + [GetActiveEmergencyContact(req.userId, req.emergencyContactId)] &&
        repo.rows == old(repo.rows)
      ensures StartGuard(actor, req).None? && (req.userId, req.emergencyContactId) in repo.activeContacts ==>
        repo.calls == old(repo.calls) + [GetActiveEmergencyContact(req.userId, req.emergencyContactId), InsertIntoRecovery(req)] &&
        (err.Some? <==> dbError.Some?) && (err.Some? ==> err.value == DbFailure(dbError.value)) &&
        repo.rows == if dbError.None? && !HasWaitingRecovery(old(repo.rows), req.userId, req.emergencyContactId)
                     then old(repo.rows)[newId := RecoveryRow(req.userId, req.emergencyContactId, Waiting)]
                     else old(repo.rows)
    {
      err := StartGuard(actor, req);
      if err.Some? {
        return;
      }
      err := repo.GetActiveEmergencyContact(req.userId, req.emergencyContactId);
      if err.Some? {
        return;
      }
      var hasUpdate;
      hasUpdate, err := repo.InsertIntoRecovery(req, newId, dbError);
      // !hasUpdate is only logged ("No need to send email")
    }

    /** `RejectRecovery`: after the guards, writes status Rejected for `req.id` only. */
    method RejectRecovery(caller: UserId, req: RecoveryIdentifier, dbError: Option<string>)
      returns (err: Option<Error>)
      modifies repo
      ensures repo.activeContacts == old(repo.activeContacts)
      ensures RejectGuard(caller, req).Some? ==>
        err == RejectGuard(caller, req) && repo.calls == old(repo.calls) && repo.rows == old(repo.rows)
      ensures RejectGuard(caller, req).None? ==>
        repo.calls == old(repo.calls) + [UpdateRecoveryStatusForID(req.id, Rejected)] &&
        (err.Some? <==> dbError.Some?) && (err.Some? ==> err.value == DbFailure(dbError.value)) &&
        repo.rows == if dbError.None? then WithStatus(old(repo.rows), req.id, Rejected) else old(repo.rows)
    {
      err := RejectGuard(caller, req);
      if err.Some? {
        return;
      }
      var hasUpdate;
      hasUpdate, err := repo.UpdateRecoveryStatusForID(req.id, Rejected, dbError);
    }

    /** `StopRecovery`: after the guards, writes status Stopped for `req.id` only. */
    method StopRecovery(caller: UserId, req: RecoveryIdentifier, dbError: Option<string>)
      returns (err: Option<Error>)
      modifies repo
      ensures repo.activeContacts == old(repo.activeContacts)
      ensures StopGuard(caller, req).Some? ==>
        err == StopGuard(caller, req) && repo.calls == old(repo.calls) && repo.rows == old(repo.rows)
      ensures StopGuard(caller, req).None? ==>
        repo.calls == old(repo.calls) + [UpdateRecoveryStatusForID(req.id, Stopped)] &&
        (err.Some? <==> dbError.Some?) && (err.Some? ==> err.value == DbFailure(dbError.value)) &&
        repo.rows == if dbError.None? then WithStatus(old(repo.rows), req.id, Stopped) else old(repo.rows)
    {
      err := StopGuard(caller, req);
      if err.Some? {
        return;
      }
      var hasUpdate;
      hasUpdate, err := repo.UpdateRecoveryStatusForID(req.id, Stopped, dbError);
    }
  }
}
