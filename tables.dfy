/** The two in-place UPDATE statements of the record layer
    (`Save for StoredSession`, `Save for RefreshJob` in
    xmtp/src/storage/encrypted_store/models.rs), each over an in-memory
    image of its table.

    `execute` can fail inside the database; the Diesel error it reports is
    the `fault` parameter. A failed statement leaves the table as it was, and
    `?` converts its error into `StorageError::DieselResultError`; otherwise
    the result is `Ok(())`. */
module Tables {
  import opened Basics
  import opened Errors
  import opened Models

  // ---------------------------------------------------------------------
  // sessions
  // ---------------------------------------------------------------------

  /** `session_id` is the primary key of `sessions`. */
  ghost predicate UniqueSessionIds(rows: seq<StoredSession>) {
    forall i, j :: 0 <= i < j < |rows| ==> rows[i].sessionId != rows[j].sessionId
  }

  /** One row after `UPDATE sessions SET vmac_session_data, peer_installation_id,
      updated_at WHERE session_id = session.session_id`. */
  function SessionRowAfterSave(row: StoredSession, session: StoredSession, now: int64): (r: StoredSession)
  {
    if row.sessionId == session.sessionId then
      row.(vmacSessionData := session.vmacSessionData,
           peerInstallationId := session.peerInstallationId,
           updatedAt := now)
    else row
  }

  /** The whole table after the UPDATE. */
  function SessionsAfterSave(rows: seq<StoredSession>, session: StoredSession, now: int64)
    : (r: seq<StoredSession>)
    ensures |r| == |rows|
    ensures forall i :: 0 <= i < |rows| ==>
              && r[i].sessionId == rows[i].sessionId
              && r[i].createdAt == rows[i].createdAt
              && r[i].userAddress == rows[i].userAddress
  {
    seq(|rows|, i requires 0 <= i < |rows| => SessionRowAfterSave(rows[i], session, now))
  }

  /** Exactly the rows whose `session_id` matches change, and in them exactly
      the three set columns; the key, `created_at` and `user_address` survive. */
  lemma SessionSaveChangesOnlyMatchingRow(rows: seq<StoredSession>, session: StoredSession, now: int64)
    ensures |SessionsAfterSave(rows, session, now)| == |rows|
    ensures forall i :: 0 <= i < |rows| && rows[i].sessionId != session.sessionId ==>
              SessionsAfterSave(rows, session, now)[i] == rows[i]
    ensures forall i :: 0 <= i < |rows| && rows[i].sessionId == session.sessionId ==>
              var r := SessionsAfterSave(rows, session, now)[i];
              && r.sessionId == rows[i].sessionId
              && r.createdAt == rows[i].createdAt
              && r.userAddress == rows[i].userAddress
              && r.vmacSessionData == session.vmacSessionData
              && r.peerInstallationId == session.peerInstallationId
              && r.updatedAt == now
  {
  }

  /** With no row for the session, the UPDATE is a no-op: it never inserts. */
  lemma SessionSaveWithoutMatchIsNoOp(rows: seq<StoredSession>, session: StoredSession, now: int64)
    requires forall i :: 0 <= i < |rows| ==> rows[i].sessionId != session.sessionId
    ensures SessionsAfterSave(rows, session, now) == rows
  {
  }

  /** The set of session ids is unchanged, so the primary key stays unique. */
  lemma SessionSaveKeepsKeys(rows: seq<StoredSession>, session: StoredSession, now: int64)
    ensures forall i :: 0 <= i < |rows| ==> SessionsAfterSave(rows, session, now)[i].sessionId == rows[i].sessionId
    ensures UniqueSessionIds(rows) ==> UniqueSessionIds(SessionsAfterSave(rows, session, now))
  {
  }

  /** The saved record's own `created_at`, `updated_at` and `user_address`
      play no part in the UPDATE. */
  lemma SessionSaveIgnoresUnsetFields(rows: seq<StoredSession>, s1: StoredSession, s2: StoredSession, now: int64)
    requires s1.sessionId == s2.sessionId
    requires s1.vmacSessionData == s2.vmacSessionData && s1.peerInstallationId == s2.peerInstallationId
    ensures SessionsAfterSave(rows, s1, now) == SessionsAfterSave(rows, s2, now)
  {
  }

  /** Saving the same session twice with the same clock value is saving it once. */
  lemma SessionSaveIdempotent(rows: seq<StoredSession>, session: StoredSession, now: int64)
    ensures SessionsAfterSave(SessionsAfterSave(rows, session, now), session, now)
         == SessionsAfterSave(rows, session, now)
  {
  }

  class SessionsTable {
    var rows: seq<StoredSession>

    ghost predicate Valid()
      reads this
    {
      UniqueSessionIds(rows)
    }

    constructor (initial: seq<StoredSession>)
      requires UniqueSessionIds(initial)
      ensures Valid() && rows == initial
    {
      rows := initial;
    }

    /** `StoredSession::save`, with `now` the value the statement reads from the clock. */
    method Save(session: StoredSession, now: int64, fault: Option<string>)
      returns (r: Result<Unit, StorageError>)
      requires Valid()
      modifies this
      ensures Valid()
      ensures fault.Some? ==> r == Err(DieselResultError(fault.value)) && rows == old(rows)
      ensures fault.None? ==> r == Ok(Unit) && rows == SessionsAfterSave(old(rows), session, now)
    {
      if fault.Some? {
        return Err(DieselResultError(fault.value));
      }
      var i := 0;
      while i < |rows|
        invariant 0 <= i <= |rows| == |old(rows)|
        invariant forall k :: 0 <= k < i ==> rows[k] == SessionRowAfterSave(old(rows)[k], session, now)
        invariant forall k :: i <= k < |rows| ==> rows[k] == old(rows)[k]
      {
        if rows[i].sessionId == session.sessionId {
          rows := rows[i := rows[i].(vmacSessionData := session.vmacSessionData,
                                     peerInstallationId := session.peerInstallationId,
                                     updatedAt := now)];
        }
        i := i + 1;
      }
      SessionSaveKeepsKeys(old(rows), session, now);
      r := Ok(Unit);
    }
  }

  // ---------------------------------------------------------------------
  // refresh_jobs
  // ---------------------------------------------------------------------

  /** `id` (the job kind) is the primary key of `refresh_jobs`. */
  ghost predicate UniqueJobIds(rows: seq<RefreshJob>) {
    forall i, j :: 0 <= i < j < |rows| ==> rows[i].id != rows[j].id
  }

  /** The table after `UPDATE refresh_jobs SET last_run = job.last_run`, as
      written: the statement has no WHERE clause. */
  function JobsAfterSave(rows: seq<RefreshJob>, job: RefreshJob): (r: seq<RefreshJob>)
    ensures |r| == |rows|
    ensures forall i :: 0 <= i < |rows| ==> r[i].id == rows[i].id && r[i].lastRun == job.lastRun
  {
    seq(|rows|, i requires 0 <= i < |rows| => rows[i].(lastRun := job.lastRun))
  }

  /** Every row, whatever its kind, ends with the saved watermark; ids and the
      row count are unchanged, and the saved job's own id plays no part. */
  lemma JobSaveOverwritesEveryRow(rows: seq<RefreshJob>, job: RefreshJob, other: RefreshJob)
    requires other.lastRun == job.lastRun
    ensures |JobsAfterSave(rows, job)| == |rows|
    ensures forall i :: 0 <= i < |rows| ==>
              JobsAfterSave(rows, job)[i].id == rows[i].id && JobsAfterSave(rows, job)[i].lastRun == job.lastRun
    ensures JobsAfterSave(rows, job) == JobsAfterSave(rows, other)
  {
  }

  /** Consequence of the missing filter: saving the "message" watermark
      moves the "invite" watermark too. */
  lemma JobSaveMovesOtherKinds()
    ensures var rows := [RefreshJob(InviteJob.ToString(), 5), RefreshJob(MessageJob.ToString(), 7)];
            var after := JobsAfterSave(rows, RefreshJob(MessageJob.ToString(), 9));
            after[0].id == InviteJob.ToString() && after[0].lastRun == 9 != rows[0].lastRun
  {
  }

  /** The evidently intended statement, filtered on the job's own id. */
  function JobsAfterFilteredSave(rows: seq<RefreshJob>, job: RefreshJob): (r: seq<RefreshJob>)
    ensures |r| == |rows|
    ensures forall i :: 0 <= i < |rows| ==> r[i].id == rows[i].id
  {
    seq(|rows|, i requires 0 <= i < |rows| =>
      if rows[i].id == job.id then rows[i].(lastRun := job.lastRun) else rows[i])
  }

  /** With the filter, only the saved kind's watermark changes and every
      other kind keeps its own. */
  lemma FilteredJobSaveChangesOnlyItsKind(rows: seq<RefreshJob>, job: RefreshJob)
    ensures |JobsAfterFilteredSave(rows, job)| == |rows|
    ensures forall i :: 0 <= i < |rows| ==> JobsAfterFilteredSave(rows, job)[i].id == rows[i].id
    ensures forall i :: 0 <= i < |rows| && rows[i].id != job.id ==> JobsAfterFilteredSave(rows, job)[i] == rows[i]
    ensures forall i :: 0 <= i < |rows| && rows[i].id == job.id ==> JobsAfterFilteredSave(rows, job)[i].lastRun == job.lastRun
  {
  }

  class RefreshJobsTable {
    var rows: seq<RefreshJob>

    ghost predicate Valid()
      reads this
    {
      UniqueJobIds(rows)
    }

    constructor (initial: seq<RefreshJob>)
      requires UniqueJobIds(initial)
      ensures Valid() && rows == initial
    {
      rows := initial;
    }

    /** `RefreshJob::save` as written. */
    method Save(job: RefreshJob, fault: Option<string>) returns (r: Result<Unit, StorageError>)
      requires Valid()
      modifies this
      ensures Valid()
      ensures fault.Some? ==> r == Err(DieselResultError(fault.value)) && rows == old(rows)
      ensures fault.None? ==> r == Ok(Unit) && rows == JobsAfterSave(old(rows), job)
    {
      if fault.Some? {
        return Err(DieselResultError(fault.value));
      }
      var i := 0;
      while i < |rows|
        invariant 0 <= i <= |rows| == |old(rows)|
        invariant forall k :: 0 <= k < i ==> rows[k] == old(rows)[k].(lastRun := job.lastRun)
        invariant forall k :: i <= k < |rows| ==> rows[k] == old(rows)[k]
      {
        rows := rows[i := rows[i].(lastRun := job.lastRun)];
        i := i + 1;
      }
      r := Ok(Unit);
    }

    /** `RefreshJob::save` with the `id` filter it evidently intends. */
    method SaveById(job: RefreshJob, fault: Option<string>) returns (r: Result<Unit, StorageError>)
      requires Valid()
      modifies this
      ensures Valid()
      ensures fault.Some? ==> r == Err(DieselResultError(fault.value)) && rows == old(rows)
      ensures fault.None? ==> r == Ok(Unit) && rows == JobsAfterFilteredSave(old(rows), job)
    {
      if fault.Some? {
        return Err(DieselResultError(fault.value));
      }
      var i := 0;
      while i < |rows|
        invariant 0 <= i <= |rows| == |old(rows)|
        invariant forall k :: 0 <= k < i ==> rows[k] == JobsAfterFilteredSave(old(rows), job)[k]
        invariant forall k :: i <= k < |rows| ==> rows[k] == old(rows)[k]
      {
        if rows[i].id == job.id {
          rows := rows[i := rows[i].(lastRun := job.lastRun)];
        }
        i := i + 1;
      }
      r := Ok(Unit);
    }
  }
}
