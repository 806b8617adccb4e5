/**
 The handlers as their own code evidently means them, beside the code as
 written in module Jobs.

 Update: an absent id answers 404, and the replacement job is built before
 anything is removed, so a refused keyword leaves the table as it was (the
 library's `add_job` with `replace_existing=True` behaves this way).

 Create: only the three interval units the handlers know (seconds, minutes,
 hours) reach the library, so the spread keyword can never be one of
 `add_job`'s own parameters and a taken id is always refused.

 The lemmas exhibit, on concrete inputs, where the code as written differs.
 */
module Intended {

  import opened Optional
  import opened Interval
  import opened Jobs

  function AtomicUpdate(t: Table, id: string, req: JobUpdate, read: KeywordReader): (r: Reply)
    ensures r.status == OK || r.status == BAD_REQUEST || r.status == NOT_FOUND
    ensures r.status == NOT_FOUND <==> id !in t
    ensures r.status == OK <==> id in t && read(req.intervalUnit, req.intervalValue).Accepted?
    ensures r.status != OK ==> r.table == t
    ensures r.status == OK ==> id in r.table && SameElsewhere(t, r.table, id)
  {
    if id !in t then Reply(NOT_FOUND, t)
    else
      match read(req.intervalUnit, req.intervalValue)
      case Refused => Reply(BAD_REQUEST, t)
      case Accepted(seconds, _) => Reply(OK, t[id := Job(req.scriptPath, seconds, StartDate)])
  }

  /**
   The handler as written and the intended one succeed on the same inputs and
   then leave the same table; they part only where the written one fails.
   */
  lemma AgreesWhenSuccessful(t: Table, id: string, req: JobUpdate, read: KeywordReader)
    ensures Jobs.UpdateJob(t, id, req, read).status == OK <==> AtomicUpdate(t, id, req, read).status == OK
    ensures AtomicUpdate(t, id, req, read).status == OK ==>
      Jobs.UpdateJob(t, id, req, read) == AtomicUpdate(t, id, req, read)
  {
  }

  /** The interval unit a request names, when it is one the handlers know. */
  function UnitOf(name: string): (u: Option<Unit>)
    ensures u.Some? <==> name in {"seconds", "minutes", "hours"}
    ensures u.Some? ==> UnitName(u.value) == name
  {
    if name == "seconds" then Some(Seconds)
    else if name == "minutes" then Some(Minutes)
    else if name == "hours" then Some(Hours)
    else None
  }

  /** Create with the unit checked first and a taken id always refused. */
  function GuardedCreate(t: Table, req: JobCreate, read: KeywordReader): (r: Reply)
    ensures r.status == OK || r.status == BAD_REQUEST
    ensures req.jobId in t ==> r == Reply(BAD_REQUEST, t)
    ensures r.status == OK <==>
      req.jobId !in t && UnitOf(req.intervalUnit).Some? && read(req.intervalUnit, req.intervalValue).Accepted?
    ensures r.status == OK ==>
      r.table == t[req.jobId := Job(req.scriptPath, read(req.intervalUnit, req.intervalValue).seconds, StartDate)]
    ensures r.status != OK ==> r.table == t
  {
    if UnitOf(req.intervalUnit).None? || req.jobId in t then Reply(BAD_REQUEST, t)
    else
      match read(req.intervalUnit, req.intervalValue)
      case Refused => Reply(BAD_REQUEST, t)
      case Accepted(seconds, _) => Reply(OK, t[req.jobId := Job(req.scriptPath, seconds, StartDate)])
  }

  /**
   For the three interval units, whenever the library does not read them as a
   request to replace, the create as written and the guarded one coincide.
   */
  lemma GuardedCreateAgreesOnUnits(t: Table, req: JobCreate, read: KeywordReader)
    requires UnitOf(req.intervalUnit).Some?
    requires !(read(req.intervalUnit, req.intervalValue).Accepted? && read(req.intervalUnit, req.intervalValue).replaceExisting)
    ensures Jobs.CreateJob(t, req, read) == GuardedCreate(t, req, read)
  {
  }

  /** A job "backup" running scripts/backup.sh every five minutes. */
  const BackupTable: Table := map["backup" := Job("scripts/backup.sh", 300, StartDate)]

  /**
   A sample reader, enough for the examples below (the library's own reading
   differs: it also accepts days and weeks, and coerces a zero interval to one
   second). Positive counts of seconds, minutes or hours give that interval;
   `replace_existing` gives the default one-second interval and replaces when
   its value is true (non-zero); anything else is refused.
   */
  const SampleReader: KeywordReader :=
    (unit: string, value: int) =>
      if unit == "replace_existing" then Accepted(1, value != 0)
      else if value <= 0 then Refused
      else if unit == "seconds" then Accepted(value as nat, false)
      else if unit == "minutes" then Accepted(value as nat * 60, false)
      else if unit == "hours" then Accepted(value as nat * 3600, false)
      else Refused

  /** PUT on an id that does not exist: the code answers 400 where its own `raise` says 404. */
  lemma MissingIdAnswers400(req: JobUpdate)
    ensures Jobs.UpdateJob(map[], "backup", req, SampleReader) == Reply(BAD_REQUEST, map[])
    ensures AtomicUpdate(map[], "backup", req, SampleReader) == Reply(NOT_FOUND, map[])
  {
  }

  /** PUT with an interval unit the library refuses: the code answers 400 and the job is gone. */
  lemma RefusedUnitLosesJob()
    ensures Jobs.UpdateJob(BackupTable, "backup", JobUpdate("scripts/backup.sh", 1, "fortnights"), SampleReader)
         == Reply(BAD_REQUEST, map[])
    ensures AtomicUpdate(BackupTable, "backup", JobUpdate("scripts/backup.sh", 1, "fortnights"), SampleReader)
         == Reply(BAD_REQUEST, BackupTable)
  {
    assert SampleReader("fortnights", 1) == Refused;
    assert BackupTable - {"backup"} == map[];
  }

  /**
   POST under the taken id "backup" with the unit `replace_existing`: the code
   answers 200 and overwrites the job with a one-second interval; the guarded
   create refuses it.
   */
  lemma ReplaceExistingOverwrites()
    ensures var req := JobCreate("backup", "other.sh", 1, "replace_existing");
      Jobs.CreateJob(BackupTable, req, SampleReader) == Reply(OK, map["backup" := Job("other.sh", 1, StartDate)])
    ensures var req := JobCreate("backup", "other.sh", 1, "replace_existing");
      GuardedCreate(BackupTable, req, SampleReader) == Reply(BAD_REQUEST, BackupTable)
  {
    assert SampleReader("replace_existing", 1) == Accepted(1, true);
    assert BackupTable["backup" := Job("other.sh", 1, StartDate)] == map["backup" := Job("other.sh", 1, StartDate)];
  }
}
