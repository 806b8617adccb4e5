/**
 The job table as the HTTP handlers of app.py drive it. The scheduler library's
 store is an abstract map from job id to the job's script path, interval in
 seconds and start date. Its `add_job` and `remove_job` appear as library
 steps that either change the map or raise; its `get_job`, which answers `None`
 for a missing id and never raises, is a membership test on the map. The
 handlers' own control flow (what they catch, in which order they mutate) sits
 on top.
 */
module Jobs {

  import opened Optional
  import opened Interval

  /** Every job is added with this fixed start date, from which its run times are counted. */
  const StartDate: string := "2024-01-01"

  datatype Job = Job(scriptPath: string, intervalSeconds: nat, startDate: string)

  type Table = map<string, Job>

  /**
   What `add_job` makes of the keyword argument `{unit: value}` spread into its
   call: it refuses it (an unknown keyword, a bad value), or it adds a job with
   some interval in seconds. The keyword can also be one of `add_job`'s own
   parameters; `replace_existing` with a true value lets the add overwrite a job
   under the same id instead of raising. Which keywords and values lead where is
   the library's business, so the reader is a parameter.
   */
  datatype KeywordEffect = Refused | Accepted(seconds: nat, replaceExisting: bool)

  type KeywordReader = (string, int) -> KeywordEffect

  /** The exceptions raised inside a handler. */
  datatype Raised =
    | ConflictingId           // add_job: the id is already in the store
    | KeywordRejected         // add_job: the spread keyword or its value is refused
    | JobLookup               // remove_job: no such id
    | Http(code: nat)         // an HTTPException raised by the handler itself

  /** A library call that may have changed the table or raised. */
  datatype Step = Done(table: Table) | Raise(exc: Raised)

  /** The response of a handler: its HTTP status and the table it leaves behind. */
  datatype Reply = Reply(status: nat, table: Table)

  const OK: nat := 200
  const BAD_REQUEST: nat := 400
  const NOT_FOUND: nat := 404

  /** Nothing but the job `id` differs between the two tables. */
  ghost predicate SameElsewhere(t: Table, t': Table, id: string) {
    forall k :: k != id ==> (k in t <==> k in t') && (k in t ==> t[k] == t'[k])
  }

  /** Every job in the table is anchored at the fixed start date. */
  predicate Anchored(t: Table) {
    forall k :: k in t ==> t[k].startDate == StartDate
  }

  /** The library's `add_job(run_script, 'interval', id, args=[path], start_date, **{unit: value})`. */
  function AddJob(t: Table, id: string, path: string, unit: string, value: int, read: KeywordReader): (s: Step)
    ensures s.Done? <==> read(unit, value).Accepted? && (id !in t || read(unit, value).replaceExisting)
    ensures s == Raise(ConflictingId) <==> read(unit, value).Accepted? && id in t && !read(unit, value).replaceExisting
    ensures s.Done? ==> id in s.table && s.table[id] == Job(path, read(unit, value).seconds, StartDate)
    ensures s.Done? ==> SameElsewhere(t, s.table, id)
  {
    match read(unit, value)
    case Refused => Raise(KeywordRejected)
    case Accepted(seconds, replace) =>
      if id in t && !replace then Raise(ConflictingId) else Done(t[id := Job(path, seconds, StartDate)])
  }

  /** The library's `remove_job(id)`. */
  function RemoveJob(t: Table, id: string): (s: Step)
    ensures s.Done? <==> id in t
    ensures s.Done? ==> id !in s.table && SameElsewhere(t, s.table, id)
    ensures s.Raise? ==> s.exc == JobLookup
  {
    if id in t then Done(t - {id}) else Raise(JobLookup)
  }

  /** The body of a job detail response. */
  datatype Detail = Detail(id: string, scriptPath: string, intervalValue: nat, intervalUnit: string)

  datatype Lookup = Found(detail: Detail) | Failed(status: nat)

  /** GET /api/jobs/{id}: the job's script and its interval in the largest fitting unit, or 404. */
  function GetJob(t: Table, id: string): (r: Lookup)
    ensures r.Found? <==> id in t
    ensures r.Failed? ==> r.status == NOT_FOUND
    ensures r.Found? ==> r.detail.id == id && r.detail.scriptPath == t[id].scriptPath
    ensures r.Found? ==> exists u :: UnitName(u) == r.detail.intervalUnit
                                  && r.detail.intervalValue * UnitSeconds(u) == t[id].intervalSeconds
    ensures r.Found? ==>
      var q := Denormalize(t[id].intervalSeconds);
      r.detail.intervalValue == q.value && r.detail.intervalUnit == UnitName(q.unit)
  {
    if id !in t then Failed(NOT_FOUND)
    else
      var q := Denormalize(t[id].intervalSeconds);
      Found(Detail(id, t[id].scriptPath, q.value, UnitName(q.unit)))
  }

  datatype JobCreate = JobCreate(jobId: string, scriptPath: string, intervalValue: int, intervalUnit: string)

  /** POST /api/jobs: any exception from the library answers 400 and leaves the table as it was. */
  function CreateJob(t: Table, req: JobCreate, read: KeywordReader): (r: Reply)
    ensures r.status == OK || r.status == BAD_REQUEST
    ensures r.status == BAD_REQUEST ==> r.table == t
    ensures r.status == OK ==> read(req.intervalUnit, req.intervalValue).Accepted?
    ensures r.status == OK ==> req.jobId !in t || read(req.intervalUnit, req.intervalValue).replaceExisting
    ensures r.status == OK ==> req.jobId in r.table && SameElsewhere(t, r.table, req.jobId)
  {
    match AddJob(t, req.jobId, req.scriptPath, req.intervalUnit, req.intervalValue, read)
    case Done(t') => Reply(OK, t')
    case Raise(_) => Reply(BAD_REQUEST, t)
  }

  datatype JobUpdate = JobUpdate(scriptPath: string, intervalValue: int, intervalUnit: string)

  /** The state an update's try-block reaches: the table after its mutations, and what, if anything, it raised. */
  datatype Attempt = Attempt(table: Table, raised: Option<Raised>)

  /** The statements inside update's `try`: look up, raise 404 if absent, remove, then add afresh. */
  function UpdateTryBlock(t: Table, id: string, req: JobUpdate, read: KeywordReader): (a: Attempt)
    ensures id !in t ==> a == Attempt(t, Some(Http(NOT_FOUND)))
    ensures id in t ==> id in a.table || a.raised.Some?
  {
    if id !in t then Attempt(t, Some(Http(NOT_FOUND)))
    else
      match RemoveJob(t, id)
      case Raise(e) => Attempt(t, Some(e))
      case Done(removed) =>
        match AddJob(removed, id, req.scriptPath, req.intervalUnit, req.intervalValue, read)
        case Raise(e) => Attempt(removed, Some(e))
        case Done(added) => Attempt(added, None)
  }

  /** PUT /api/jobs/{id}: the catch-all handler turns whatever was raised, the 404 included, into 400. */
  function UpdateJob(t: Table, id: string, req: JobUpdate, read: KeywordReader): (r: Reply)
    ensures r.status == OK || r.status == BAD_REQUEST
    ensures SameElsewhere(t, r.table, id)
  {
    var a := UpdateTryBlock(t, id, req, read);
    if a.raised.None? then Reply(OK, a.table) else Reply(BAD_REQUEST, a.table)
  }

  /** DELETE /api/jobs/{id}: the library's lookup failure answers 404. */
  function DeleteJob(t: Table, id: string): (r: Reply)
    ensures r.status == OK <==> id in t
    ensures r.status != OK ==> r.status == NOT_FOUND
    ensures id !in r.table && SameElsewhere(t, r.table, id)
  {
    match RemoveJob(t, id)
    case Done(t') => Reply(OK, t')
    case Raise(_) => Reply(NOT_FOUND, t)
  }

  /** One entry of the job list: the id and the interval label (the next run time is the library's). */
  datatype Row = Row(id: string, interval: string)

  /** The keys of a table, each once, in an order of the library's choosing. */
  method KeysInSomeOrder(keys: set<string>) returns (ids: seq<string>)
    ensures |ids| == |keys|
    ensures forall i :: 0 <= i < |ids| ==> ids[i] in keys
    ensures forall i, j :: 0 <= i < j < |ids| ==> ids[i] != ids[j]
    ensures forall k :: k in keys ==> k in ids
  {
    ids := [];
    var pending := keys;
    ghost var listed: set<string> := {};
    while pending != {}
      invariant listed !! pending && listed + pending == keys
      invariant |ids| == |listed|
      invariant forall i :: 0 <= i < |ids| ==> ids[i] in listed
      invariant forall i, j :: 0 <= i < j < |ids| ==> ids[i] != ids[j]
      invariant forall k :: k in listed ==> k in ids
      decreases |pending|
    {
      var id :| id in pending;
      ids := ids + [id];
      listed := listed + {id};
      pending := pending - {id};
    }
  }

  /** GET /api/jobs: one row per job, in whatever order the library yields them. */
  method ListJobs(t: Table) returns (rows: seq<Row>)
    ensures |rows| == |t|
    ensures forall i :: 0 <= i < |rows| ==> rows[i].id in t && rows[i].interval == DisplayLabel(t[rows[i].id].intervalSeconds)
    ensures forall i, j :: 0 <= i < j < |rows| ==> rows[i].id != rows[j].id
    ensures forall k :: k in t ==> exists i :: 0 <= i < |rows| && rows[i].id == k
  {
    var ids := KeysInSomeOrder(t.Keys);
    rows := seq(|ids|, i requires 0 <= i < |ids| => Row(ids[i], DisplayLabel(t[ids[i]].intervalSeconds)));
    assert forall i :: 0 <= i < |rows| ==> rows[i].id == ids[i];
  }

  // ---------------------------------------------------------------------------
  // Properties of the handlers over the table

  /** Deleting an absent id answers 404 and changes nothing; deleting a present one removes that job alone. */
  lemma DeleteSemantics(t: Table, id: string)
    ensures id !in t ==> DeleteJob(t, id) == Reply(NOT_FOUND, t)
    ensures id in t ==> DeleteJob(t, id) == Reply(OK, t - {id})
  {
  }

  /**
   Creating a job under an id already in use answers 400 and leaves the existing
   job as it was, unless the spread keyword was read as `replace_existing` with a
   true value: then the existing job is overwritten and the answer is 200.
   */
  lemma CreateDuplicateKeepsExisting(t: Table, req: JobCreate, read: KeywordReader)
    requires req.jobId in t
    ensures var e := read(req.intervalUnit, req.intervalValue);
      CreateJob(t, req, read) == Reply(BAD_REQUEST, t) <==> !(e.Accepted? && e.replaceExisting)
    ensures var e := read(req.intervalUnit, req.intervalValue);
      e.Accepted? && e.replaceExisting ==>
        CreateJob(t, req, read) == Reply(OK, t[req.jobId := Job(req.scriptPath, e.seconds, StartDate)])
  {
  }

  /**
   A create succeeds exactly when the library accepts the keyword and the id is
   fresh or the keyword asked to replace, and then stores what was asked.
   */
  lemma CreateStoresRequest(t: Table, req: JobCreate, read: KeywordReader)
    ensures var e := read(req.intervalUnit, req.intervalValue);
      CreateJob(t, req, read).status == OK <==> e.Accepted? && (req.jobId !in t || e.replaceExisting)
    ensures CreateJob(t, req, read).status == OK ==>
      CreateJob(t, req, read).table
        == t[req.jobId := Job(req.scriptPath, read(req.intervalUnit, req.intervalValue).seconds, StartDate)]
  {
  }

  /**
   After a successful create, the detail view gives back the script path and an
   interval of the same length; when the request named seconds, minutes or hours
   in reduced form it gives back the very pair that was sent.
   */
  lemma CreateThenGet(t: Table, req: JobCreate, read: KeywordReader, u: Unit)
    requires req.jobId !in t
    requires req.intervalValue >= 0 && req.intervalUnit == UnitName(u)
    requires read(req.intervalUnit, req.intervalValue).Accepted?
    requires read(req.intervalUnit, req.intervalValue).seconds == req.intervalValue * UnitSeconds(u)
    ensures var r := CreateJob(t, req, read);
      && r.status == OK
      && GetJob(r.table, req.jobId).Found?
      && GetJob(r.table, req.jobId).detail.scriptPath == req.scriptPath
      && GetJob(r.table, req.jobId).detail.intervalValue * UnitSeconds(Denormalize(req.intervalValue * UnitSeconds(u)).unit)
         == req.intervalValue * UnitSeconds(u)
      && (Reduced(Quantity(req.intervalValue, u)) ==>
            GetJob(r.table, req.jobId).detail == Detail(req.jobId, req.scriptPath, req.intervalValue, req.intervalUnit))
  {
    DenormalizeOfTotal(Quantity(req.intervalValue, u));
  }

  /** Updating a present id with an accepted interval re-points that id alone, anchored at the fixed start date. */
  lemma UpdatePresent(t: Table, id: string, req: JobUpdate, read: KeywordReader)
    requires id in t && read(req.intervalUnit, req.intervalValue).Accepted?
    ensures UpdateJob(t, id, req, read)
         == Reply(OK, t[id := Job(req.scriptPath, read(req.intervalUnit, req.intervalValue).seconds, StartDate)])
  {
  }

  /** Updating an absent id changes nothing, and the 404 raised for it reaches the client as 400. */
  lemma UpdateAbsent(t: Table, id: string, req: JobUpdate, read: KeywordReader)
    requires id !in t
    ensures UpdateTryBlock(t, id, req, read).raised == Some(Http(NOT_FOUND))
    ensures UpdateJob(t, id, req, read) == Reply(BAD_REQUEST, t)
  {
  }

  /** Update removes before it adds: when the add is refused the old job is already gone and stays gone. */
  lemma UpdateRejectedDropsJob(t: Table, id: string, req: JobUpdate, read: KeywordReader)
    requires id in t && read(req.intervalUnit, req.intervalValue).Refused?
    ensures UpdateJob(t, id, req, read) == Reply(BAD_REQUEST, t - {id})
  {
  }

  /** On a present id, update behaves as a delete followed by a create under the same id. */
  lemma UpdateIsDeleteThenCreate(t: Table, id: string, req: JobUpdate, read: KeywordReader)
    requires id in t
    ensures var d := DeleteJob(t, id);
      var c := CreateJob(d.table, JobCreate(id, req.scriptPath, req.intervalValue, req.intervalUnit), read);
      d.status == OK && UpdateJob(t, id, req, read) == c
  {
  }

  /** Every handler keeps all jobs anchored at the fixed start date. */
  lemma HandlersKeepAnchor(t: Table, id: string, c: JobCreate, u: JobUpdate, read: KeywordReader)
    requires Anchored(t)
    ensures Anchored(CreateJob(t, c, read).table)
    ensures Anchored(UpdateJob(t, id, u, read).table)
    ensures Anchored(DeleteJob(t, id).table)
  {
  }
}
