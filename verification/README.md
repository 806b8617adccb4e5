# AutoRun Python Script Scheduler: a Dafny model of its own logic

The scheduler is a small FastAPI service. Clients create, update, list and
delete periodic jobs, and each job runs a bash script at a fixed interval. The
library (APScheduler) does the timing, the persistence and the firing. This
project models the logic the repository writes itself:

- **Interval conversion** (module `Interval`, with `Decimal` for the printed
  numbers). The detail view turns a stored interval in whole seconds back into a
  `(value, unit)` pair: hours, then minutes, then seconds. The list view buckets
  the same total into a truncated seconds, minutes or hours label with a Korean
  unit suffix.
- **The job table as the handlers drive it** (module `Jobs`). The store is a map
  from job id to `(script path, interval in seconds, start date)`, and every job
  gets the start date `2024-01-01`. The library calls `add_job` and `remove_job`
  are steps that either change the map or raise. The lookup `get_job` answers
  `None` for a missing id and never raises, so it is a membership test on the map. The handlers' own
  control flow sits on top: what each one catches, which status it answers, and
  the remove-then-add order of update.
- **The job body** (modules `PosixPath` and `RunScript`). `run_script` strips the
  leading `/` characters from the client path and joins the rest under the
  workspace. It runs the result with bash from that file's directory. Every
  outcome collapses to `True` (exit status 0 with output that decodes as text)
  or `False`.

Modelling choices:
- The library's reading of the keyword argument `{interval_unit: interval_value}`
  is a parameter `read: (string, int) -> KeywordEffect`. `Refused` stands for
  `add_job` raising on the keyword or its value. `Accepted(seconds, replaceExisting)`
  gives the interval the job gets and whether the keyword landed on `add_job`'s
  own `replace_existing` parameter with a true value.
- The library rejects an id that is already in the store (`ConflictingIdError`)
  unless `replace_existing` is true, and the model states this explicitly.
- The child process is a parameter from the invocation (command line and working
  directory) to its outcome.
- The workspace directory is a parameter.

Three handler behaviours differ from what the handlers' own code evidently intends:
- On a missing id, update answers 400, not the 404 its own `raise` names.
- Update is not atomic: a refused add leaves the old job removed.
- Create spreads the client's unit name into `add_job`, so the unit
  `replace_existing` overwrites a job under a taken id instead of being refused.

All three are listed under Findings. Module `Intended` gives the corrected
update and create and relates each to the code as written. The rest of the
model (module `Jobs`) models the handlers as written. APScheduler computes next
run times, persists jobs and fires them; none of that is modelled.

## Model

| member | source | states |
|---|---|---|
| Interval.Denormalize | app.py:47-60 | the returned count times the chosen unit's length is exactly the stored total, for every total including 0 |
| Interval.DenormalizeLargestUnit | app.py:52-60 | hours are chosen exactly when they measure the total as a positive whole, minutes exactly when they do and hours do not, seconds otherwise with the whole total as value; no unit that measures the total is larger than the chosen one |
| Interval.DenormalizeOfTotal | app.py:52-60 | a `(value, unit)` pair comes back unchanged through seconds exactly when it is reduced (no zero minutes or hours, no whole multiple of the next unit); every pair comes back with the same number of seconds |
| Interval.DisplayQuantity | app.py:119-124 | the list bucket is seconds below 60, hours from 3600, minutes in between, and shown value times unit is at most the total and more than the total minus one unit (90 seconds shows as 1 minute) |
| Interval.DisplayLargestUnitNotExceeding | app.py:119-124 | the bucket is the largest unit not exceeding the total, a non-zero total never shows 0, and the shown value is the only count within one unit below the total |
| Interval.DisplayAgreesWithDetail | app.py:119-124 | list and detail views show the same pair if and only if the total is under a minute, a whole number of minutes under an hour, or a whole number of hours |
| Interval.LabelRoundTrip | app.py:119-124 | the label text (decimal count then unit suffix) reads back as exactly the bucket and count, so it loses nothing of the truncated quantity |
| Interval.DisplayLabelParts | app.py:119-124 | the label ends in the bucket's unit suffix, and the text before the suffix is exactly the decimal form of the bucket's count |
| Interval.ParseLabelOnlyLabels | app.py:119-124 | any text the label reader accepts is exactly the written form (decimal count, then unit suffix) of the quantity it reads, so different quantities never share a label |
| Decimal.ParseShow | app.py:120-124 | the decimal text of a count parses back to that count |
| Decimal.Show | app.py:120-124 | the decimal text of a count is non-empty, all digits, and has no leading zero unless it is `0` itself |
| Decimal.ShowParse | app.py:120-124 | text in printed form (digits, no leading zero) is the decimal text of the number it denotes |
| Jobs.AddJob | app.py:82-89 | the library add succeeds exactly when the keyword is accepted and the id is fresh or the keyword asked to replace; it raises the conflicting-id error exactly for an accepted keyword on a taken id without replace; on success it stores path, interval and the 2024-01-01 start date under that id and changes no other id |
| Jobs.RemoveJob | app.py:152 | the library remove succeeds exactly for a present id, drops it and nothing else, and otherwise raises the lookup error |
| Jobs.GetJob | app.py:41-68 | detail is found exactly for a present id, otherwise 404; it carries the stored script path, and its count and unit name are exactly the detail conversion of the stored interval, whose product is that interval |
| Jobs.CreateJob | app.py:133-147 | create answers 200 or 400; a 400 leaves the table as it was; a 200 means the keyword was accepted, the id was fresh or the keyword asked to replace, and only that id changed |
| Jobs.CreateDuplicateKeepsExisting | app.py:135-147 | creating under an existing id answers 400 with the table unchanged exactly when the keyword is not an accepted request to replace; such a request answers 200 and overwrites the existing job |
| Jobs.CreateStoresRequest | app.py:136-145 | create succeeds if and only if the keyword is accepted and the id is fresh or the keyword asked to replace, and then maps the id to the requested path and interval anchored at 2024-01-01 |
| Jobs.CreateThenGet | app.py:136-144 | after creating with a seconds, minutes or hours request, the detail view returns the path and an interval of equal length, and returns the very same value and unit when the request was reduced |
| Jobs.UpdateTryBlock | app.py:72-89 | the try-block raises the 404 for an absent id without touching the table, and for a present id either keeps the id mapped or has raised |
| Jobs.UpdateJob | app.py:70-95 | update answers only 200 or 400 and never changes any id other than the one addressed |
| Jobs.UpdatePresent | app.py:73-92 | update of a present id with an accepted interval answers 200 and maps that id to the new path and interval at 2024-01-01, every other id unchanged |
| Jobs.UpdateAbsent | app.py:72-95 | update of an absent id raises 404 inside the try, answers 400 to the client, and leaves the table unchanged |
| Jobs.UpdateRejectedDropsJob | app.py:78-95 | update of a present id whose interval the library refuses answers 400 with that job removed and not restored |
| Jobs.UpdateIsDeleteThenCreate | app.py:78-89 | on a present id, update gives the same status and table as a successful delete followed by a create under the same id |
| Jobs.HandlersKeepAnchor | app.py:82-89 | create, update and delete keep every stored job anchored at 2024-01-01 |
| Jobs.DeleteJob | app.py:149-155 | delete answers 200 exactly for a present id, 404 otherwise, and afterwards the id is absent and every other id unchanged |
| Jobs.DeleteSemantics | app.py:149-155 | deleting an absent id answers 404 with the table unchanged; deleting a present id answers 200 with that job alone removed |
| Jobs.ListJobs | app.py:113-131 | the list has one row per job, no id twice, every id of the table present, and each row's interval text is that job's display label |
| Jobs.KeysInSomeOrder | app.py:116 | the ids the list loop visits are exactly the table's ids, each once, in some order |
| Intended.AtomicUpdate | app.py:70-95 | corrected update: 404 exactly for an absent id, 200 exactly for a present id with an accepted interval, the table unchanged on every failure, and only the addressed id changed on success |
| Intended.AgreesWhenSuccessful | app.py:70-95 | the update as written and the corrected one succeed on the same inputs and then leave the same table |
| Intended.MissingIdAnswers400 | app.py:72-95 | for a missing id the update as written answers 400 where the corrected one answers 404 |
| Intended.RefusedUnitLosesJob | app.py:78-95 | with the unit "fortnights" on the existing job "backup", the update as written answers 400 and leaves an empty table, while the corrected one keeps the job |
| Intended.GuardedCreate | app.py:133-147 | corrected create: a taken id always answers 400 with the table unchanged; 200 exactly for a fresh id, one of the units seconds, minutes or hours, and an accepted keyword, and then only that id is mapped to the requested job |
| Intended.GuardedCreateAgreesOnUnits | app.py:133-147 | for the units seconds, minutes and hours, whenever the keyword is not an accepted request to replace, the create as written and the corrected one give the same status and table |
| Intended.ReplaceExistingOverwrites | app.py:136-147 | with the unit "replace_existing" on the taken id "backup", the create as written answers 200 and overwrites the job, while the corrected one answers 400 and keeps it |
| PosixPath.LStrip | scripts/run_script.py:15 | the result is a suffix of the input, every character removed is the stripped one, and the result does not start with it |
| PosixPath.LStripIdempotent | scripts/run_script.py:15 | stripping leading separators twice gives the same as once |
| PosixPath.Join | scripts/run_script.py:15 | a segment starting with `/` replaces the base; any other segment keeps the base as prefix and ends the result, with exactly one `/` added when the base is non-empty and does not end in one, and none otherwise (so the root `/` gives `/segment`) |
| PosixPath.Dirname | scripts/run_script.py:20 | the directory is a prefix ending before the last separator, only separators lie between it and the final component, it ends in `/` only if it is all separators, and a head made only of separators (the root) is returned untrimmed |
| PosixPath.DirnameOfChild | scripts/run_script.py:20 | the directory of `join(x, name)`, for a component `name` with no `/` and a directory `x` that is non-empty and ends in `/` only if it is the root, is `x` |
| PosixPath.DirnameOfAbsoluteIsDirectory | scripts/run_script.py:11-12 | the directory of a non-empty absolute path is non-empty and ends in `/` only if it is the root, so it can serve as a base again |
| PosixPath.JoinNested | scripts/run_script.py:15 | joining `dir/name` under a base in one step gives the same path as joining `dir`, then `name` |
| RunScript.ResolvePath | scripts/run_script.py:15 | the resolved path is exactly the workspace, then one `/` exactly when the workspace is non-empty and does not end in `/`, then the client path with its leading `/` characters stripped; so it starts with the workspace, ends with the stripped path, and holds only that `/` between them |
| RunScript.Plan | scripts/run_script.py:15-27 | the invocation is exactly `bash <resolved path>`, and its working directory is the `dirname` of that path, a prefix of it |
| RunScript.SubprocessRun | scripts/run_script.py:23-30 | with `check=True` and `text=True` the run completes exactly on exit status 0 with decodable output; it raises the non-zero-exit error, carrying the status, exactly on another status with decodable output; every other outcome raises another error |
| RunScript.RunScript | scripts/run_script.py:8-36 | the result is `True` exactly when the child invoked by the plan exits with status 0 and its output decodes; every outcome yields a boolean |
| RunScript.RunScriptFailures | scripts/run_script.py:31-36 | `False` is returned exactly on a non-zero exit, an output that does not decode, or a failure to start |
| RunScript.ResolveKeepsWorkspace | scripts/run_script.py:15 | for every workspace, the root and the empty one included: the stripped segment never starts with `/`, only `/` characters were removed, and the resolved path is the workspace then the segment, with one `/` added exactly when the workspace is non-empty and does not end in `/` |
| RunScript.TopLevelScriptRunsInWorkspace | scripts/run_script.py:20-27 | for every workspace in directory form (non-empty, ending in `/` only if it is the root), a client path that names a file with no directory part runs with the workspace as its working directory |
| RunScript.NestedScriptRunsInItsDirectory | scripts/run_script.py:20-27 | for every workspace, a client path `dir/name` runs with working directory `join(workspace, dir)` |
| RunScript.ParentSegmentsPassThrough | scripts/run_script.py:15 | for every workspace, `/../outside.sh` resolves to the workspace joined with `../outside.sh`: the `..` segment is kept verbatim and nothing confines the script to the workspace |

## Left out

- Next run times: the `next_run_time` field of both views and the library's computation of it from the start date are not modelled. Rows carry no such field.
- Intervals are whole seconds (`nat`). `total_seconds()` returns a float. `int(x / n)` is modelled as truncating division on naturals, and float rounding for totals above 2^53 is not modelled.
- Negative intervals are not modelled, although the library can build one.
- The library's handling of the keyword argument is the `read` parameter, as the library does not show which keywords and values it accepts. That includes its coercion of a zero interval to one second and which of `add_job`'s own parameters a unit name can reach; only `replace_existing` is given an effect on the table.
- The library's SQLite job store and persistence across restarts are not modelled: the table is a map.
- The background scheduler thread and its concurrency are not modelled. Update's look-up and remove are assumed not to interleave with other requests.
- The scheduler firing a job (calling `run_script` with the stored path) is not modelled.
- Log-file reading (`get_logs`), every logging call, the HTML root, static-file mounting, routing and request validation are left out. These are file I/O and framework plumbing.
- Error responses' `detail` texts (`str(e)`) are left out. Only status codes are modelled.
- The `__file__`-based computation of the workspace directory is left out; the workspace is a parameter.
- Actual process spawning and the captured stdout/stderr are left out; the child is a parameter.
- Exceptions outside `Exception` (such as `KeyboardInterrupt`) that `run_script` does not catch are not modelled.
- Jobs.ListJobs: states the rows' content but not their order, which is the library's iteration order.
- Decimal.Parse and Interval.ParseLabel are the model's own inverses, used to state that labels lose nothing. The source has no parser.

## Findings

| source | as written | input that shows it | evidently intended | confidence | as-written member | corrected member |
|---|---|---|---|---|---|---|
| app.py:72-95 | the 404 raised for a missing id inside the `try` is caught by `except Exception` and re-raised as 400 | PUT /api/jobs/backup when no job "backup" exists | 404 Not Found, as the handler's own `raise` says | not executed | Jobs.UpdateAbsent | Intended.AtomicUpdate |
| app.py:78-95 | the old job is removed before the new one is added, so an add that raises leaves the job deleted | PUT /api/jobs/backup with `interval_unit` "fortnights" while "backup" exists | 400 with the existing job left in place | not executed | Jobs.UpdateRejectedDropsJob | Intended.AtomicUpdate |
| app.py:136-147 | the client's `interval_unit` is spread as a keyword into `add_job`, so the unit `replace_existing` sets `add_job`'s own parameter and overrides the duplicate-id check | POST /api/jobs with job_id "backup", interval_unit "replace_existing", interval_value 1 while "backup" exists | 400 with the existing job left unchanged, as for any taken id | not executed | Jobs.CreateDuplicateKeepsExisting | Intended.GuardedCreate |
