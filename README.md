# urlchecker: a verified model of the health-check core

urlchecker is a Django site that monitors URLs. Every few minutes a Celery task
enqueues one `check_url_health` job per active URL. Each job issues one HTTP GET and
stores a `HealthCheck` row with the status code, latency and verdict. A daily task
sweeps rows older than three days. A jQuery dashboard shows the latest verdict of each
URL and lets the user trigger a check; its AJAX calls carry the Django CSRF token.

This project models that core in Dafny. It has six modules:

- `Models` (`models.dfy`): the `Url` and `HealthCheck` rows, their defaults, their
  default orderings, `get_latest_health_check`, `get_status_display`,
  and both `__str__` methods.
- `Tasks` (`tasks.dfy`): the four Celery tasks.
  - `check_url_health` is a method of the class `HealthCheckStore`. The class holds
    the health-check table as a sequence of rows and the next primary key.
  - The decision one attempt makes is the pure function `Decide`.
  - A whole retry cycle is the sequence `Cycle` of successive decisions.
  - `HealthCheckStore.RunCycle` runs `check_url_health` once per attempt of a cycle,
    against the store, until a run does not schedule a retry.
  - `check_all_urls`, `bulk_check_urls` and `cleanup_old_records` are methods. They
    return the dispatch schedule, or change the store.
- `Dashboard` (`dashboard.dfy`): the CSRF guard of `$.ajaxSetup`, `csrfSafeMethod`,
  `getCSRFToken`, `getCookie` and the error toast of `checkNow`. It also models the
  JavaScript string built-ins they use: `trim`, `substring` and `split` on one
  character.
- `Seqs`, `Text` and `Wrappers`: a stable newest-first sort and a filter (for the
  ORM querysets), integer rendering with its parse-back, Python slicing `s[:n]`, and
  `Option`.

## How the source's effects are modelled

- The outside world enters as parameters:
  - how the GET ended: an `Outcome`, one variant per `except` clause, in their order;
  - the seconds it took: `elapsed`;
  - the current time: `now`, in whole seconds;
  - the attempt number: `retries`;
  - whether each `HealthCheck.objects.create`, bulk delete or `apply_async` succeeds:
    booleans `persists`, `deleteSucceeds`, `accepts`.
- A run of a task ends in a `TaskResult`:
  - `Returned(message)` is a normal return;
  - `RetryScheduled(countdown)` is `raise self.retry(...)`;
  - `Raised` is an exception that leaves the task.
- The two inserts in `check_url_health` differ:
  - The normal path wraps its insert in a handler that logs and swallows the failure
    (monitor/tasks.py:93-105). A failed insert there still returns "Checked ...".
  - The retries-exhausted path inserts without that handler (monitor/tasks.py:75-83).
    A failed insert there leaves the task, so the model returns `Raised` with the
    store unchanged.
- `bulk_check_urls` has an outer `except` that re-raises (monitor/tasks.py:179-181).
  A refused enqueue therefore aborts the batch, and the dispatches made before it
  stay queued.
- `check_all_urls` catches the failure of each enqueue and skips that URL
  (monitor/tasks.py:131-132). The next accepted URL takes the freed delay slot,
  because the delay is `queued_count * 2`.
- URLs are walked newest first (monitor/models.py:10-11). Both orderings are modelled
  as a stable sort: rows with equal timestamps keep their store order.

## Model

| member | source | states |
|---|---|---|
| Models.NewUrl | monitor/models.py:4-8 | a new URL row is active and keeps its given name and address |
| Models.NewHealthCheck | monitor/models.py:26-32 | a new health-check row is unhealthy and its status code, response time and error message are all null |
| Models.UrlsNewestFirst | monitor/models.py:10-11 | the URL table in default order is a permutation of the rows with `createdAt` non-increasing |
| Seqs.SortNewestFirst | monitor/models.py:34-35 | the `-checked_at` / `-created_at` ordering: result sorted by descending key and a permutation of its input |
| Seqs.SortedHeadIsNewest | monitor/models.py:34-35 | the first row of the ordering has a key at least that of every row, which is what `.first()` relies on |
| Models.HealthChecksOf | monitor/models.py:27 | the reverse relation `healthcheck_set` holds exactly the rows whose foreign key is the URL |
| Models.LatestHealthCheck | monitor/models.py:16-17 | `get_latest_health_check` is null exactly when the URL has no record; otherwise it is one of the URL's records with the greatest `checkedAt` |
| Models.StatusDisplay | monitor/models.py:19-23 | "Never checked" exactly when the URL has no record; otherwise "Healthy" or "Unhealthy" as the verdict of a newest record; no other text |
| Models.StatusFollowsNewestRecord | monitor/models.py:19-23 | when one record is strictly newer than the URL's others, the status is that record's verdict |
| Models.UrlLabel | monitor/models.py:13-14 | `str(url)` splits back into the name and the address around " - " at the name's length |
| Models.StatusCodeText | monitor/models.py:38 | a null code renders as "None"; a code renders as canonical decimal text (no leading zero, a minus sign exactly for a negative code) that parses back to the same integer |
| Text.IntToStringParseInt | monitor/models.py:38 | canonical integer text is unique: any canonical text whose value is `i` is exactly the rendering of `i`, so the status code's text is fixed |
| Models.HealthCheckLabel | monitor/models.py:37-38 | for the URL row its foreign key names, `str(health_check)` starts with that URL's name, has " - code - " right after it and ends with the rendered check time |
| Text.Take | monitor/tasks.py:57 | Python's `s[:n]`: a prefix of `s` of length `min(n, |s|)` |
| Tasks.FindActive | monitor/tasks.py:19-20 | the lookup finds a row with that id that is active, and fails exactly when no such row exists |
| Tasks.Decide | monitor/tasks.py:18-89 | not found exactly when the lookup fails; retry exactly on a generic request error with fewer than 3 retries used, after 60·(retries+1) s; a record is healthy exactly for a status code in [200, 400), has a status code exactly for a response, an error text exactly otherwise, and is guarded exactly when it was not written on the exhausted path |
| Tasks.TransportFailuresAreTerminal | monitor/tasks.py:49-65 | a timeout, SSL error or connection error never retries and records an unhealthy, guarded row with no status code; the message is exactly "Request timeout", "Connection failed", or "SSL error: " followed by the first min(100, length) characters of the error text |
| Tasks.ExhaustedRequestErrorIsRecorded | monitor/tasks.py:67-84 | once the retries are used up, a generic request error is recorded as an unhealthy, unguarded row whose message is exactly "Request error: " followed by the first min(100, length) characters of the error text, so the whole text when it has at most 100 characters |
| Tasks.NotFoundMessageNamesId | monitor/tasks.py:21-22 | the not-found reply says "not found or inactive", and the text between its fixed 12-character lead and 22-character tail is an integer that parses back to the requested id |
| Tasks.CheckedMessageShape | monitor/tasks.py:107-111 | the reply is "Checked <name>: " followed by "Healthy" or "Unhealthy" as the verdict says; after the verdict comes exactly " (" + message + ")" when the error message is non-empty and nothing otherwise, so the reply ends in ')' exactly in that case |
| Tasks.ExhaustedMessageIsCheckedMessage | monitor/tasks.py:84 | the exhausted path's reply text is the one the normal path builds for the same unhealthy result |
| Tasks.CycleRetriesThenStops | monitor/tasks.py:13-15 | in a retry cycle every decision but the last is a retry with delays 60, 120, 180 s, and the attempt number never passes 3 |
| Tasks.CycleTerminates | monitor/tasks.py:74-89 | given one attempt more than the retries left, a cycle ends in a non-retry decision |
| Tasks.CycleRecordsAtMostOnce | monitor/tasks.py:74-101 | a cycle decides to write at most one record, and exactly one when its last decision is a record |
| Tasks.CycleOfActiveUrlRecordsOnce | monitor/tasks.py:16-111 | for a URL that stays active, a complete cycle decides on exactly one record |
| Tasks.CycleExtend | monitor/tasks.py:13-15 | while every run so far scheduled a retry, the next run's decision, at attempt number `retries + k`, is appended to the cycle |
| Tasks.CycleComplete | monitor/tasks.py:74-89 | once a run decides anything but a retry, the cycle ends there: later attempts add nothing |
| Tasks.ReplyRetriesExactlyOnRetry | monitor/tasks.py:86-89 | a run's reply schedules a retry exactly when its decision is a retry, with the decision's countdown |
| Tasks.CycleDecisionAt | monitor/tasks.py:74-89 | the k-th decision of a cycle is the decision of the k-th attempt at attempt number `retries + k` |
| Tasks.HealthCheckStore.Insert | monitor/tasks.py:95-101 | `objects.create` appends exactly one row, under a key no stored row has, and advances the key |
| Tasks.HealthCheckStore.CheckUrlHealth | monitor/tasks.py:16-111 | the reply is the one `Decide` implies; the store gains exactly the decided row stamped `now` when a record is decided and the insert succeeds, and is otherwise unchanged; a failed unguarded insert raises |
| Tasks.HealthCheckStore.RunNext | monitor/tasks.py:13-111 | one more run after runs that all scheduled a retry: its decision extends the cycle, its reply is the one that decision implies, it schedules a retry exactly when the decision is a retry, and when it records with a successful insert the store is the old rows followed by the decided row under the next key, stamped with the probe's time and latency; otherwise the store and the key are unchanged |
| Tasks.HealthCheckStore.RunRetryChain | monitor/tasks.py:13-111 | runs `check_url_health` while each run schedules a retry: after `k` runs, the decisions are the first `k` of the cycle, each reply is the one its decision implies, the chain stops early only after a run that did not retry, and the store is the old rows followed by the row of the last decision exactly when that decision is a record and the insert succeeds |
| Tasks.HealthCheckStore.RunCycle | monitor/tasks.py:13-111 | running `check_url_health` until a run does not retry yields one reply per decision of the cycle, each the reply its decision implies; when the cycle ends in a record and inserts succeed, the store is the old rows followed by the one row that last decision describes (its verdict, status code and message), under the next key; otherwise the store and the key are unchanged; for a URL that stays active over enough attempts with successful inserts, the cycle does end in a record, so exactly that one row is added |
| Tasks.Expired | monitor/tasks.py:150-151 | the sweep selects exactly the rows with `checkedAt` strictly before the cut-off |
| Tasks.Retained | monitor/tasks.py:150-152 | the rows left after the sweep are exactly those at or after the cut-off |
| Tasks.SweepPartitionsRecords | monitor/tasks.py:146-155 | every row is either deleted or kept, never both, and the deleted count is the old size minus the kept size |
| Tasks.HealthCheckStore.CleanupOldRecords | monitor/tasks.py:146-159 | on success the store keeps exactly the rows at or after `now` minus three days, in order, and reports how many it deleted; on failure it raises and changes nothing |
| Tasks.ActiveTargets | monitor/tasks.py:118 | the dispatch walks exactly the active URLs, each as often as it occurs in the table, newest created first |
| Tasks.AcceptedAreTargets | monitor/tasks.py:123-132 | only walked URLs are ever enqueued |
| Tasks.AllAcceptedQueuesEveryTarget | monitor/tasks.py:123-129 | when every enqueue succeeds, every active URL is queued, in walk order |
| Tasks.OnlyActiveUrlsQueued | monitor/tasks.py:118-129 | every dispatched id belongs to an active URL |
| Tasks.CheckAllUrls | monitor/tasks.py:118-135 | the schedule is the accepted active URLs in walk order, the j-th delayed 2·j s; the count returned is the number queued |
| Tasks.FirstRefusal | monitor/tasks.py:171-175 | the position of the first refused enqueue: all before it accepted, itself refused |
| Tasks.BulkCheckUrls | monitor/tasks.py:165-177 | an empty list returns "No URLs to check" and queues nothing; otherwise the i-th id is queued after i s up to the first refusal, which raises |
| Dashboard.CsrfSafeMethod | static/js/monitor-dashboard.js:24-27 | a method is safe exactly when it is GET, HEAD, OPTIONS or TRACE, spelled exactly |
| Dashboard.SafeMethodsAreExact | static/js/monitor-dashboard.js:26 | the pattern is anchored and case-sensitive: "get", "GETS" and " GET" are not safe |
| Dashboard.UnsafeMethodsNeedToken | static/js/monitor-dashboard.js:24-27 | POST, PUT, PATCH and DELETE are not safe |
| Dashboard.CsrfHeader | static/js/monitor-dashboard.js:17-20 | the `X-CSRFToken` header with the token is set exactly for a same-origin request with an unsafe method |
| Dashboard.FirstTruthy | static/js/monitor-dashboard.js:413-416 | an `a || b || c` chain yields the first truthy operand, or the last operand when none is truthy |
| Dashboard.GetCsrfToken | static/js/monitor-dashboard.js:413-416 | the token is the first truthy of the form field, the meta tag and the `csrftoken` cookie |
| Dashboard.TrimStartRemovesLeadingSpaces | static/js/monitor-dashboard.js:425 | trimming the front removes only spaces, and all of them |
| Dashboard.TrimEndRemovesTrailingSpaces | static/js/monitor-dashboard.js:425 | trimming the back removes only spaces, and all of them |
| Dashboard.TrimRemovesOuterSpaces | static/js/monitor-dashboard.js:425 | `trim()` cuts only spaces on both sides and leaves no space at either end |
| Dashboard.NameMatchesIsPrefix | static/js/monitor-dashboard.js:426 | the entry test holds exactly when the entry starts with `name=`; "csrftokenX=" does not match "csrftoken" |
| Dashboard.JoinSplit | static/js/monitor-dashboard.js:423 | `split(';')` loses nothing: joining the pieces with ';' gives the cookie string back |
| Dashboard.SplitJoin | static/js/monitor-dashboard.js:423 | pieces without ';' come back unchanged from splitting their join |
| Dashboard.MatchIndexMatches | static/js/monitor-dashboard.js:424-430 | the entry the scan stops at matches the name |
| Dashboard.NoMatchBefore | static/js/monitor-dashboard.js:424-430 | no entry before the one the scan stops at matches |
| Dashboard.FirstCookieIsFirstMatch | static/js/monitor-dashboard.js:420-433 | the lookup yields the decoded text after `name=` of the first matching trimmed entry, and null when none matches |
| Dashboard.GetCookie | static/js/monitor-dashboard.js:420-433 | the loop with its early `break` computes exactly the first-match lookup, null for an empty cookie string |
| Dashboard.CheckNowErrorToast | static/js/monitor-dashboard.js:147-163 | the toast text is always non-empty: fixed texts for 500 and 0; for 503 and other statuses the server's truthy `error`, otherwise the 503 or the generic default |

## Left out

- HTTP, TLS and the `requests` exception hierarchy: a probe is an `Outcome`. `str(e)` of an exception is the string the variant carries.
- `time.time()`: latency enters as `elapsed`. `timezone.now()` and `auto_now_add` enter as the integer `now`, in seconds.
- Celery:
  - The broker, workers, `rate_limit`, `retry_backoff` and the beat schedule are not modelled.
  - `autoretry_for` is not modelled beyond the manual retry it duplicates.
  - A retry is the result `RetryScheduled`. Its later run is the next `Attempt` of a `Cycle`.
- Tasks.HealthCheckStore.RunCycle: every run of a cycle is given the same `persists`; the countdown between runs is in each reply, not in a clock.
- Tasks.HealthCheckStore.CheckUrlHealth: each attempt looks the URL up again. A cycle can therefore see the URL deactivated between attempts, and an `Attempt` carries its own lookup result.
- Database transactions, concurrency between workers, logging: not modelled. A failing insert, delete or enqueue is a boolean parameter.
- Tasks.CheckAllUrls: the outer `except`/`raise` of `check_all_urls` is not modelled. Only `count()` or the query itself could raise there, and both are database failures outside the model.
- Tasks.HealthCheckStore.CleanupOldRecords: Django's per-model breakdown of `delete()` is dropped. Only the total count is reported.
- Ordering ties: Django leaves the order of rows with equal timestamps to the database. The model sorts stably instead.
- `response_time` is a `real`. Floating-point rounding is not modelled.
- Rendering of `checked_at` in `str(health_check)` is the parameter `renderTime`.
- `decodeURIComponent` is the parameter `decode`. The `URIError` it throws on malformed escapes is not modelled.
- jQuery upper-cases `settings.type` before `beforeSend`. `Dashboard.CsrfHeader` takes the method as given.
- DOM queries (`$('[name=csrfmiddlewaretoken]').val()`, the meta tag) are the `JsValue` parameters of `GetCsrfToken`. Toasts, timers and grid refreshes are not modelled.
- The column widths of `URL.name` (255) and `URL.url` (500) are not modelled. The tasks only read these columns, and nothing in the core checks their length.
- Views, serializers, URL routing, admin, settings and templates are not part of this model.
