/** The Celery tasks: one probe cycle for one URL, the two batch dispatchers and the
    retention sweep. The network, the clock, the task queue and the database are
    parameters: a probe arrives as an `Outcome`, the time as `now`, and the success of
    each enqueue, insert or delete as a boolean. */
module Tasks {
  import opened Wrappers
  import opened Text
  import opened Seqs
  import opened Models

  /** `max_retries` of `check_url_health`. */
  const MaxRetries: nat := 3
  /** Error texts are cut to this many characters before they are stored. */
  const ErrorTextLimit: nat := 100
  /** Records older than this many seconds are swept: three days. */
  const RetentionSeconds: int := 3 * 24 * 60 * 60

  /** How one HTTP GET ended, one variant per `except` clause, in their order. */
  datatype Outcome =
    | Response(statusCode: int)
    | Timeout
    | SSLError(text: string)
    | ConnectionError
    | OtherRequestError(text: string)

  /** What one run of `check_url_health` decides to do. `guarded` tells whether the
      insert of a record is wrapped in the handler that logs and swallows its failure. */
  datatype Decision =
    | NotFound
    | Retry(countdown: nat)
    | Record(statusCode: Option<int>, isHealthy: bool, errorMessage: Option<string>, guarded: bool)

  /** How a task run ends: a returned message, a re-dispatch of itself, or an exception. */
  datatype TaskResult = Returned(message: string) | RetryScheduled(countdown: nat) | Raised

  /** One `apply_async` of `check_url_health`: its URL id and its start delay in seconds. */
  datatype Dispatch = Dispatch(urlId: int, countdown: nat)

  /** `URL.objects.get(id=id, is_active=True)`, with `DoesNotExist` as `None`. */
  function FindActive(urls: seq<Url>, id: int): (r: Option<Url>)
    ensures r.Some? ==> r.value in urls && r.value.id == id && r.value.isActive
    ensures r.None? <==> forall u :: u in urls ==> !(u.id == id && u.isActive)
    decreases |urls|
  {
    if |urls| == 0 then None
    else if urls[0].id == id && urls[0].isActive then Some(urls[0])
    else FindActive(urls[1..], id)
  }

  /** The delay before attempt `retries + 1`: 60, 120, 180 seconds. */
  function RetryCountdown(retries: nat): nat {
    60 * (retries + 1)
  }

  /** The fixed parts of the error messages a record carries. */
  const TimeoutText: string := "Request timeout"
  const SslLead: string := "SSL error: "
  const ConnectionText: string := "Connection failed"
  const RequestLead: string := "Request error: "

  /** The decision of one attempt, following the branches of `check_url_health`. */
  function Decide(target: Option<Url>, outcome: Outcome, retries: nat): (d: Decision)
    ensures d.NotFound? <==> target.None?
    ensures d.Retry? <==> target.Some? && outcome.OtherRequestError? && retries < MaxRetries
    ensures d.Retry? ==> d.countdown == 60 * (retries + 1)
    ensures d.Record? ==> (d.isHealthy <==> d.statusCode.Some? && 200 <= d.statusCode.value < 400)
    ensures d.Record? ==> (d.statusCode.Some? <==> outcome.Response?)
    ensures d.Record? ==> (d.errorMessage.None? <==> outcome.Response?)
    ensures d.Record? && outcome.Response? ==> d.statusCode == Some(outcome.statusCode)
    ensures d.Record? ==> (d.guarded <==> !outcome.OtherRequestError?)
  {
    if target.None? then NotFound
    else
      match outcome
      case Response(code) => Record(Some(code), 200 <= code < 400, None, true)
      case Timeout => Record(None, false, Some(TimeoutText), true)
      case SSLError(text) => Record(None, false, Some(SslLead + Take(text, ErrorTextLimit)), true)
      case ConnectionError => Record(None, false, Some(ConnectionText), true)
      case OtherRequestError(text) =>
        if retries >= MaxRetries then
          Record(None, false, Some(RequestLead + Take(text, ErrorTextLimit)), false)
        else
          Retry(RetryCountdown(retries))
  }

  /** A timeout, a TLS failure or a refused connection ends the cycle at once, on any
      attempt, with an unhealthy record whose message is fixed or carries at most
      100 characters of the error text. */
  lemma TransportFailuresAreTerminal(target: Url, outcome: Outcome, retries: nat)
    requires outcome.Timeout? || outcome.SSLError? || outcome.ConnectionError?
    ensures var d := Decide(Some(target), outcome, retries);
      && d == Record(None, false, d.errorMessage, true)
      && (outcome.Timeout? ==> d.errorMessage == Some("Request timeout"))
      && (outcome.ConnectionError? ==> d.errorMessage == Some("Connection failed"))
      && (outcome.SSLError? ==>
            && d.errorMessage == Some("SSL error: " + Take(outcome.text, ErrorTextLimit))
            && |d.errorMessage.value| == 11 + (if |outcome.text| < ErrorTextLimit then |outcome.text| else ErrorTextLimit)
            && d.errorMessage.value[11..] <= outcome.text)
  {
  }

  /** A generic request error once the retries are used up is recorded unhealthy, outside
      the guarded insert, with at most 100 characters of its text. */
  lemma ExhaustedRequestErrorIsRecorded(target: Url, text: string, retries: nat)
    requires retries >= MaxRetries
    ensures var d := Decide(Some(target), OtherRequestError(text), retries);
      && d == Record(None, false, d.errorMessage, false)
      && d.errorMessage == Some("Request error: " + Take(text, ErrorTextLimit))
      && |d.errorMessage.value| == 15 + (if |text| < ErrorTextLimit then |text| else ErrorTextLimit)
      && d.errorMessage.value[15..] <= text
      && (|text| <= ErrorTextLimit ==> d.errorMessage.value == "Request error: " + text)
  {
  }

  /** The message returned for a missing or inactive URL id. */
  function NotFoundMessage(urlId: int): string {
    NotFoundLead + IntToString(urlId) + NotFoundTail
  }

  /** The fixed parts of the replies. */
  const NotFoundLead: string := "URL with id "
  const NotFoundTail: string := " not found or inactive"
  const CheckedLead: string := "Checked "
  const HealthyText: string := "Healthy"
  const UnhealthyText: string := "Unhealthy"

  /** The not-found message says so and names the id, as text that reads back as the id. */
  lemma NotFoundMessageNamesId(urlId: int)
    ensures var m := NotFoundMessage(urlId);
      && Contains(m, "not found or inactive")
      && |m| > 34
      && IsIntText(m[12..|m| - 22]) && ParseInt(m[12..|m| - 22]) == urlId
  {
    var m := NotFoundMessage(urlId);
    var id := IntToString(urlId);
    assert |NotFoundLead| == 12 && |NotFoundTail| == 22;
    assert NotFoundTail == " " + "not found or inactive";
    ContainsMiddle(NotFoundLead + id + " ", "not found or inactive", "");
    assert m == (NotFoundLead + id + " ") + "not found or inactive" + "";
    assert m[12..|m| - 22] == id;
    ParseIntToString(urlId);
  }

  /** The message returned after a probe whose outcome was recorded (or lost). */
  function CheckedMessage(name: string, isHealthy: bool, errorMessage: Option<string>): string {
    var verdict := if isHealthy then HealthyText else UnhealthyText;
    var detail := if errorMessage.Some? && errorMessage.value != "" then " (" + errorMessage.value + ")" else "";
    CheckedLead + name + ": " + verdict + detail
  }

  /** The checked message is "Checked <name>: ", then the verdict, then the error message in
      parentheses exactly when there is a non-empty one, and nothing else. */
  lemma CheckedMessageShape(name: string, isHealthy: bool, errorMessage: Option<string>)
    ensures var m := CheckedMessage(name, isHealthy, errorMessage);
      var p := 10 + |name|; var v := if isHealthy then "Healthy" else "Unhealthy";
      && "Checked " + name + ": " <= m
      && Contains(m, v)
      && |m| >= p + |v| && m[p..p + |v|] == v
      && (errorMessage.Some? && errorMessage.value != "" ==> m[p + |v|..] == " (" + errorMessage.value + ")")
      && (errorMessage.None? || errorMessage.value == "" ==> |m| == p + |v|)
      && ((errorMessage.Some? && errorMessage.value != "") <==> m[|m| - 1] == ')')
  {
    var verdict := if isHealthy then HealthyText else UnhealthyText;
    var detail := if errorMessage.Some? && errorMessage.value != "" then " (" + errorMessage.value + ")" else "";
    ContainsMiddle(CheckedLead + name + ": ", verdict, detail);
  }

  /** The message of the retries-exhausted path is the one the normal path would give. */
  lemma ExhaustedMessageIsCheckedMessage(name: string, errorMessage: string)
    requires errorMessage != ""
    ensures "Checked " + name + ": Unhealthy (" + errorMessage + ")" == CheckedMessage(name, false, Some(errorMessage))
  {
    var prefix := "Checked " + name + ": ";
    assert "Checked " + name + ": Unhealthy (" + errorMessage + ")" == prefix + "Unhealthy" + (" (" + errorMessage + ")");
  }

  /** The result of a run of `check_url_health` that met decision `d`. */
  function Reply(target: Option<Url>, urlId: int, d: Decision, persists: bool): TaskResult {
    if target.None? || d.NotFound? then Returned(NotFoundMessage(urlId))
    else if d.Retry? then RetryScheduled(d.countdown)
    else if !persists && !d.guarded then Raised
    else Returned(CheckedMessage(target.value.name, d.isHealthy, d.errorMessage))
  }

  /** What one run of `check_url_health` meets: the URL table it reads, how the GET
      ended, how long it took and the time of the insert. */
  datatype Probe = Probe(urls: seq<Url>, outcome: Outcome, elapsed: real, now: int)

  /** The row a run that decided `d` on probe `q` inserts under key `id`. */
  function RecordRow(id: int, urlId: int, d: Decision, q: Probe): (h: HealthCheck)
    requires d.Record?
    ensures h.id == id && h.urlId == urlId && h.checkedAt == q.now
    ensures h.isHealthy == d.isHealthy && h.errorMessage == d.errorMessage && h.statusCode == d.statusCode
    ensures h.responseTime == Some(q.elapsed)
  {
    HealthCheck(id, urlId, d.statusCode, Some(q.elapsed), q.now, d.isHealthy, d.errorMessage)
  }

  /** A run re-dispatches itself exactly when its decision is a retry, after the decided
      delay. */
  lemma ReplyRetriesExactlyOnRetry(target: Option<Url>, urlId: int, d: Decision, persists: bool)
    requires target.None? ==> d.NotFound?
    ensures Reply(target, urlId, d, persists).RetryScheduled? <==> d.Retry?
    ensures d.Retry? ==> Reply(target, urlId, d, persists) == RetryScheduled(d.countdown)
  {
  }

  /** Each run's result is the reply its own decision dictates, and one more run keeps it
      so. */
  lemma RepliesExtend(probes: seq<Probe>, urlId: int, ds: seq<Decision>, results: seq<TaskResult>,
                      d: Decision, res: TaskResult, persists: bool)
    requires |results| == |ds| < |probes|
    requires forall j {:trigger results[j]} :: 0 <= j < |ds| ==>
      results[j] == Reply(FindActive(probes[j].urls, urlId), urlId, ds[j], persists)
    requires res == Reply(FindActive(probes[|ds|].urls, urlId), urlId, d, persists)
    ensures forall j {:trigger (results + [res])[j]} :: 0 <= j < |ds| + 1 ==>
      (results + [res])[j] == Reply(FindActive(probes[j].urls, urlId), urlId, (ds + [d])[j], persists)
  {
    forall j | 0 <= j < |ds| + 1
      ensures (results + [res])[j] == Reply(FindActive(probes[j].urls, urlId), urlId, (ds + [d])[j], persists)
    {
      if j < |ds| {
        assert (results + [res])[j] == results[j] && (ds + [d])[j] == ds[j];
      }
    }
  }

  /** One attempt of a probe cycle: what the URL lookup found and how the GET ended. */
  datatype Attempt = Attempt(target: Option<Url>, outcome: Outcome)

  /** The attempts a sequence of runs for URL `urlId` makes: each run's own lookup and
      outcome. */
  function AttemptsOf(probes: seq<Probe>, urlId: int): seq<Attempt> {
    seq(|probes|, j requires 0 <= j < |probes| => Attempt(FindActive(probes[j].urls, urlId), probes[j].outcome))
  }

  /** The decisions of the successive attempts of one probe cycle, starting at attempt
      number `retries`; the cycle goes on only while an attempt decides to retry. */
  function Cycle(attempts: seq<Attempt>, retries: nat): (ds: seq<Decision>)
    ensures |ds| <= |attempts|
    ensures |attempts| > 0 ==> |ds| > 0
    decreases |attempts|
  {
    if |attempts| == 0 then []
    else
      var d := Decide(attempts[0].target, attempts[0].outcome, retries);
      if d.Retry? then [d] + Cycle(attempts[1..], retries + 1) else [d]
  }

  /** Every decision of a cycle but the last is a retry, with delays 60, 120, 180 counted
      from the cycle's first attempt, and no more than `MaxRetries` retries occur. */
  lemma {:induction false} CycleRetriesThenStops(attempts: seq<Attempt>, retries: nat)
    ensures var ds := Cycle(attempts, retries);
      forall k :: 0 <= k < |ds| - 1 ==> ds[k] == Retry(RetryCountdown(retries + k))
    ensures var ds := Cycle(attempts, retries);
      |ds| > 0 ==> retries + |ds| - 1 <= if retries <= MaxRetries then MaxRetries else retries
    decreases |attempts|
  {
    if |attempts| > 0 {
      var d := Decide(attempts[0].target, attempts[0].outcome, retries);
      if d.Retry? {
        CycleRetriesThenStops(attempts[1..], retries + 1);
      }
    }
  }

  /** Given enough attempts, a cycle ends in a terminal decision: the target was not
      found, or a record is written. */
  lemma {:induction false} CycleTerminates(attempts: seq<Attempt>, retries: nat)
    requires retries <= MaxRetries
    requires |attempts| > MaxRetries - retries
    ensures var ds := Cycle(attempts, retries); |ds| > 0 && !ds[|ds| - 1].Retry?
    decreases |attempts|
  {
    var d := Decide(attempts[0].target, attempts[0].outcome, retries);
    if d.Retry? {
      CycleTerminates(attempts[1..], retries + 1);
    }
  }

  /** The decisions of a cycle that write a record. */
  function RecordDecisions(ds: seq<Decision>): seq<Decision> {
    Filter(ds, (d: Decision) => d.Record?)
  }

  /** A cycle never decides to write more than one record; it writes exactly one when its
      last decision is a record. */
  lemma {:induction false} CycleRecordsAtMostOnce(attempts: seq<Attempt>, retries: nat)
    ensures var ds := Cycle(attempts, retries);
      |RecordDecisions(ds)| == if |ds| > 0 && ds[|ds| - 1].Record? then 1 else 0
    decreases |attempts|
  {
    if |attempts| > 0 {
      var d := Decide(attempts[0].target, attempts[0].outcome, retries);
      if d.Retry? {
        CycleRecordsAtMostOnce(attempts[1..], retries + 1);
      }
    }
  }

  /** A cycle whose URL stays active and that gets its full share of attempts decides on
      exactly one record. `HealthCheckStore.RunCycle` states the rows this writes. */
  lemma CycleOfActiveUrlRecordsOnce(attempts: seq<Attempt>, retries: nat)
    requires retries <= MaxRetries
    requires |attempts| > MaxRetries - retries
    requires forall a :: a in attempts ==> a.target.Some?
    ensures |RecordDecisions(Cycle(attempts, retries))| == 1
  {
    var ds := Cycle(attempts, retries);
    CycleTerminates(attempts, retries);
    CycleRecordsAtMostOnce(attempts, retries);
    var n := |ds| - 1;
    assert attempts[n] in attempts;
    CycleRetriesThenStops(attempts, retries);
    assert ds[n] == Decide(attempts[n].target, attempts[n].outcome, retries + n) by {
      CycleDecisionAt(attempts, retries, n);
    }
  }

  /** The `k`-th decision of a cycle is the decision of its `k`-th attempt. */
  lemma {:induction false} CycleDecisionAt(attempts: seq<Attempt>, retries: nat, k: nat)
    requires k < |Cycle(attempts, retries)|
    ensures Cycle(attempts, retries)[k] == Decide(attempts[k].target, attempts[k].outcome, retries + k)
    decreases k
  {
    if k > 0 {
      CycleDecisionAt(attempts[1..], retries + 1, k - 1);
    }
  }

  /** While every attempt so far has retried, one more attempt extends the cycle by its
      own decision. */
  lemma {:induction false} CycleExtend(attempts: seq<Attempt>, retries: nat, k: nat)
    requires k < |attempts|
    requires |Cycle(attempts[..k], retries)| == k
    requires k > 0 ==> Cycle(attempts[..k], retries)[k - 1].Retry?
    ensures Cycle(attempts[..k + 1], retries)
      == Cycle(attempts[..k], retries) + [Decide(attempts[k].target, attempts[k].outcome, retries + k)]
    decreases k
  {
    var a := attempts;
    var d0 := Decide(a[0].target, a[0].outcome, retries);
    assert a[..k + 1][0] == a[0] && a[..k + 1][1..] == a[1..][..k];
    if k == 0 {
      assert a[1..][..0] == [];
    } else {
      assert a[..k][0] == a[0] && a[..k][1..] == a[1..][..k - 1];
      assert Cycle(a[..k], retries)[0] == d0;
      assert d0.Retry?;
      assert Cycle(a[..k], retries) == [d0] + Cycle(a[1..][..k - 1], retries + 1);
      if k > 1 {
        assert Cycle(a[1..][..k - 1], retries + 1)[k - 2] == Cycle(a[..k], retries)[k - 1];
      }
      CycleExtend(a[1..], retries + 1, k - 1);
      assert a[1..][k - 1] == a[k];
    }
  }

  /** Once an attempt does not retry, later attempts change nothing: the cycle of all the
      attempts is the cycle up to that one. */
  lemma {:induction false} CycleComplete(attempts: seq<Attempt>, retries: nat, k: nat)
    requires 0 < k <= |attempts|
    requires |Cycle(attempts[..k], retries)| == k
    requires !Cycle(attempts[..k], retries)[k - 1].Retry?
    ensures Cycle(attempts, retries) == Cycle(attempts[..k], retries)
    decreases k
  {
    var a := attempts;
    var d0 := Decide(a[0].target, a[0].outcome, retries);
    assert a[..k][0] == a[0] && a[..k][1..] == a[1..][..k - 1];
    if d0.Retry? {
      assert Cycle(a[..k], retries) == [d0] + Cycle(a[1..][..k - 1], retries + 1);
      assert k > 1;
      assert Cycle(a[1..][..k - 1], retries + 1)[k - 2] == Cycle(a[..k], retries)[k - 1];
      CycleComplete(a[1..], retries + 1, k - 1);
    }
  }

  /** A chain of runs that ends because the attempts ran out, or because a run did not
      retry, has made exactly the decisions of the whole cycle. */
  lemma CycleStopsWhereRunsStop(attempts: seq<Attempt>, retries: nat, k: nat)
    requires k <= |attempts|
    requires |Cycle(attempts[..k], retries)| == k
    requires k < |attempts| ==> k > 0 && !Cycle(attempts[..k], retries)[k - 1].Retry?
    ensures Cycle(attempts, retries) == Cycle(attempts[..k], retries)
  {
    if k < |attempts| {
      CycleComplete(attempts, retries, k);
    } else {
      assert attempts[..k] == attempts;
    }
  }

  /** Runs that each find the URL active make attempts that each have a target. */
  lemma ActiveProbesFindTheirUrl(probes: seq<Probe>, urlId: int)
    requires forall q :: q in probes ==> FindActive(q.urls, urlId).Some?
    ensures forall a :: a in AttemptsOf(probes, urlId) ==> a.target.Some?
  {
    var attempts := AttemptsOf(probes, urlId);
    forall j | 0 <= j < |attempts|
      ensures attempts[j].target.Some?
    {
      assert probes[j] in probes;
    }
  }

  /** The retention cut-off for a sweep at time `now`. */
  function Cutoff(now: int): int {
    now - RetentionSeconds
  }

  /** The records a sweep deletes: `checked_at__lt=cutoff`. */
  function Expired(records: seq<HealthCheck>, cutoff: int): (r: seq<HealthCheck>)
    ensures forall h :: h in r <==> h in records && h.checkedAt < cutoff
  {
    Filter(records, (h: HealthCheck) => h.checkedAt < cutoff)
  }

  /** The records a sweep keeps, in their order. */
  function Retained(records: seq<HealthCheck>, cutoff: int): (r: seq<HealthCheck>)
    ensures forall h :: h in r <==> h in records && h.checkedAt >= cutoff
  {
    Filter(records, (h: HealthCheck) => h.checkedAt >= cutoff)
  }

  /** A sweep splits the store: every record is either deleted or kept, never both. */
  lemma SweepPartitionsRecords(records: seq<HealthCheck>, cutoff: int)
    ensures multiset(Expired(records, cutoff)) + multiset(Retained(records, cutoff)) == multiset(records)
    ensures |Expired(records, cutoff)| == |records| - |Retained(records, cutoff)|
  {
    FilterPartition(records, (h: HealthCheck) => h.checkedAt < cutoff, (h: HealthCheck) => h.checkedAt >= cutoff);
  }

  function DeletedMessage(count: nat): string {
    "Deleted " + NatToString(count) + " old health check records"
  }

  function QueuedMessage(count: nat): string {
    "Queued " + NatToString(count) + " URL checks"
  }

  /** The health-check table: the records in insertion order and the next primary key. */
  class HealthCheckStore {
    var records: seq<HealthCheck>
    var nextId: int

    /** Every stored record has a key below the next one to be handed out. */
    ghost predicate Valid()
      reads this
    {
      nextId >= 1 && forall h :: h in records ==> h.id < nextId
    }

    constructor ()
      ensures Valid()
      ensures records == [] && nextId == 1
    {
      records := [];
      nextId := 1;
    }

    /** `HealthCheck.objects.create(...)`: appends a row under a fresh key, stamped with
        `now`. */
    method Insert(urlId: int, statusCode: Option<int>, responseTime: Option<real>, now: int,
                  isHealthy: bool, errorMessage: Option<string>)
      requires Valid()
      modifies this
      ensures Valid()
      ensures forall h :: h in old(records) ==> h.id != old(nextId)
      ensures records == old(records) + [HealthCheck(old(nextId), urlId, statusCode, responseTime, now, isHealthy, errorMessage)]
      ensures nextId == old(nextId) + 1
    {
      records := records + [HealthCheck(nextId, urlId, statusCode, responseTime, now, isHealthy, errorMessage)];
      nextId := nextId + 1;
    }

    /** `check_url_health` for attempt number `retries`. The GET ended with `outcome` after
        `elapsed` seconds; `persists` tells whether the insert of a record succeeds. */
    method CheckUrlHealth(urls: seq<Url>, urlId: int, outcome: Outcome, elapsed: real,
                          retries: nat, now: int, persists: bool) returns (res: TaskResult)
      requires Valid()
      modifies this
      ensures Valid()
      ensures var target := FindActive(urls, urlId);
        var d := Decide(target, outcome, retries);
        res == Reply(target, urlId, d, persists)
      ensures var d := Decide(FindActive(urls, urlId), outcome, retries);
        if d.Record? && persists then
          && records == old(records) + [HealthCheck(old(nextId), urlId, d.statusCode, Some(elapsed), now, d.isHealthy, d.errorMessage)]
          && nextId == old(nextId) + 1
        else
          records == old(records) && nextId == old(nextId)
    {
      var target := FindActive(urls, urlId);
      ghost var d := Decide(target, outcome, retries);
      if target.None? {
        return Returned(NotFoundMessage(urlId));
      }
      var urlObj := target.value;
      var statusCode: Option<int> := None;
      var errorMessage: Option<string> := None;
      var isHealthy: bool;
      match outcome {
        case Response(code) =>
          statusCode := Some(code);
          isHealthy := 200 <= code < 400;
          assert d == Record(statusCode, isHealthy, errorMessage, true);
        case Timeout =>
          errorMessage := Some(TimeoutText);
          isHealthy := false;
          assert d == Record(statusCode, isHealthy, errorMessage, true);
        case SSLError(text) =>
          errorMessage := Some(SslLead + Take(text, ErrorTextLimit));
          isHealthy := false;
          assert d == Record(statusCode, isHealthy, errorMessage, true);
        case ConnectionError =>
          errorMessage := Some(ConnectionText);
          isHealthy := false;
          assert d == Record(statusCode, isHealthy, errorMessage, true);
        case OtherRequestError(text) =>
          errorMessage := Some(RequestLead + Take(text, ErrorTextLimit));
          isHealthy := false;
          if retries >= MaxRetries {
            // the insert on this path is not guarded: its failure escapes the task
            assert d == Record(None, false, errorMessage, false);
            if !persists {
              return Raised;
            }
            Insert(urlObj.id, None, Some(elapsed), now, isHealthy, errorMessage);
            res := Returned("Checked " + urlObj.name + ": Unhealthy (" + errorMessage.value + ")");
            ExhaustedMessageIsCheckedMessage(urlObj.name, errorMessage.value);
            return;
          } else {
            assert d == Retry(RetryCountdown(retries));
            return RetryScheduled(RetryCountdown(retries));
          }
      }
      if persists {
        Insert(urlObj.id, statusCode, Some(elapsed), now, isHealthy, errorMessage);
      }
      res := Returned(CheckedMessage(urlObj.name, isHealthy, errorMessage));
    }

    /** Run `k` of a cycle: `check_url_health` on attempt `retries + k` with `probes[k]`,
        after runs that each scheduled a retry. Its decision extends the cycle's. */
    method RunNext(urlId: int, probes: seq<Probe>, retries: nat, persists: bool, k: nat,
                   ghost ds: seq<Decision>) returns (res: TaskResult, ghost d: Decision)
      requires Valid()
      requires k < |probes| && |ds| == k
      requires ds == Cycle(AttemptsOf(probes, urlId)[..k], retries)
      requires k > 0 ==> ds[k - 1].Retry?
      modifies this
      ensures Valid()
      ensures Cycle(AttemptsOf(probes, urlId)[..k + 1], retries) == ds + [d]
      ensures res == Reply(FindActive(probes[k].urls, urlId), urlId, d, persists)
      ensures res.RetryScheduled? <==> d.Retry?
      ensures if persists && d.Record? then
          && records == old(records) + [RecordRow(old(nextId), urlId, d, probes[k])]
          && nextId == old(nextId) + 1
        else records == old(records) && nextId == old(nextId)
    {
      ghost var attempts := AttemptsOf(probes, urlId);
      var q := probes[k];
      d := Decide(FindActive(q.urls, urlId), q.outcome, retries + k);
      assert attempts[k].target == FindActive(q.urls, urlId) && attempts[k].outcome == q.outcome;
      res := CheckUrlHealth(q.urls, urlId, q.outcome, q.elapsed, retries + k, q.now, persists);
      ReplyRetriesExactlyOnRetry(FindActive(q.urls, urlId), urlId, d, persists);
      CycleExtend(attempts, retries, k);
    }

    /** The runs of one retry chain: run `k` is attempt number `retries + k` and sees
        `probes[k]`; a run follows only a run that scheduled a retry. The chain stops
        after `k` runs, when the probes run out or a run does not retry. */
    method RunRetryChain(urlId: int, probes: seq<Probe>, retries: nat, persists: bool)
      returns (results: seq<TaskResult>, k: nat, ghost ds: seq<Decision>)
      requires Valid()
      modifies this
      ensures Valid()
      ensures k <= |probes| && |results| == k && |ds| == k
      ensures ds == Cycle(AttemptsOf(probes, urlId)[..k], retries)
      ensures k < |probes| ==> k > 0 && !ds[k - 1].Retry?
      ensures forall j {:trigger results[j]} :: 0 <= j < k ==>
        results[j] == Reply(FindActive(probes[j].urls, urlId), urlId, ds[j], persists)
      ensures if persists && k > 0 && ds[k - 1].Record? then
          && records == old(records) + [RecordRow(old(nextId), urlId, ds[k - 1], probes[k - 1])]
          && nextId == old(nextId) + 1
        else records == old(records) && nextId == old(nextId)
    {
      ghost var attempts := AttemptsOf(probes, urlId);
      ghost var rows, key := records, nextId;
      results := [];
      ds := [];
      k := 0;
      var going := true;
      while k < |probes| && going
        invariant 0 <= k <= |probes| && |results| == k
        invariant Valid()
        invariant ds == Cycle(attempts[..k], retries) && |ds| == k
        invariant forall j {:trigger results[j]} :: 0 <= j < k ==>
          results[j] == Reply(FindActive(probes[j].urls, urlId), urlId, ds[j], persists)
        invariant going <==> k == 0 || ds[k - 1].Retry?
        invariant if persists && k > 0 && ds[k - 1].Record? then
            && records == rows + [RecordRow(key, urlId, ds[k - 1], probes[k - 1])]
            && nextId == key + 1
          else records == rows && nextId == key
      {
        assert records == rows && nextId == key;
        var res;
        ghost var d;
        res, d := RunNext(urlId, probes, retries, persists, k, ds);
        RepliesExtend(probes, urlId, ds, results, d, res, persists);
        results := results + [res];
        ds := ds + [d];
        going := res.RetryScheduled?;
        k := k + 1;
      }
    }

    /** A whole cycle of `check_url_health` for one URL, as Celery's retries chain its
        runs: one reply per decision of the cycle, and at most the one row its last
        decision describes. */
    method RunCycle(urlId: int, probes: seq<Probe>, retries: nat, persists: bool) returns (results: seq<TaskResult>)
      requires Valid()
      modifies this
      ensures Valid()
      ensures var ds := Cycle(AttemptsOf(probes, urlId), retries);
        && |results| == |ds|
        && forall j {:trigger results[j]} :: 0 <= j < |ds| ==>
          results[j] == Reply(FindActive(probes[j].urls, urlId), urlId, ds[j], persists)
      ensures var ds := Cycle(AttemptsOf(probes, urlId), retries); var n := |ds|;
        if persists && n > 0 && ds[n - 1].Record? then
          && records == old(records) + [RecordRow(old(nextId), urlId, ds[n - 1], probes[n - 1])]
          && nextId == old(nextId) + 1
        else records == old(records) && nextId == old(nextId)
      ensures persists ==> |records| == |old(records)| + |RecordDecisions(Cycle(AttemptsOf(probes, urlId), retries))|
      ensures !persists ==> records == old(records)
      ensures persists && retries <= MaxRetries && |probes| > MaxRetries - retries
        && (forall q :: q in probes ==> FindActive(q.urls, urlId).Some?)
        ==> var ds := Cycle(AttemptsOf(probes, urlId), retries); var n := |ds|;
          && n > 0 && ds[n - 1].Record?
          && records == old(records) + [RecordRow(old(nextId), urlId, ds[n - 1], probes[n - 1])]
    {
      ghost var attempts := AttemptsOf(probes, urlId);
      var k;
      ghost var ds;
      results, k, ds := RunRetryChain(urlId, probes, retries, persists);
      CycleStopsWhereRunsStop(attempts, retries, k);
      assert Cycle(attempts, retries) == ds;
      CycleRecordsAtMostOnce(attempts, retries);
      if persists && retries <= MaxRetries && |probes| > MaxRetries - retries
        && (forall q :: q in probes ==> FindActive(q.urls, urlId).Some?)
      {
        ActiveProbesFindTheirUrl(probes, urlId);
        CycleOfActiveUrlRecordsOnce(attempts, retries);
      }
    }

    /** `cleanup_old_records` at time `now`; `deleteSucceeds` tells whether the bulk
        delete succeeds. On failure nothing is deleted and the exception propagates. */
    method CleanupOldRecords(now: int, deleteSucceeds: bool) returns (res: TaskResult)
      requires Valid()
      modifies this
      ensures Valid() && nextId == old(nextId)
      ensures !deleteSucceeds ==> records == old(records) && res == Raised
      ensures deleteSucceeds ==> records == Retained(old(records), Cutoff(now))
      ensures deleteSucceeds ==> res == Returned(DeletedMessage(|Expired(old(records), Cutoff(now))|))
      ensures deleteSucceeds ==> forall h :: h in old(records) ==> (h in records <==> h.checkedAt >= now - RetentionSeconds)
      ensures deleteSucceeds ==> forall h :: h in records ==> h in old(records)
    {
      var cutoff := now - RetentionSeconds;
      if !deleteSucceeds {
        return Raised;
      }
      var deletedCount := |Expired(records, cutoff)|;
      SweepPartitionsRecords(records, cutoff);
      records := Retained(records, cutoff);
      res := Returned(DeletedMessage(deletedCount));
    }
  }

  /** The active rows of the URL table, in store order, each row once. */
  function ActiveRows(urls: seq<Url>): seq<Url> {
    Filter(urls, (u: Url) => u.isActive)
  }

  /** `URL.objects.filter(is_active=True)`, in the table's newest-first order. */
  function ActiveTargets(urls: seq<Url>): (r: seq<Url>)
    ensures forall u :: u in r <==> u in urls && u.isActive
    ensures multiset(r) == multiset(ActiveRows(urls))
    ensures NewestFirst(r, CreatedAt)
  {
    var active := ActiveRows(urls);
    var r := SortNewestFirst(active, CreatedAt);
    assert forall u :: u in r <==> u in active by {
      forall u ensures u in r <==> u in active {
        assert u in r <==> u in multiset(r);
      }
    }
    r
  }

  /** The ids of the targets whose enqueue succeeded, in iteration order. */
  function Accepted(targets: seq<Url>, accepts: seq<bool>): (ids: seq<int>)
    requires |accepts| == |targets|
    ensures |ids| <= |targets|
    decreases |targets|
  {
    if |targets| == 0 then []
    else
      var n := |targets| - 1;
      Accepted(targets[..n], accepts[..n]) + (if accepts[n] then [targets[n].id] else [])
  }

  /** Only targets are queued. */
  lemma {:induction false} AcceptedAreTargets(targets: seq<Url>, accepts: seq<bool>)
    requires |accepts| == |targets|
    ensures forall id :: id in Accepted(targets, accepts) ==> exists u :: u in targets && u.id == id
    decreases |targets|
  {
    if |targets| > 0 {
      var n := |targets| - 1;
      AcceptedAreTargets(targets[..n], accepts[..n]);
      forall id | id in Accepted(targets, accepts)
        ensures exists u :: u in targets && u.id == id
      {
        if id in Accepted(targets[..n], accepts[..n]) {
          var u :| u in targets[..n] && u.id == id;
          assert u in targets;
        } else {
          assert targets[n] in targets;
        }
      }
    }
  }

  /** One more step of the dispatch loop extends the accepted ids by at most the new one. */
  lemma AcceptedStep(targets: seq<Url>, accepts: seq<bool>, i: nat)
    requires |accepts| == |targets| && i < |targets|
    ensures Accepted(targets[..i + 1], accepts[..i + 1])
      == Accepted(targets[..i], accepts[..i]) + (if accepts[i] then [targets[i].id] else [])
  {
    assert targets[..i + 1][..i] == targets[..i];
    assert accepts[..i + 1][..i] == accepts[..i];
  }

  /** The ids of the targets, in order. */
  function Ids(targets: seq<Url>): seq<int> {
    seq(|targets|, j requires 0 <= j < |targets| => targets[j].id)
  }

  /** When every enqueue succeeds, every target is queued, in order. */
  lemma {:induction false} AllAcceptedQueuesEveryTarget(targets: seq<Url>, accepts: seq<bool>)
    requires |accepts| == |targets|
    requires forall j :: 0 <= j < |accepts| ==> accepts[j]
    ensures Accepted(targets, accepts) == Ids(targets)
    decreases |targets|
  {
    if |targets| > 0 {
      var n := |targets| - 1;
      AllAcceptedQueuesEveryTarget(targets[..n], accepts[..n]);
    }
  }

  /** The `k`-th id gets start delay `step * k`. */
  function Stagger(ids: seq<int>, step: nat): seq<Dispatch> {
    seq(|ids|, j requires 0 <= j < |ids| => Dispatch(ids[j], step * j))
  }

  /** Queuing one more id appends its dispatch at the next offset. */
  lemma StaggerSnoc(ids: seq<int>, id: int, step: nat)
    ensures Stagger(ids + [id], step) == Stagger(ids, step) + [Dispatch(id, step * |ids|)]
  {
  }

  /** Every dispatch of a batch names an active URL. */
  lemma OnlyActiveUrlsQueued(urls: seq<Url>, accepts: seq<bool>, step: nat)
    requires |accepts| == |ActiveTargets(urls)|
    ensures forall d :: d in Stagger(Accepted(ActiveTargets(urls), accepts), step) ==>
      exists u :: u in urls && u.isActive && u.id == d.urlId
  {
    var ids := Accepted(ActiveTargets(urls), accepts);
    var schedule := Stagger(ids, step);
    AcceptedAreTargets(ActiveTargets(urls), accepts);
    forall d | d in schedule
      ensures exists u :: u in urls && u.isActive && u.id == d.urlId
    {
      var j :| 0 <= j < |schedule| && schedule[j] == d;
      assert ids[j] in ids;
    }
  }

  /** `check_all_urls`: walks the active URLs newest first and enqueues a check of each,
      `accepts[i]` telling whether the `i`-th enqueue succeeds. A failed enqueue is
      skipped; the delay is twice the number of checks queued so far. */
  method CheckAllUrls(urls: seq<Url>, accepts: seq<bool>) returns (schedule: seq<Dispatch>, queued: nat, res: TaskResult)
    requires |accepts| == |ActiveTargets(urls)|
    ensures schedule == Stagger(Accepted(ActiveTargets(urls), accepts), 2)
    ensures queued == |schedule|
    ensures forall j :: 0 <= j < |schedule| ==> schedule[j].countdown == 2 * j
    ensures res == Returned(QueuedMessage(queued))
  {
    var targets := ActiveTargets(urls);
    schedule := [];
    queued := 0;
    for i := 0 to |targets|
      invariant queued == |schedule|
      invariant schedule == Stagger(Accepted(targets[..i], accepts[..i]), 2)
    {
      ghost var before := Accepted(targets[..i], accepts[..i]);
      AcceptedStep(targets, accepts, i);
      if accepts[i] {
        StaggerSnoc(before, targets[i].id, 2);
        assert |before| == queued;
        schedule := schedule + [Dispatch(targets[i].id, 2 * queued)];
        queued := queued + 1;
        assert schedule == Stagger(before + [targets[i].id], 2);
      } else {
        assert Accepted(targets[..i + 1], accepts[..i + 1]) == before;
      }
    }
    assert targets[..|targets|] == targets;
    assert accepts[..|accepts|] == accepts;
    res := Returned(QueuedMessage(queued));
  }

  /** The position of the first refused enqueue, or the length when none is refused. */
  function FirstRefusal(accepts: seq<bool>): (k: nat)
    ensures k <= |accepts|
    ensures forall j :: 0 <= j < k ==> accepts[j]
    ensures k < |accepts| ==> !accepts[k]
    decreases |accepts|
  {
    if |accepts| == 0 || !accepts[0] then 0 else 1 + FirstRefusal(accepts[1..])
  }

  /** `bulk_check_urls`: enqueues a check of each given id, the `i`-th after `i` seconds.
      A refused enqueue aborts the task with an exception; what was queued before stays. */
  method BulkCheckUrls(urlIds: seq<int>, accepts: seq<bool>) returns (schedule: seq<Dispatch>, res: TaskResult)
    requires |accepts| == |urlIds|
    ensures |urlIds| == 0 ==> schedule == [] && res == Returned("No URLs to check")
    ensures |urlIds| > 0 ==> schedule == Stagger(urlIds[..FirstRefusal(accepts)], 1)
    ensures |urlIds| > 0 ==>
      res == if FirstRefusal(accepts) == |urlIds| then Returned(QueuedMessage(|urlIds|)) else Raised
  {
    if |urlIds| == 0 {
      return [], Returned("No URLs to check");
    }
    schedule := [];
    for i := 0 to |urlIds|
      invariant forall j :: 0 <= j < i ==> accepts[j]
      invariant schedule == Stagger(urlIds[..i], 1)
    {
      if !accepts[i] {
        return schedule, Raised;
      }
      schedule := schedule + [Dispatch(urlIds[i], i * 1)];
    }
    assert urlIds[..|urlIds|] == urlIds;
    res := Returned(QueuedMessage(|urlIds|));
  }
}
