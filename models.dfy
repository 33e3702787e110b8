/** The two stored entities, a monitored URL and one health-check record, and the
    read-only queries on them. */
module Models {
  import opened Wrappers
  import opened Text
  import opened Seqs

  /** A monitored target. `createdAt` is set once, when the row is inserted. */
  datatype Url = Url(id: int, name: string, url: string, createdAt: int, isActive: bool)

  /** One probe outcome as stored. `urlId` is the foreign key to `Url.id`;
      `responseTime` is in seconds; `checkedAt` is set when the row is inserted. */
  datatype HealthCheck = HealthCheck(
    id: int,
    urlId: int,
    statusCode: Option<int>,
    responseTime: Option<real>,
    checkedAt: int,
    isHealthy: bool,
    errorMessage: Option<string>)

  function CreatedAt(u: Url): int { u.createdAt }
  function CheckedAt(h: HealthCheck): int { h.checkedAt }

  /** A URL row created with only its required fields: it starts out active. */
  function NewUrl(id: int, name: string, url: string, createdAt: int): (u: Url)
    ensures u.isActive
    ensures u.id == id && u.name == name && u.url == url && u.createdAt == createdAt
  {
    Url(id, name, url, createdAt, true)
  }

  /** A health-check row created with only its required fields: unhealthy, and every
      nullable column empty. */
  function NewHealthCheck(id: int, urlId: int, checkedAt: int): (h: HealthCheck)
    ensures !h.isHealthy
    ensures h.statusCode == None && h.responseTime == None && h.errorMessage == None
    ensures h.id == id && h.urlId == urlId && h.checkedAt == checkedAt
  {
    HealthCheck(id, urlId, None, None, checkedAt, false, None)
  }

  /** The URL table in its default order, newest created first. */
  function UrlsNewestFirst(urls: seq<Url>): (r: seq<Url>)
    ensures NewestFirst(r, CreatedAt)
    ensures multiset(r) == multiset(urls)
  {
    SortNewestFirst(urls, CreatedAt)
  }

  /** `url.healthcheck_set`: the records that belong to one URL, in store order. */
  function HealthChecksOf(records: seq<HealthCheck>, urlId: int): (r: seq<HealthCheck>)
    ensures forall h :: h in r <==> h in records && h.urlId == urlId
  {
    Filter(records, (h: HealthCheck) => h.urlId == urlId)
  }

  /** `get_latest_health_check`: the first of the URL's records ordered by descending
      `checkedAt`, or nothing when the URL has never been checked. */
  function LatestHealthCheck(records: seq<HealthCheck>, urlId: int): (r: Option<HealthCheck>)
    ensures r.None? <==> forall h :: h in records ==> h.urlId != urlId
    ensures r.Some? ==> r.value in records && r.value.urlId == urlId
    ensures r.Some? ==> forall h :: h in records && h.urlId == urlId ==> h.checkedAt <= r.value.checkedAt
  {
    var mine := HealthChecksOf(records, urlId);
    var ordered := SortNewestFirst(mine, CheckedAt);
    if |ordered| == 0 then
      assert mine == [];
      None
    else
      assert ordered[0] in multiset(mine);
      assert forall h :: h in mine ==> h.checkedAt <= ordered[0].checkedAt by {
        forall h | h in mine ensures h.checkedAt <= ordered[0].checkedAt {
          SortedHeadIsNewest(mine, CheckedAt, h);
        }
      }
      Some(ordered[0])
  }

  /** `get_status_display`. */
  function StatusDisplay(records: seq<HealthCheck>, urlId: int): (s: string)
    ensures s == "Never checked" <==> forall h :: h in records ==> h.urlId != urlId
    ensures s == "Healthy" || s == "Unhealthy" ==>
      exists h :: h in records && h.urlId == urlId && (h.isHealthy <==> s == "Healthy") &&
        forall g :: g in records && g.urlId == urlId ==> g.checkedAt <= h.checkedAt
    ensures s == "Never checked" || s == "Healthy" || s == "Unhealthy"
  {
    match LatestHealthCheck(records, urlId)
    case None => "Never checked"
    case Some(latest) => if latest.isHealthy then "Healthy" else "Unhealthy"
  }

  /** When one record is strictly newer than every other record of its URL, the status
      is that record's verdict. */
  lemma {:induction false} StatusFollowsNewestRecord(records: seq<HealthCheck>, h: HealthCheck)
    requires h in records
    requires forall g :: g in records && g.urlId == h.urlId && g != h ==> g.checkedAt < h.checkedAt
    ensures StatusDisplay(records, h.urlId) == if h.isHealthy then "Healthy" else "Unhealthy"
  {
    var latest := LatestHealthCheck(records, h.urlId);
    assert latest.Some?;
    assert latest.value == h;
  }

  /** `str(url)`: the name and the address joined by " - ". */
  function UrlLabel(u: Url): (s: string)
    ensures |s| == |u.name| + 3 + |u.url|
    ensures s[..|u.name|] == u.name && s[|u.name| + 3..] == u.url
    ensures OccursAt(s, " - ", |u.name|)
  {
    u.name + " - " + u.url
  }

  /** Python's rendering of a nullable status code. */
  function StatusCodeText(code: Option<int>): (s: string)
    ensures code == None ==> s == "None"
    ensures code.Some? ==> IsCanonicalIntText(s) && ParseInt(s) == code.value
    ensures code.Some? ==> (s[0] == '-' <==> code.value < 0)
  {
    match code
    case None => "None"
    case Some(c) => ParseIntToString(c); IntToString(c)
  }

  /** `str(health_check)`: the name of the URL row the foreign key names, the status code
      and the check time joined by " - "; the rendering of the timestamp is a parameter. */
  function HealthCheckLabel(h: HealthCheck, u: Url, renderTime: int -> string): (s: string)
    requires u.id == h.urlId
    ensures |s| == |u.name| + 6 + |StatusCodeText(h.statusCode)| + |renderTime(h.checkedAt)|
    ensures s[..|u.name|] == u.name
    ensures OccursAt(s, " - " + StatusCodeText(h.statusCode) + " - ", |u.name|)
    ensures s[|s| - |renderTime(h.checkedAt)|..] == renderTime(h.checkedAt)
  {
    var s := u.name + " - " + StatusCodeText(h.statusCode) + " - " + renderTime(h.checkedAt);
    assert s[|u.name|..|u.name| + |" - " + StatusCodeText(h.statusCode) + " - "|]
      == " - " + StatusCodeText(h.statusCode) + " - ";
    s
  }
}
