/**
 * The shared HTTP layer of the crawlers (crawlers/base_crawler.py): the
 * settings read at construction, the bounded retry loop of `fetch` with its
 * linear backoff, and `_fetch_url`. The network is a function from the
 * verb and the attempt number to what that attempt produced.
 */
module Fetcher {
  import opened Wrappers
  import opened Strings
  import opened PyJson

  /** A response body: its text, and what `response.json()` gives (`None` when the text is not JSON). */
  datatype Body = Body(text: string, json: Option<Json>)

  /**
   * One request: a response with its status code, a `RequestException`
   * raised before any response (connection error, timeout), or an
   * exception of any other kind.
   */
  datatype Attempt = Reply(status: int, body: Body) | RequestFailure | OtherFailure

  /** How `fetch` ends: a response, `None`, or an exception that escapes it. */
  datatype Fetched = Got(body: Body) | NoResponse | Crashed

  datatype Verb = HttpGet | HttpPost

  /** `timeout`, `retry_times` and `retry_delay` as the crawler reads them from its configuration. */
  datatype Settings = Settings(timeout: int, retryTimes: int, retryDelay: int)

  function Setting(config: map<string, int>, key: string, default: int): (v: int)
    ensures key !in config ==> v == default
    ensures key in config ==> v == config[key]
  {
    if key in config then config[key] else default
  }

  /** The settings of a crawler built from `config`: 30 seconds, 3 attempts, 2 seconds unless configured. */
  function SettingsFrom(config: map<string, int>): (s: Settings)
    ensures config == map[] ==> s == Settings(30, 3, 2)
    ensures "retry_times" in config ==> s.retryTimes == config["retry_times"]
    ensures "retry_delay" in config ==> s.retryDelay == config["retry_delay"]
    ensures "timeout" in config ==> s.timeout == config["timeout"]
  {
    Settings(Setting(config, "timeout", 30), Setting(config, "retry_times", 3), Setting(config, "retry_delay", 2))
  }

  /** A method name that upper-cases to `GET` sends a GET; any other sends a POST. */
  function VerbOf(httpMethod: string): (v: Verb)
    ensures v == HttpGet <==> Upper(httpMethod) == "GET"
  {
    if Upper(httpMethod) == "GET" then HttpGet else HttpPost
  }

  /** `raise_for_status` raises for the 4xx and 5xx codes. */
  predicate IsHttpError(status: int)
  {
    400 <= status < 600
  }

  /** The outcomes `fetch` catches and retries: `RequestException` and its subclass `HTTPError`. */
  predicate Retryable(a: Attempt)
  {
    a.RequestFailure? || (a.Reply? && IsHttpError(a.status))
  }

  /**
   * What `fetch` does from attempt `a` on, given each attempt's outcome:
   * how it ends, and how many attempts it has made in all.
   */
  function FetchFrom(net: nat -> Attempt, retryTimes: int, a: nat): (Fetched, nat)
    decreases retryTimes - a
  {
    if a >= retryTimes then (NoResponse, a)
    else if Retryable(net(a)) then FetchFrom(net, retryTimes, a + 1)
    else if net(a).Reply? then (Got(net(a).body), a + 1)
    else (Crashed, a + 1)
  }

  /** The sleeps between `n + 1` attempts: `retry_delay * (k + 1)` after the `k`-th failure. */
  function Backoff(delay: int, n: nat): (s: seq<int>)
    ensures |s| == n && forall k :: 0 <= k < n ==> s[k] == delay * (k + 1)
  {
    seq(n, k requires 0 <= k < n => delay * (k + 1))
  }

  /**
   * `fetch` returns the first response that passes `raise_for_status`,
   * after nothing but retryable failures; an exception of another kind
   * escapes at once; after `retry_times` retryable failures, or when
   * `retry_times` is not positive, it returns `None`. It never makes more
   * than `retry_times` attempts.
   */
  lemma {:induction false} FetchOutcome(net: nat -> Attempt, retryTimes: int, a: nat)
    ensures var (r, n) := FetchFrom(net, retryTimes, a);
      a <= n && (n <= retryTimes || n == a)
      && (r.Got? ==> a < n && net(n - 1).Reply? && !IsHttpError(net(n - 1).status) && r.body == net(n - 1).body)
      && (r.Crashed? ==> a < n && net(n - 1).OtherFailure?)
      && (r.NoResponse? ==> n == (if retryTimes > a then retryTimes else a))
      && (forall j :: a <= j < n && (j < n - 1 || r.NoResponse?) ==> Retryable(net(j)))
    decreases retryTimes - a
  {
    if a < retryTimes && Retryable(net(a)) {
      FetchOutcome(net, retryTimes, a + 1);
    }
  }

  /** The outcomes of the attempts made with one verb. */
  function Attempts(net: (Verb, nat) -> Attempt, verb: Verb): nat -> Attempt
  {
    (a: nat) => net(verb, a)
  }

  /**
   * `fetch(url, method)`. `net(verb, k)` is what the `k`-th attempt with
   * that verb produces; `sleeps` are the delays requested between attempts.
   */
  method Fetch(s: Settings, httpMethod: string, net: (Verb, nat) -> Attempt)
    returns (r: Fetched, verb: Verb, attempts: nat, sleeps: seq<int>)
    ensures verb == VerbOf(httpMethod)
    ensures (r, attempts) == FetchFrom(Attempts(net, verb), s.retryTimes, 0)
    ensures sleeps == Backoff(s.retryDelay, if attempts == 0 then 0 else attempts - 1)
  {
    verb := VerbOf(httpMethod);
    var attempt: nat := 0;
    sleeps := [];
    while attempt < s.retryTimes
      invariant attempt == 0 || attempt < s.retryTimes
      invariant FetchFrom(Attempts(net, verb), s.retryTimes, attempt) == FetchFrom(Attempts(net, verb), s.retryTimes, 0)
      invariant sleeps == Backoff(s.retryDelay, attempt)
      decreases s.retryTimes - attempt
    {
      var outcome := net(verb, attempt);
      if !Retryable(outcome) {
        r := if outcome.Reply? then Got(outcome.body) else Crashed;
        attempts := attempt + 1;
        return;
      }
      if attempt < s.retryTimes - 1 {
        sleeps := sleeps + [s.retryDelay * (attempt + 1)];
      } else {
        r := NoResponse;
        attempts := attempt + 1;
        return;
      }
      attempt := attempt + 1;
    }
    r := NoResponse;
    attempts := attempt;
  }

  /** `_fetch_url`: the text of the response, `None` without one; other exceptions escape. */
  method FetchUrl(s: Settings, net: (Verb, nat) -> Attempt) returns (text: Result<Option<string>>)
    ensures var (r, _) := FetchFrom(Attempts(net, HttpGet), s.retryTimes, 0);
      text == match r
        case Got(body) => Ok(Some(body.text))
        case NoResponse => Ok(None)
        case Crashed => Raised(OtherError)
  {
    var r, verb, attempts, sleeps := Fetch(s, "GET", net);
    match r
    case Got(body) => text := Ok(Some(body.text));
    case NoResponse => text := Ok(None);
    case Crashed => text := Raised(OtherError);
  }

  /** The attempts at one request `q` of a crawler that sends several. */
  function Route<Q>(net: (Q, Verb, nat) -> Attempt, q: Q): (Verb, nat) -> Attempt
  {
    (v: Verb, a: nat) => net(q, v, a)
  }

  /** How `fetch` of request `q` with GET ends. */
  function Outcome<Q>(s: Settings, net: (Q, Verb, nat) -> Attempt, q: Q): Fetched
  {
    FetchFrom(Attempts(Route(net, q), HttpGet), s.retryTimes, 0).0
  }

  /** `fetch(url)` for the request `q`. */
  method FetchAt<Q>(s: Settings, net: (Q, Verb, nat) -> Attempt, q: Q) returns (r: Fetched)
    ensures r == Outcome(s, net, q)
  {
    var verb, attempts, sleeps;
    r, verb, attempts, sleeps := Fetch(s, "GET", Route(net, q));
  }
}
