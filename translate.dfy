/** NewRequest (main.go:123-163): turning the inbound request's control
    headers into the outbound call descriptor and the session settings. The
    session setters SetTimeout and SetProxy are abstracted into the values
    they receive. */
module Translate {
  import opened Text
  import opened StrConv
  import opened Headers

  const DefaultTimeoutSeconds: int := 30
  const NanosPerSecond: int := 1_000_000_000
  const TwoTo64: int := 0x1_0000_0000_0000_0000

  /** The timeout in seconds: the Atoi value when it parses and is positive,
      30 for anything else. */
  function TimeoutSeconds(raw: string): (t: int)
    ensures t > 0
    ensures Atoi(raw).Some? && Atoi(raw).value > 0 ==> t == Atoi(raw).value
    ensures Atoi(raw).None? || Atoi(raw).value <= 0 ==> t == DefaultTimeoutSeconds
    ensures t <= MaxInt64
  {
    match Atoi(raw)
    case Some(n) => if n <= 0 then DefaultTimeoutSeconds else n
    case None => DefaultTimeoutSeconds
  }

  /** A malformed, empty, zero or negative timeout is silently the default;
      a positive one, with or without '+', is taken as written. */
  lemma TimeoutExamples()
    ensures TimeoutSeconds("abc") == 30
    ensures TimeoutSeconds("") == 30
    ensures TimeoutSeconds("0") == 30
    ensures TimeoutSeconds("-5") == 30
    ensures TimeoutSeconds(" 5") == 30
    ensures TimeoutSeconds("45") == 45
  {
    AtoiExamples();
  }

  lemma TimeoutOfRendered(n: int)
    requires 0 < n <= MaxInt64
    ensures TimeoutSeconds(FormatInt(n)) == n
    ensures TimeoutSeconds("+" + Digits(n)) == n
  {
    AtoiRoundTrip(n);
    AtoiPlusSign(n);
  }

  /** Two's-complement wrap-around of a product into Go's int64. */
  function WrapInt64(x: int): (r: int)
    ensures MinInt64 <= r <= MaxInt64
    ensures (r - x) % TwoTo64 == 0
  {
    var m := x % TwoTo64;
    if m > MaxInt64 then m - TwoTo64 else m
  }

  /** time.Duration(t) * time.Second as the source computes it (main.go:148):
      an int64 multiplication that wraps. */
  function SessionTimeoutAsWritten(t: int): (d: int)
    ensures MinInt64 <= d <= MaxInt64
    ensures 0 <= t <= MaxTimeoutSeconds ==> d == t * NanosPerSecond
  {
    var x := t * NanosPerSecond;
    assert 0 <= t <= MaxTimeoutSeconds ==> 0 <= x <= MaxInt64 && x % TwoTo64 == x;
    WrapInt64(x)
  }

  /** The largest number of seconds whose nanosecond duration fits in int64. */
  const MaxTimeoutSeconds: int := MaxInt64 / NanosPerSecond

  /** Any timeout between 2^63 and 2^64 nanoseconds wraps to a negative
      duration. */
  lemma {:induction false} SessionTimeoutWraps(t: int)
    requires MaxTimeoutSeconds < t <= (TwoTo64 - 1) / NanosPerSecond
    ensures SessionTimeoutAsWritten(t) < 0
  {
    var x := t * NanosPerSecond;
    assert MaxInt64 < x < TwoTo64;
    assert x % TwoTo64 == x;
  }

  /** The header value "9223372037" parses, is positive, and yet gives the
      session a negative timeout as written. */
  lemma TimeoutHeaderOverflow()
    ensures TimeoutSeconds(FormatInt(9223372037)) == 9223372037
    ensures SessionTimeoutAsWritten(TimeoutSeconds(FormatInt(9223372037))) < 0
  {
    TimeoutOfRendered(9223372037);
    SessionTimeoutWraps(9223372037);
  }

  /** The session timeout in nanoseconds, with a seconds value too large for a
      Duration treated like any other unusable timeout: it becomes the default. */
  function SessionTimeout(t: int): (d: int)
    requires t > 0
    ensures 0 < d <= MaxInt64
    ensures t <= MaxTimeoutSeconds ==> d == t * NanosPerSecond
    ensures t > MaxTimeoutSeconds ==> d == DefaultTimeoutSeconds * NanosPerSecond
  {
    if t <= MaxTimeoutSeconds then t * NanosPerSecond else DefaultTimeoutSeconds * NanosPerSecond
  }

  /** Wherever the source's product does not wrap, the corrected duration is
      the one it computes. */
  lemma SessionTimeoutAgrees(t: int)
    requires 0 < t <= MaxTimeoutSeconds
    ensures SessionTimeout(t) == SessionTimeoutAsWritten(t)
  {
    var x := t * NanosPerSecond;
    assert 0 < x <= MaxInt64;
    assert x % TwoTo64 == x;
  }

  /** What NewRequest hands to the session setters. */
  datatype SessionSettings = SessionSettings(timeoutNanos: int, proxy: string)

  /** The azuretls.Request NewRequest builds; the body is forwarded opaquely. */
  datatype Request = Request(verb: string, url: string, disableRedirects: bool, ignoreBody: bool)

  datatype Prepared = Prepared(session: SessionSettings, request: Request)

  /** The only validation failure: no usable target URL under that header name. */
  datatype TranslateError = NoUrl(headerName: string)

  datatype Result<T, E> = Ok(value: T) | Err(error: E)

  /** A presence flag: set exactly when the header has a non-empty first value. */
  predicate Flag(inbound: seq<Field>, name: string)
    ensures Flag(inbound, name) ==>
      exists i :: FieldNamed(inbound, i, name) && |inbound[i].values| > 0 && inbound[i].values[0] != ""
    ensures (forall i :: 0 <= i < |inbound| ==> !FieldNamed(inbound, i, name)) ==> !Flag(inbound, name)
  {
    HeaderGet(inbound, name) != ""
  }

  /** Stream mode (main.go:101). */
  predicate StreamMode(c: ControlNames, inbound: seq<Field>)
    ensures StreamMode(c, inbound) ==>
      exists i :: FieldNamed(inbound, i, c.stream) && |inbound[i].values| > 0 && inbound[i].values[0] != ""
    ensures (forall i :: 0 <= i < |inbound| ==> !FieldNamed(inbound, i, c.stream)) ==> !StreamMode(c, inbound)
  {
    Flag(inbound, c.stream)
  }

  /** NewRequest as written: the session timeout is the int64 product of
      main.go:148, which wraps for very large header values. */
  function NewRequest(c: ControlNames, inbound: seq<Field>, httpMethod: string): (r: Result<Prepared, TranslateError>)
    ensures r.Err? <==> HeaderGet(inbound, c.url) == ""
    ensures r.Err? ==> r.error == NoUrl(c.url)
    ensures r.Ok? ==> r.value.request.url == HeaderGet(inbound, c.url) != ""
    ensures r.Ok? ==> r.value.request.verb == httpMethod && r.value.request.ignoreBody
    ensures r.Ok? ==> (r.value.request.disableRedirects <==> Flag(inbound, c.redirect))
    ensures r.Ok? ==> r.value.session.proxy == HeaderGet(inbound, c.proxy)
    ensures r.Ok? ==> r.value.session.timeoutNanos == SessionTimeoutAsWritten(TimeoutSeconds(HeaderGet(inbound, c.timeout)))
    ensures r.Ok? && TimeoutSeconds(HeaderGet(inbound, c.timeout)) <= MaxTimeoutSeconds ==>
      r.value.session.timeoutNanos == TimeoutSeconds(HeaderGet(inbound, c.timeout)) * NanosPerSecond > 0
  {
    var url := HeaderGet(inbound, c.url);
    if url == "" then Err(NoUrl(c.url))
    else
      var disableRedirects := Flag(inbound, c.redirect);
      var t := TimeoutSeconds(HeaderGet(inbound, c.timeout));
      var proxy := HeaderGet(inbound, c.proxy);
      Ok(Prepared(SessionSettings(SessionTimeoutAsWritten(t), proxy),
                  Request(httpMethod, url, disableRedirects, true)))
  }

  /** A request that names its target and a timeout of 9223372037 seconds is
      accepted, and its session is given a negative timeout. */
  lemma NewRequestOverflow(c: ControlNames, url: string, httpMethod: string)
    requires DistinctControlNames(c)
    requires url != ""
    ensures var inbound := [Field(c.url, [url]), Field(c.timeout, [FormatInt(9223372037)])];
      NewRequest(c, inbound, httpMethod).Ok? &&
      NewRequest(c, inbound, httpMethod).value.session.timeoutNanos < 0
  {
    var inbound := [Field(c.url, [url]), Field(c.timeout, [FormatInt(9223372037)])];
    var r := Reserved(c);
    assert !EqualIgnoringCase(r[0], r[3]);
    assert FieldNamed(inbound, 0, c.url);
    HeaderGetFirst(inbound, c.url, 0);
    assert !FieldNamed(inbound, 0, c.timeout) && FieldNamed(inbound, 1, c.timeout);
    HeaderGetFirst(inbound, c.timeout, 1);
    TimeoutHeaderOverflow();
  }

  /** NewRequest with the corrected session timeout: it differs from the
      source only where the source's product would wrap. */
  function NewRequestCorrected(c: ControlNames, inbound: seq<Field>, httpMethod: string): (r: Result<Prepared, TranslateError>)
    ensures r.Err? <==> NewRequest(c, inbound, httpMethod).Err?
    ensures r.Err? ==> r == NewRequest(c, inbound, httpMethod)
    ensures r.Ok? ==> r.value.request == NewRequest(c, inbound, httpMethod).value.request
    ensures r.Ok? ==> r.value.session.proxy == NewRequest(c, inbound, httpMethod).value.session.proxy
    ensures r.Ok? ==> 0 < r.value.session.timeoutNanos <= MaxInt64
    ensures r.Ok? ==> r.value.session.timeoutNanos == SessionTimeout(TimeoutSeconds(HeaderGet(inbound, c.timeout)))
    ensures TimeoutSeconds(HeaderGet(inbound, c.timeout)) <= MaxTimeoutSeconds ==> r == NewRequest(c, inbound, httpMethod)
  {
    match NewRequest(c, inbound, httpMethod)
    case Err(e) => Err(e)
    case Ok(p) =>
      var d := SessionTimeout(TimeoutSeconds(HeaderGet(inbound, c.timeout)));
      Ok(p.(session := p.session.(timeoutNanos := d)))
  }

  /** A request without the URL header, or with it empty, is refused. */
  lemma NoUrlIsRefused(c: ControlNames, inbound: seq<Field>, httpMethod: string)
    requires forall i :: 0 <= i < |inbound| ==> !FieldNamed(inbound, i, c.url) || inbound[i].values == [""]
    ensures NewRequest(c, inbound, httpMethod) == Err(NoUrl(c.url))
  {
  }

  /** Only whether the header's first value is empty matters for a presence
      flag: any content, a single space included, switches it on. */
  lemma {:induction false} FlagIgnoresContent(inbound: seq<Field>, name: string, i: nat, v: string)
    requires FieldNamed(inbound, i, name)
    requires forall j :: 0 <= j < i ==> !FieldNamed(inbound, j, name)
    ensures Flag(inbound[i := Field(inbound[i].name, [v])], name) <==> v != ""
  {
    var a := inbound[i := Field(inbound[i].name, [v])];
    forall j | 0 <= j < i ensures !FieldNamed(a, j, name) {
      assert a[j] == inbound[j];
      assert !FieldNamed(inbound, j, name);
    }
    assert FieldNamed(a, i, name);
    HeaderGetFirst(a, name, i);
  }

  /** A request that names only its target: redirects stay enabled, the
      timeout is 30 seconds, there is no proxy and the body is buffered. */
  lemma PlainRequest(c: ControlNames, url: string, httpMethod: string)
    requires DistinctControlNames(c)
    requires url != ""
    ensures var inbound := [Field(c.url, [url])];
      NewRequest(c, inbound, httpMethod)
        == Ok(Prepared(SessionSettings(30 * NanosPerSecond, ""), Request(httpMethod, url, false, true)))
      && !StreamMode(c, inbound)
  {
    var inbound := [Field(c.url, [url])];
    assert FieldNamed(inbound, 0, c.url);
    HeaderGetFirst(inbound, c.url, 0);
    var r := Reserved(c);
    assert !EqualIgnoringCase(r[0], r[1]) && !EqualIgnoringCase(r[0], r[2]);
    assert !EqualIgnoringCase(r[0], r[3]) && !EqualIgnoringCase(r[0], r[4]);
    assert !FieldNamed(inbound, 0, c.timeout);
    AtoiExamples();
  }

  lemma LengthsTellApart(a: string, b: string)
    requires |a| != |b|
    ensures !EqualIgnoringCase(a, b)
  {
    assert |Lower(a)| == |a|;
  }

  /** The default names are told apart even ignoring case (their lengths differ). */
  lemma DefaultNamesDistinct()
    ensures DistinctControlNames(DefaultControlNames)
  {
    var r := Reserved(DefaultControlNames);
    assert |r[0]| == 9 && |r[1]| == 11 && |r[2]| == 19 && |r[3]| == 13 && |r[4]| == 12;
    forall i, j | 0 <= i < j < |r| ensures !EqualIgnoringCase(r[i], r[j]) {
      LengthsTellApart(r[i], r[j]);
    }
  }
}
