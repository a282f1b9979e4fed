/** HandleReq (main.go:59-119): validate and translate the inbound request,
    merge its headers into the profile's ordered list, perform the call, and
    relay the outcome to the caller. The outbound call, which the source makes
    through session.Do, is a parameter: a function from the call the handler
    issues to the outcome the upstream produces. */
module Handler {
  import opened Text
  import opened StrConv
  import opened Headers
  import opened Translate
  import opened Merge
  import opened Relay

  const StatusBadRequest: int := 400
  const StatusRequestTimeout: int := 408
  const StatusInternalServerError: int := 500

  /** An upstream body: the bytes it delivers, and whether it ends cleanly
      (false: a read error after those bytes). */
  datatype Body = Body(bytes: seq<byte>, complete: bool)

  datatype Response = Response(statusCode: int, header: seq<Field>, body: Body)

  /** What session.Do returns: an error with its message, or a response. */
  datatype CallOutcome = Failed(message: string) | Succeeded(response: Response)

  /** The call the handler issues: the translated request and session
      settings, and the ordered header list set on the session. */
  datatype Outbound = Outbound(prepared: Prepared, orderedHeaders: seq<Pair>)

  /** The caller's status for a call outcome (main.go:71-86): a failure whose
      message contains "timeout" (case-sensitive) is 408, any other failure
      500, and a response passes its own status through. */
  function CallStatus(outcome: CallOutcome): (code: int)
    ensures outcome.Failed? ==> (code == StatusRequestTimeout <==> exists i :: OccursAt(outcome.message, "timeout", i))
    ensures outcome.Failed? ==> code == StatusRequestTimeout || code == StatusInternalServerError
    ensures outcome.Succeeded? ==> code == outcome.response.statusCode
  {
    match outcome
    case Failed(message) =>
      ContainsIff(message, "timeout");
      if Contains(message, "timeout") then StatusRequestTimeout else StatusInternalServerError
    case Succeeded(response) => response.statusCode
  }

  /** The match is on the exact lower-case word. */
  lemma CallStatusExamples(res: Response)
    ensures CallStatus(Failed("i/o timeout")) == StatusRequestTimeout
    ensures CallStatus(Failed("Timeout")) == StatusInternalServerError
    ensures CallStatus(Failed("EOF")) == StatusInternalServerError
    ensures CallStatus(Succeeded(res)) == res.statusCode
  {
    assert OccursAt("i/o timeout", "timeout", 4);
    assert "Timeout"[0..7][0] == 'T';
    assert !OccursAt("Timeout", "timeout", 0);
    assert forall i :: OccursAt("Timeout", "timeout", i) ==> i == 0;
  }

  /** main.go:86-99 as written: the status is committed first, so the headers
      set afterwards change only the map, not what the caller is sent. */
  method RespondAsWritten(w: ResponseWriter, res: Response)
    requires !w.wroteHeader
    modifies w
    ensures w.wroteHeader && w.status == res.statusCode
    ensures w.sentHeader == old(w.header)
    ensures w.header == RelayMap(old(w.header), res.header)
    ensures w.body == old(w.body)
  {
    w.WriteHeader(res.statusCode);
    w.RelayHeaders(res.header);
  }

  /** On a fresh writer, every relayable upstream header is missing from what
      RespondAsWritten sends, although the relay meant to copy it. */
  lemma AsWrittenLosesHeaders(ups: seq<Field>, i: int)
    requires 0 <= i < |ups| && Relayable(ups[i])
    ensures CanonicalKey(ups[i].name) in RelayMap(map[], ups)
    ensures RelayMap(map[], ups) != map[]
  {
    assert WritesKey(ups, i, CanonicalKey(ups[i].name));
    RelayKeys(map[], ups, CanonicalKey(ups[i].name));
  }

  /** Concretely: upstream "te: 1" should reach the caller as "Te: 1"; as
      written the caller receives an empty header map. */
  lemma AsWrittenExample()
    ensures RelayMap(map[], [Field("te", ["1"])]) == map["Te" := ["1"]]
    ensures RelayMap(map[], [Field("te", ["1"])]) != map[]
  {
    assert [Field("te", ["1"])][..0] == [];
    CanonicalKeyExample();
    assert "Te" in map["Te" := ["1"]];
  }

  /** The relay with the headers copied before the status is committed, so
      that the caller is sent exactly the relayed map. */
  method Respond(w: ResponseWriter, res: Response)
    requires !w.wroteHeader
    modifies w
    ensures w.wroteHeader && w.status == res.statusCode
    ensures w.sentHeader == RelayMap(old(w.header), res.header)
    ensures w.header == w.sentHeader
    ensures w.body == old(w.body)
  {
    w.RelayHeaders(res.header);
    w.WriteHeader(res.statusCode);
  }

  /** The body transfer (main.go:101-118): buffered mode writes the whole body
      once it has been read without error, and nothing otherwise; stream mode
      copies whatever bytes arrive. */
  method Transfer(w: ResponseWriter, body: Body, stream: bool)
    requires w.wroteHeader
    modifies w
    ensures w.body == old(w.body) + (if stream || body.complete then body.bytes else [])
    ensures w.wroteHeader && w.status == old(w.status)
    ensures w.sentHeader == old(w.sentHeader) && w.header == old(w.header)
  {
    if !stream {
      if body.complete {
        w.Write(body.bytes);
      }
    } else {
      w.Write(body.bytes);
    }
  }

  /** HandleReq as written: the status is committed before the upstream
      headers are relayed, so on every path the caller is sent the header map
      it started with. */
  method HandleReq(w: ResponseWriter, c: ControlNames, profile: seq<Pair>, inbound: seq<Field>,
                   httpMethod: string, upstream: Outbound -> CallOutcome)
    returns (sent: Option<Outbound>)
    requires HasValues(inbound)
    requires !w.wroteHeader
    modifies w
    ensures w.wroteHeader
    ensures w.sentHeader == old(w.header)
    ensures NewRequest(c, inbound, httpMethod).Err? ==>
      sent.None? && w.status == StatusBadRequest && w.body == old(w.body)
    ensures NewRequest(c, inbound, httpMethod).Ok? ==>
      sent == Some(Outbound(NewRequest(c, inbound, httpMethod).value, Merged(profile, c, inbound)))
    ensures sent.Some? ==> w.status == CallStatus(upstream(sent.value))
    ensures sent.Some? && upstream(sent.value).Failed? ==> w.body == old(w.body)
    ensures sent.Some? && upstream(sent.value).Succeeded? ==>
      var res := upstream(sent.value).response;
      w.header == RelayMap(old(w.header), res.header) &&
      w.body == old(w.body) + (if StreamMode(c, inbound) || res.body.complete then res.body.bytes else [])
  {
    var prepared := NewRequest(c, inbound, httpMethod);
    if prepared.Err? {
      w.WriteHeader(StatusBadRequest);
      return None;
    }
    var ordered := SetHeaders(profile, c, inbound);
    var call := Outbound(prepared.value, ordered);
    sent := Some(call);
    var outcome := upstream(call);
    match outcome
    case Failed(message) =>
      w.WriteHeader(CallStatus(outcome));
    case Succeeded(res) =>
      RespondAsWritten(w, res);
      var stream := StreamMode(c, inbound);
      Transfer(w, res.body, stream);
  }

  /** HandleReq with both corrections: the session gets the corrected timeout,
      and the upstream headers are relayed before the status is committed, so
      a successful call sends the caller the relayed headers. */
  method HandleReqCorrected(w: ResponseWriter, c: ControlNames, profile: seq<Pair>, inbound: seq<Field>,
                            httpMethod: string, upstream: Outbound -> CallOutcome)
    returns (sent: Option<Outbound>)
    requires HasValues(inbound)
    requires !w.wroteHeader
    modifies w
    ensures w.wroteHeader
    ensures NewRequestCorrected(c, inbound, httpMethod).Err? ==>
      sent.None? && w.status == StatusBadRequest && w.sentHeader == old(w.header) && w.body == old(w.body)
    ensures NewRequestCorrected(c, inbound, httpMethod).Ok? ==>
      sent == Some(Outbound(NewRequestCorrected(c, inbound, httpMethod).value, Merged(profile, c, inbound)))
    ensures sent.Some? ==> w.status == CallStatus(upstream(sent.value))
    ensures sent.Some? ==> 0 < sent.value.prepared.session.timeoutNanos <= MaxInt64
    ensures sent.Some? && upstream(sent.value).Failed? ==>
      w.sentHeader == old(w.header) && w.body == old(w.body)
    ensures sent.Some? && upstream(sent.value).Succeeded? ==>
      var res := upstream(sent.value).response;
      w.sentHeader == RelayMap(old(w.header), res.header) &&
      w.body == old(w.body) + (if StreamMode(c, inbound) || res.body.complete then res.body.bytes else [])
  {
    var prepared := NewRequestCorrected(c, inbound, httpMethod);
    if prepared.Err? {
      w.WriteHeader(StatusBadRequest);
      return None;
    }
    var ordered := SetHeaders(profile, c, inbound);
    var call := Outbound(prepared.value, ordered);
    sent := Some(call);
    var outcome := upstream(call);
    match outcome
    case Failed(message) =>
      w.WriteHeader(CallStatus(outcome));
    case Succeeded(res) =>
      Respond(w, res);
      var stream := StreamMode(c, inbound);
      Transfer(w, res.body, stream);
  }
}
