# tls-impersonator forwarding pipeline, modelled in Dafny

The gateway takes an inbound HTTP request whose reserved control headers
(`x-tls-url`, `x-tls-proxy`, `x-tls-stream`, `x-tls-allowredirect`,
`x-tls-timeout` by default) describe an outbound call. It makes that call
through a browser-fingerprinting session and relays the result back. This
project models the decision logic of that pipeline in `main.go`:

- **Request translation** (`NewRequest`). The target URL is required. The redirect and stream flags are set by presence. The timeout is parsed with `strconv.Atoi` semantics and defaults to 30 s.
- **Header merge** (`SetHeaders`). The browser profile's ordered list is kept. Non-control inbound headers that the list does not already answer are appended, in order.
- **Response relay**. Upstream headers are copied to the caller's header map, except `Content-Encoding` and headers with no values. The body is sent buffered or streamed.
- **Outcome classification**. The caller gets 400, 408, 500 or the upstream status.

Files, one module each:

- `text.dfy` (`Text`): ASCII `strings.ToLower`, the canonical header key used by `Header.Set`, and `strings.Contains`.
- `atoi.dfy` (`StrConv`): `strconv.Atoi` on a 64-bit platform, and decimal rendering as its inverse.
- `headers.dfy` (`Headers`): header fields, ordered pairs, the control-name configuration, and the two `Get` lookups.
- `translate.dfy` (`Translate`): `NewRequest`, the timeout rules, and the session timeout duration.
- `merge.dfy` (`Merge`): the `SetHeaders` loop, its specification function `Merged`, and the merge properties.
- `relay.dfy` (`Relay`): the relay map, and a `ResponseWriter` class holding the caller's header map, committed status, committed headers and body.
- `handler.dfy` (`Handler`): status classification, the body transfer, and `HandleReq` end to end, as written and corrected.

Modelling choices:

- Go's header maps are iterated in no fixed order. The model replaces each with a sequence of `(name, values)` fields.
- `Header.Get` on the inbound request is modelled as the first field whose name matches case-insensitively. This equals Go's canonical-key lookup when names are header tokens.
- The browser profile comes from the `browser` package, which is not part of this model. It is a parameter. Its `Get` is assumed to be a case-insensitive lookup that returns the first matching entry's value, or `""`.
- The five control names are an immutable `ControlNames` value, and `DefaultControlNames` holds the defaults.
- The outbound call (`session.Do`) is a function parameter of `HandleReq`. It maps the call the handler issues to the upstream's outcome. `HandleReq` returns the call it issued, or `None` when it issued none.

Three points of the code's behaviour are easy to miss:

- An inbound header is blocked only when the list built so far already gives a non-empty value for its name (main.go:184). A profile entry with an empty value does not block an inbound header of the same name. An inbound header appended earlier can block a later one that differs only in letter case.
- The merge takes `v[0]` without checking (main.go:186), so an empty value list would panic. `Merge.SetHeaders` therefore requires every inbound field to carry a value. Go's server guarantees this for parsed requests.
- The session opened at main.go:125 is not closed on the return at main.go:132. This leak is not modelled.

Two members come in an as-written and a corrected form; see "## Findings". `Translate.NewRequest` and `Handler.HandleReq` follow main.go exactly. `Translate.NewRequestCorrected` and `Handler.HandleReqCorrected` apply the corrections.

## Model

| member | source | states |
|---|---|---|
| `Text.CanonicalKey` | main.go:94 | the key `Header.Set` stores a name under has the name's length and differs from it only in letter case |
| `Text.ContainsIff` | main.go:72 | `strings.Contains(s, sub)` holds exactly when `sub` occurs at some position of `s` |
| `Text.Lower` | main.go:90 | `strings.ToLower` keeps the length and leaves no ASCII upper-case letter |
| `Text.Contains` | main.go:72 | the empty string is contained in every string; nothing longer than `s` is contained in `s` |
| `Text.LowerIdempotent` | main.go:184 | lower-casing twice equals lower-casing once, so `Get(strings.ToLower(k))` is a lookup of `k` |
| `StrConv.ParseDigits` | main.go:142 | a digit string parses exactly when it is non-empty and all ASCII digits |
| `StrConv.Atoi` | main.go:142 | a parsed value fits in int64; after an optional sign, the input is one or more digits; a negative value has a leading `-` |
| `StrConv.AtoiIff` | main.go:142 | `Atoi` accepts exactly an optional sign followed by one or more digits whose signed value fits in int64, and it returns that signed value |
| `StrConv.ParseDigitsLeadingZero` | main.go:142 | a leading zero does not change the value of a digit string |
| `StrConv.AtoiLeadingZero` | main.go:142 | `Atoi` gives the same result for an unsigned decimal with a zero put in front |
| `StrConv.AtoiZeros` | main.go:142 | `"007"` parses to 7; `"+0"` and `"-0"` parse to 0 |
| `StrConv.AtoiRoundTrip` | main.go:142 | every int64 value survives decimal rendering followed by `Atoi` |
| `StrConv.AtoiPlusSign` | main.go:142 | a leading `+` is accepted and leaves the value unchanged |
| `StrConv.AtoiOutOfRange` | main.go:142 | a well-formed decimal outside the int64 range is an error |
| `StrConv.AtoiExamples` | main.go:142 | `""`, `"abc"`, `"+"` and `" 5"` are errors; `"0"`, `"-5"` and `"45"` parse |
| `Headers.HeaderGet` | main.go:129 | `Get` returns `""` when no field has the name; a non-empty result is the first value of a field with that name |
| `Headers.HeaderGetFirst` | main.go:129 | `Get` reads the first field with the name, giving its first value or `""` |
| `Headers.OrderedGet` | main.go:184 | the profile lookup returns `""` when no entry has the name; a non-empty result is the value of an entry with that name |
| `Headers.OrderedGetConcat` | main.go:184-186 | a lookup on a list with entries appended is answered by the original list whenever that list has the name |
| `Headers.OrderedGetFold` | main.go:184 | the lookup depends on the key only up to letter case |
| `Headers.OrderedGetPresent` | main.go:184 | on a list without empty values, the lookup is non-empty exactly when the name is present |
| `Headers.Reserved` | main.go:168-174 | the excluded names are exactly the five control names |
| `Translate.TimeoutSeconds` | main.go:141-147 | the timeout is always positive and at most the int64 maximum; it is the `Atoi` value when that parses and is positive, otherwise exactly 30 |
| `Translate.TimeoutExamples` | main.go:141-147 | `"abc"`, `""`, `"0"`, `"-5"` and `" 5"` give 30; `"45"` gives 45 |
| `Translate.TimeoutOfRendered` | main.go:141-147 | every positive int64, written with or without `+`, is taken as the timeout |
| `Translate.SessionTimeoutAsWritten` | main.go:148 | `time.Duration(t) * time.Second` as written: always within int64, by wrap-around; exactly `t` seconds in nanoseconds whenever that fits |
| `Translate.SessionTimeoutWraps` | main.go:148 | as written, every seconds value between 9223372037 and 18446744073 gives a negative duration |
| `Translate.TimeoutHeaderOverflow` | main.go:141-148 | the header value `9223372037` passes validation as a positive timeout and yet gives the session a negative duration |
| `Translate.SessionTimeout` | main.go:148 | the corrected duration is positive and fits in int64; it is `t` seconds whenever that fits, otherwise the 30 s default |
| `Translate.SessionTimeoutAgrees` | main.go:148 | wherever the source's product does not wrap, the corrected duration equals it |
| `Translate.NewRequest` | main.go:123-163 | an error, naming the URL header, exactly when the URL header is absent or empty; otherwise the call has that URL, the inbound method and `IgnoreBody`; redirects are disabled exactly when the redirect header is non-empty; the proxy is the proxy header's value; the session timeout is the wrapped int64 product of main.go:148, and it is the parsed seconds in nanoseconds, positive, whenever that fits |
| `Translate.NewRequestOverflow` | main.go:123-163 | a request with a URL and the timeout header `9223372037` is accepted and gives its session a negative timeout |
| `Translate.NewRequestCorrected` | main.go:123-163 | corrected: fails exactly when `NewRequest` fails and builds the same outbound request and proxy; the session timeout is always positive and within int64; the result equals `NewRequest`'s wherever the source's product does not wrap |
| `Translate.Flag` | main.go:138 | a presence flag set means a field of that name exists with a non-empty first value; with no such field the flag is off |
| `Translate.StreamMode` | main.go:101 | stream mode means the stream header exists with a non-empty first value; with no stream header the response is buffered |
| `Translate.NoUrlIsRefused` | main.go:129-135 | a request with no URL header, or only an empty one, is refused |
| `Translate.FlagIgnoresContent` | main.go:101 | a presence flag is set exactly when the header's value is non-empty, whatever the value, a single space included |
| `Translate.PlainRequest` | main.go:123-163 | a request naming only its target gets redirects enabled, a 30 s timeout, no proxy and buffered mode |
| `Translate.DefaultNamesDistinct` | main.go:18-22 | the five default control names differ even when letter case is ignored |
| `Merge.Merged` | main.go:166-192 | the profile is an unchanged prefix of the result; no appended entry has a control name; each appended entry is some inbound field's name with its first value; at most one entry is added per inbound field |
| `Merge.SetHeaders` | main.go:166-192 | the loop with its labelled `continue` builds exactly `Merged`, so the profile prefix is kept and control headers are excluded |
| `Merge.AppendedWereAbsent` | main.go:184-187 | an entry is appended only if nothing before it gives a non-empty value for its name |
| `Merge.ProfileNamesNotDuplicated` | main.go:184-187 | a profile header with a value is never duplicated by inbound input, in any letter case |
| `Merge.MergedIsProfileThenTail` | main.go:175-189 | when inbound names are distinct, as in a Go header map, the result is the profile followed by the non-control inbound fields the profile leaves unanswered, in inbound order |
| `Merge.TailMembership` | main.go:178-187 | when inbound names are distinct, a field is appended exactly when it is not a control header and the profile gives no value for its name |
| `Merge.MergedAnswers` | main.go:184-187 | when no value is empty, the merged list has every non-control inbound name |
| `Merge.MergeIdempotent` | main.go:166-192 | when no value is empty, merging the same inbound headers a second time changes nothing |
| `Relay.RelayMap` | main.go:87-99 | the relay only adds or overwrites keys, never removes one, and no key it adds is Content-Encoding in any case |
| `Relay.RelayKeepsUntouched` | main.go:87-99 | a key that no relayable header lands on keeps its old entry, or stays absent |
| `Relay.RelayLastWins` | main.go:93-94 | the key a relayable header lands on holds the first value of the last relayable header landing there |
| `Relay.RelayKeys` | main.go:87-99 | after the relay, the keys are the old keys plus those of relayable headers, and no others |
| `Relay.RelayNeverWritesContentEncoding` | main.go:90-92 | no Content-Encoding key, in any case, is written; such a key keeps its old entry |
| `Relay.ContentEncodingDropped` | main.go:87-99 | an encoded response's Content-Encoding header is dropped while its other header is copied |
| `Relay.ResponseWriter.Set` | main.go:94 | `Header().Set` makes the canonical key hold exactly the one value and changes nothing else |
| `Relay.ResponseWriter.WriteHeader` | main.go:86 | the first call commits the status and the header map as they are at that moment; later calls change nothing |
| `Relay.ResponseWriter.Write` | main.go:106 | writing appends to the body, committing status 200 first if nothing was committed yet |
| `Relay.ResponseWriter.RelayHeaders` | main.go:87-99 | the loop leaves the header map equal to `RelayMap` of the old map and the upstream headers, and changes nothing else |
| `Handler.CallStatus` | main.go:71-86 | a call error gives 408 exactly when its message contains `timeout` at some position, else 500; a response gives its own status |
| `Handler.CallStatusExamples` | main.go:72 | `i/o timeout` gives 408; `Timeout` and `EOF` give 500; the match is case-sensitive |
| `Handler.RespondAsWritten` | main.go:86-99 | as written, the caller is sent the header map from before the relay; relayed headers reach only the uncommitted map |
| `Handler.AsWrittenLosesHeaders` | main.go:86-99 | on a fresh writer, any relayable upstream header belongs in the relayed map, which therefore differs from the empty map the caller is sent |
| `Handler.AsWrittenExample` | main.go:86-99 | upstream `te: 1` should reach the caller as `Te: 1`; as written the caller gets no headers |
| `Handler.Respond` | main.go:86-99 | corrected: the caller is sent exactly the relayed map, with the upstream status |
| `Handler.Transfer` | main.go:101-118 | buffered mode writes the whole body only after it was read without error; stream mode writes whatever bytes arrive; status and headers are unchanged |
| `Handler.HandleReq` | main.go:59-119 | as written. No URL gives 400, issues no call and writes no body. Otherwise exactly one call is issued, with `NewRequest`'s descriptor (wrapped timeout included) and the `Merged` header list. A call error gives a 408/500 status and no body. Success gives the upstream status and the body chosen by stream mode. On every path the caller is sent the header map from before the relay |
| `Handler.HandleReqCorrected` | main.go:59-119 | corrected: the same paths, but the call carries `NewRequestCorrected`'s descriptor with a positive timeout, and a successful call sends the caller exactly the relayed headers |

## Left out

- Process start-up, the listener and the `/isalive`, `/sleep` and `/headers` endpoints (main.go:25-56): server plumbing and debug endpoints.
- `getEnv` and environment lookup (main.go:17-23, 194-200): environment I/O. The control names are a `ControlNames` parameter, and `DefaultControlNames` holds the defaults.
- The session lifecycle (`NewSession`, `EnableLog`, `SetTimeout`, `SetProxy`, `Close`): foreign library calls. Their arguments are recorded in `SessionSettings`. `session.Do` is the `upstream` parameter. The session left unclosed on the validation-error path (main.go:125-135) is a resource leak that a functional model does not capture.
- The inbound request body (`Body: r.Body`): forwarded opaquely and not modelled.
- `ReadBody`, `io.Copy` and `RawBody.Close` (main.go:105-117): streaming I/O. A body is its delivered bytes plus whether it ended cleanly. Incremental chunking is not modelled.
- Logging and diagnostic prints: no functional effect.
- Go map iteration order: non-deterministic. Each header map is a sequence in the order visited.
- Concurrent requests sharing the profile's backing array through `append`: a concurrency concern outside a sequential model.
- Text.Lower: models `strings.ToLower` for ASCII letters only. Unicode case mapping is not modelled. Header names are ASCII tokens.
- Headers.HeaderGet: names with non-token characters are compared case-insensitively. Go's canonical-key lookup compares them exactly.
- Merge.SetHeaders: requires every inbound field to carry a value. The source would panic on an empty value list (`v[0]`), which Go's server never produces.
- StrConv.Atoi: does not say which error (syntax or range) Go reports. The timeout treats both alike.
- Relay.ResponseWriter.WriteHeader: does not model net/http's panic on codes outside 100-999, nor informational 1xx responses that do not commit.

## Findings

| source | as written | input that shows it | evidently intended | confidence | as-written member | corrected member |
|---|---|---|---|---|---|---|
| main.go:86-99 | `w.WriteHeader(res.StatusCode)` runs before the loop that copies upstream headers into `w.Header()`. net/http fixes the sent headers when WriteHeader runs, so later changes have no effect, and the caller gets none of the upstream headers. | any upstream response with a relayable header, e.g. `te: 1` (`Handler.AsWrittenLosesHeaders`, `Handler.AsWrittenExample`) | copy the headers first, then commit the status (`Handler.HandleReqCorrected` uses this order) | high (from net/http's documented ResponseWriter behaviour); not executed | `Handler.RespondAsWritten` | `Handler.Respond` |
| main.go:148 | `time.Duration(t) * time.Second` is an int64 product that wraps, for any `t` that passed the positivity check. | `x-tls-timeout: 9223372037` gives a negative session timeout (`Translate.TimeoutHeaderOverflow`) | a positive timeout; a value too large for a Duration handled like any other unusable timeout (30 s), as in `Translate.NewRequestCorrected` | medium (the wrap is certain; the library's reaction to a negative timeout was not examined); not executed | `Translate.SessionTimeoutWraps` | `Translate.SessionTimeout` |
