/** The response-header relay (main.go:86-99) and the part of the caller's
    http.ResponseWriter it acts on. */
module Relay {
  import opened Text
  import opened Headers

  newtype byte = x: int | 0 <= x < 256

  /** An upstream header is copied unless it is Content-Encoding (in any
      case) or has no values. */
  predicate Relayable(u: Field) {
    Lower(u.name) != "content-encoding" && |u.values| > 0
  }

  /** The caller's header map after the relay loop has visited ups in order,
      starting from h: each relayable header is Set to its first value,
      replacing whatever its canonical key held before. */
  function RelayMap(h: map<string, seq<string>>, ups: seq<Field>): (r: map<string, seq<string>>)
    ensures h.Keys <= r.Keys
    ensures forall k :: k in r && k !in h ==> Lower(k) != "content-encoding"
  {
    if ups == [] then h
    else
      var acc := RelayMap(h, ups[..|ups| - 1]);
      var u := ups[|ups| - 1];
      if Lower(u.name) == "content-encoding" then acc
      else if |u.values| > 0 then acc[CanonicalKey(u.name) := [u.values[0]]]
      else acc
  }

  /** Upstream header i is relayable and lands on key k. */
  predicate WritesKey(ups: seq<Field>, i: int, k: string) {
    0 <= i < |ups| && Relayable(ups[i]) && CanonicalKey(ups[i].name) == k
  }

  /** A key no relayable header lands on keeps its old entry, or stays absent. */
  lemma {:induction false} RelayKeepsUntouched(h: map<string, seq<string>>, ups: seq<Field>, k: string)
    requires forall i :: 0 <= i < |ups| ==> !WritesKey(ups, i, k)
    ensures k in RelayMap(h, ups) <==> k in h
    ensures k in h ==> RelayMap(h, ups)[k] == h[k]
  {
    if ups != [] {
      var front := ups[..|ups| - 1];
      forall i | 0 <= i < |front| ensures !WritesKey(front, i, k) {
        assert front[i] == ups[i];
        assert !WritesKey(ups, i, k);
      }
      RelayKeepsUntouched(h, front, k);
      assert !WritesKey(ups, |ups| - 1, k);
    }
  }

  /** The key a relayable header lands on holds the first value of the LAST
      relayable header landing there. */
  lemma {:induction false} RelayLastWins(h: map<string, seq<string>>, ups: seq<Field>, k: string, i: int)
    requires WritesKey(ups, i, k)
    requires forall j :: i < j < |ups| ==> !WritesKey(ups, j, k)
    ensures k in RelayMap(h, ups) && RelayMap(h, ups)[k] == [ups[i].values[0]]
  {
    var front := ups[..|ups| - 1];
    var u := ups[|ups| - 1];
    if i < |ups| - 1 {
      assert front[i] == ups[i];
      forall j | i < j < |front| ensures !WritesKey(front, j, k) {
        assert front[j] == ups[j];
        assert !WritesKey(ups, j, k);
      }
      RelayLastWins(h, front, k, i);
      assert !WritesKey(ups, |ups| - 1, k);
    }
  }

  /** No Content-Encoding header, in any letter case, is ever written: such a
      key keeps whatever the caller's map held before the relay. */
  lemma RelayNeverWritesContentEncoding(h: map<string, seq<string>>, ups: seq<Field>, k: string)
    requires Lower(k) == "content-encoding"
    ensures k in RelayMap(h, ups) <==> k in h
    ensures k in h ==> RelayMap(h, ups)[k] == h[k]
  {
    forall i | 0 <= i < |ups| ensures !WritesKey(ups, i, k) {
      if WritesKey(ups, i, k) {
        assert false;
      }
    }
    RelayKeepsUntouched(h, ups, k);
  }

  /** After the relay the map holds the keys it held before and the keys that
      relayable headers land on, and no others. */
  lemma {:induction false} RelayKeys(h: map<string, seq<string>>, ups: seq<Field>, k: string)
    ensures k in RelayMap(h, ups) <==> k in h || exists i :: WritesKey(ups, i, k)
  {
    if ups != [] {
      var front := ups[..|ups| - 1];
      RelayKeys(h, front, k);
      if exists i :: WritesKey(front, i, k) {
        var i :| WritesKey(front, i, k);
        assert WritesKey(ups, i, k);
      }
      if exists i :: WritesKey(ups, i, k) {
        var i :| WritesKey(ups, i, k);
        if i < |ups| - 1 {
          assert WritesKey(front, i, k);
        }
      }
      if !WritesKey(ups, |ups| - 1, k) {
        assert (k in RelayMap(h, ups)) == (k in RelayMap(h, front));
      }
    }
  }

  /** Scenario: an encoded upstream response. Its Content-Encoding header is
      dropped while another header is copied under its canonical key. */
  lemma ContentEncodingDropped(encoding: Field, other: Field)
    requires Lower(encoding.name) == "content-encoding"
    requires Relayable(other)
    ensures RelayMap(map[], [encoding, other]) == map[CanonicalKey(other.name) := [other.values[0]]]
  {
    var ups := [encoding, other];
    assert [encoding][..0] == [];
    assert RelayMap(map[], [encoding]) == map[];
    assert ups[..1] == [encoding];
  }

  /** The part of http.ResponseWriter the handler uses. The header map is the
      one Header() returns; WriteHeader commits the status and the header map
      as they are at that moment, and later changes to the map are not sent
      (net/http's documented behaviour). */
  class ResponseWriter {
    var header: map<string, seq<string>>
    var wroteHeader: bool
    var status: int
    var sentHeader: map<string, seq<string>>
    var body: seq<byte>

    constructor ()
      ensures header == map[] && !wroteHeader && body == []
    {
      header := map[];
      wroteHeader := false;
      status := 0;
      sentHeader := map[];
      body := [];
    }

    /** w.Header().Set(key, value): the canonical key now holds exactly [value]. */
    method Set(key: string, value: string)
      modifies this
      ensures header == old(header)[CanonicalKey(key) := [value]]
      ensures wroteHeader == old(wroteHeader) && status == old(status)
      ensures sentHeader == old(sentHeader) && body == old(body)
    {
      header := header[CanonicalKey(key) := [value]];
    }

    /** The first call commits; a superfluous call is ignored. */
    method WriteHeader(code: int)
      modifies this
      ensures wroteHeader && header == old(header) && body == old(body)
      ensures old(wroteHeader) ==> status == old(status) && sentHeader == old(sentHeader)
      ensures !old(wroteHeader) ==> status == code && sentHeader == old(header)
    {
      if !wroteHeader {
        wroteHeader := true;
        status := code;
        sentHeader := header;
      }
    }

    /** Writing body bytes commits a 200 first when nothing was committed yet. */
    method Write(data: seq<byte>)
      modifies this
      ensures wroteHeader && header == old(header) && body == old(body) + data
      ensures old(wroteHeader) ==> status == old(status) && sentHeader == old(sentHeader)
      ensures !old(wroteHeader) ==> status == 200 && sentHeader == old(header)
    {
      WriteHeader(200);
      body := body + data;
    }

    /** The relay loop of main.go:87-99 over the upstream headers in the order
      visited. */
    method RelayHeaders(ups: seq<Field>)
      modifies this
      ensures header == RelayMap(old(header), ups)
      ensures wroteHeader == old(wroteHeader) && status == old(status)
      ensures sentHeader == old(sentHeader) && body == old(body)
    {
      for i := 0 to |ups|
        invariant header == RelayMap(old(header), ups[..i])
        invariant wroteHeader == old(wroteHeader) && status == old(status)
        invariant sentHeader == old(sentHeader) && body == old(body)
      {
        assert ups[..i + 1][..i] == ups[..i];
        var h, v := ups[i].name, ups[i].values;
        if "content-encoding" == Lower(h) {
          continue;
        }
        if |v| > 0 {
          Set(h, v[0]);
        } else {
          continue;
        }
      }
      assert ups[..|ups|] == ups;
    }
  }
}
