/** Header collections as the gateway sees them, and their lookups.
    An inbound or upstream header multimap (Go's http.Header) is a sequence of
    fields, each a name with its values, in the order the gateway visits them.
    A browser profile and the outbound ordered list are sequences of
    (name, value) pairs. */
module Headers {
  import opened Text

  datatype Field = Field(name: string, values: seq<string>)

  datatype Pair = Pair(name: string, value: string)

  /** The five reserved control-header names, fixed at process start. */
  datatype ControlNames = ControlNames(
    url: string, proxy: string, stream: string, redirect: string, timeout: string)

  /** The names used when no environment override is given. */
  const DefaultControlNames := ControlNames(
    "x-tls-url", "x-tls-proxy", "x-tls-stream", "x-tls-allowredirect", "x-tls-timeout")

  /** No two control names coincide when letter case is ignored. */
  predicate DistinctControlNames(c: ControlNames) {
    var r := Reserved(c);
    forall i, j :: 0 <= i < j < |r| ==> !EqualIgnoringCase(r[i], r[j])
  }

  /** The list SetHeaders refuses to forward, in the order it checks them. */
  function Reserved(c: ControlNames): (r: seq<string>)
    ensures |r| == 5
    ensures c.url in r && c.proxy in r && c.stream in r && c.redirect in r && c.timeout in r
  {
    [c.url, c.proxy, c.redirect, c.timeout, c.stream]
  }

  predicate IsReserved(c: ControlNames, name: string) {
    exists i :: 0 <= i < |Reserved(c)| && EqualIgnoringCase(Reserved(c)[i], name)
  }

  /** Every field carries at least one value, as Go's HTTP server guarantees
      for the headers of a parsed request. */
  predicate HasValues(hs: seq<Field>) {
    forall i :: 0 <= i < |hs| ==> |hs[i].values| > 0
  }

  predicate FieldNamed(hs: seq<Field>, i: int, key: string) {
    0 <= i < |hs| && EqualIgnoringCase(hs[i].name, key)
  }

  /** http.Header.Get: the first value of the field named key (in any letter
      case), or "" when there is no such field or it has no values. */
  function HeaderGet(hs: seq<Field>, key: string): (v: string)
    ensures (forall i :: 0 <= i < |hs| ==> !FieldNamed(hs, i, key)) ==> v == ""
    ensures v != "" ==> exists i :: FieldNamed(hs, i, key) && |hs[i].values| > 0 && hs[i].values[0] == v
  {
    if hs == [] then ""
    else if EqualIgnoringCase(hs[0].name, key) then
      assert FieldNamed(hs, 0, key);
      if |hs[0].values| > 0 then hs[0].values[0] else ""
    else
      var v := HeaderGet(hs[1..], key);
      assert v != "" ==> exists i :: FieldNamed(hs[1..], i, key) && |hs[1..][i].values| > 0 && hs[1..][i].values[0] == v;
      assert forall i :: FieldNamed(hs[1..], i, key) ==> FieldNamed(hs, i + 1, key);
      v
  }

  /** Get reads the FIRST field with the name and ignores later ones. */
  lemma {:induction false} HeaderGetFirst(hs: seq<Field>, key: string, i: nat)
    requires FieldNamed(hs, i, key)
    requires forall j :: 0 <= j < i ==> !FieldNamed(hs, j, key)
    ensures HeaderGet(hs, key) == if |hs[i].values| > 0 then hs[i].values[0] else ""
  {
    if i > 0 {
      assert !FieldNamed(hs, 0, key);
      forall j | 0 <= j < i - 1 ensures !FieldNamed(hs[1..], j, key) {
        assert !FieldNamed(hs, j + 1, key);
      }
      HeaderGetFirst(hs[1..], key, i - 1);
    }
  }

  predicate PairNamed(list: seq<Pair>, i: int, key: string) {
    0 <= i < |list| && EqualIgnoringCase(list[i].name, key)
  }

  predicate HasName(list: seq<Pair>, key: string) {
    exists i :: 0 <= i < |list| && PairNamed(list, i, key)
  }

  /** The browser profile's Get: the value of the first entry whose name
      matches key in any letter case, or "" when none does. */
  function OrderedGet(list: seq<Pair>, key: string): (v: string)
    ensures !HasName(list, key) ==> v == ""
    ensures v != "" ==> exists i :: PairNamed(list, i, key) && list[i].value == v
  {
    if list == [] then ""
    else if EqualIgnoringCase(list[0].name, key) then
      assert PairNamed(list, 0, key);
      list[0].value
    else
      var v := OrderedGet(list[1..], key);
      assert forall i :: PairNamed(list[1..], i, key) ==> PairNamed(list, i + 1, key);
      v
  }

  /** A lookup on a concatenation is answered by the left part whenever the
      left part has the name at all. */
  lemma {:induction false} OrderedGetConcat(a: seq<Pair>, b: seq<Pair>, key: string)
    ensures OrderedGet(a + b, key) == if HasName(a, key) then OrderedGet(a, key) else OrderedGet(b, key)
  {
    if a != [] {
      assert (a + b)[1..] == a[1..] + b;
      OrderedGetConcat(a[1..], b, key);
      if !EqualIgnoringCase(a[0].name, key) {
        if HasName(a, key) {
          var i :| 0 <= i < |a| && PairNamed(a, i, key);
          assert i != 0;
          assert a[1..][i - 1] == a[i];
          assert PairNamed(a[1..], i - 1, key);
        }
        if HasName(a[1..], key) {
          var i :| 0 <= i < |a[1..]| && PairNamed(a[1..], i, key);
          assert a[1..][i] == a[i + 1];
          assert PairNamed(a, i + 1, key);
        }
      } else {
        assert PairNamed(a, 0, key);
      }
    } else {
      assert a + b == b;
    }
  }

  /** The lookup depends on the key only up to letter case; in particular
      looking up strings.ToLower(k) is looking up k. */
  lemma {:induction false} OrderedGetFold(list: seq<Pair>, k1: string, k2: string)
    requires EqualIgnoringCase(k1, k2)
    ensures OrderedGet(list, k1) == OrderedGet(list, k2)
    ensures HasName(list, k1) == HasName(list, k2)
  {
    if list != [] {
      OrderedGetFold(list[1..], k1, k2);
    }
    assert forall i :: PairNamed(list, i, k1) <==> PairNamed(list, i, k2);
  }

  lemma LowerKey(list: seq<Pair>, k: string)
    ensures OrderedGet(list, Lower(k)) == OrderedGet(list, k)
    ensures HasName(list, Lower(k)) == HasName(list, k)
  {
    LowerIdempotent(k);
    OrderedGetFold(list, Lower(k), k);
  }

  predicate AllValuesNonEmpty(list: seq<Pair>) {
    forall i :: 0 <= i < |list| ==> list[i].value != ""
  }

  /** When no entry has an empty value, Get is non-empty exactly when the name is present. */
  lemma {:induction false} OrderedGetPresent(list: seq<Pair>, key: string)
    requires AllValuesNonEmpty(list)
    ensures OrderedGet(list, key) != "" <==> HasName(list, key)
  {
    if list != [] {
      assert AllValuesNonEmpty(list[1..]);
      OrderedGetPresent(list[1..], key);
      if !EqualIgnoringCase(list[0].name, key) && HasName(list, key) {
        var i :| 0 <= i < |list| && PairNamed(list, i, key);
        assert i != 0;
        assert list[1..][i - 1] == list[i];
        assert PairNamed(list[1..], i - 1, key);
      }
    }
  }
}
