/** SetHeaders (main.go:166-192): the outbound ordered header list is the
    browser profile followed by those inbound headers that are neither
    control headers nor already answered by the list built so far. */
module Merge {
  import opened Text
  import opened Headers

  /** The entry SetHeaders appends for an inbound field: its name and first value. */
  function Entry(h: Field): Pair
    requires |h.values| > 0
  {
    Pair(h.name, h.values[0])
  }

  /** Whether the merge appends h to the list acc built so far. */
  predicate Appends(c: ControlNames, acc: seq<Pair>, h: Field) {
    !IsReserved(c, h.name) && OrderedGet(acc, Lower(h.name)) == ""
  }

  /** The list after visiting the inbound fields hs in order, starting from
      the profile. */
  function Merged(profile: seq<Pair>, c: ControlNames, hs: seq<Field>): (r: seq<Pair>)
    requires HasValues(hs)
    ensures profile <= r
    ensures |r| <= |profile| + |hs|
    ensures forall j :: |profile| <= j < |r| ==> !IsReserved(c, r[j].name)
    ensures forall j :: |profile| <= j < |r| ==> exists i :: 0 <= i < |hs| && r[j] == Entry(hs[i])
  {
    if hs == [] then profile
    else
      var front := hs[..|hs| - 1];
      var acc := Merged(profile, c, front);
      var h := hs[|hs| - 1];
      assert forall i :: 0 <= i < |front| ==> front[i] == hs[i];
      if Appends(c, acc, h) then acc + [Entry(h)] else acc
  }

  method SetHeaders(profile: seq<Pair>, c: ControlNames, headers: seq<Field>) returns (ordered: seq<Pair>)
    requires HasValues(headers)
    ensures ordered == Merged(profile, c, headers)
    ensures profile <= ordered
    ensures forall j :: |profile| <= j < |ordered| ==> !IsReserved(c, ordered[j].name)
  {
    var browserHeaders := profile;
    var customHeaderNames := Reserved(c);
    label Outer:
    for n := 0 to |headers|
      invariant browserHeaders == Merged(profile, c, headers[..n])
    {
      assert headers[..n + 1][..n] == headers[..n];
      var k, v := headers[n].name, headers[n].values;
      for m := 0 to |customHeaderNames|
        invariant forall m' :: 0 <= m' < m ==> !EqualIgnoringCase(customHeaderNames[m'], k)
      {
        if Lower(customHeaderNames[m]) == Lower(k) {
          continue Outer;
        }
      }
      var exist := OrderedGet(browserHeaders, Lower(k)) != "";
      if !exist {
        browserHeaders := browserHeaders + [Pair(k, v[0])];
      }
    }
    assert headers[..|headers|] == headers;
    ordered := browserHeaders;
  }

  /** Every appended entry was appended because nothing before it answered
      its name: a name the list already yields a value for is never added
      again. */
  lemma {:induction false} AppendedWereAbsent(profile: seq<Pair>, c: ControlNames, hs: seq<Field>, j: int)
    requires HasValues(hs)
    requires |profile| <= j < |Merged(profile, c, hs)|
    ensures OrderedGet(Merged(profile, c, hs)[..j], Merged(profile, c, hs)[j].name) == ""
  {
    var r := Merged(profile, c, hs);
    var acc := Merged(profile, c, hs[..|hs| - 1]);
    var h := hs[|hs| - 1];
    if j < |acc| {
      AppendedWereAbsent(profile, c, hs[..|hs| - 1], j);
      assert r[..j] == acc[..j] && r[j] == acc[j];
    } else {
      assert r == acc + [Entry(h)] && r[..j] == acc;
      LowerKey(acc, h.name);
    }
  }

  /** A profile header that has a value is never duplicated by inbound input:
      no appended entry carries its name in any letter case. */
  lemma ProfileNamesNotDuplicated(profile: seq<Pair>, c: ControlNames, hs: seq<Field>, name: string, j: int)
    requires HasValues(hs)
    requires OrderedGet(profile, name) != ""
    requires |profile| <= j < |Merged(profile, c, hs)|
    ensures !EqualIgnoringCase(Merged(profile, c, hs)[j].name, name)
  {
    var r := Merged(profile, c, hs);
    AppendedWereAbsent(profile, c, hs, j);
    if EqualIgnoringCase(r[j].name, name) {
      OrderedGetFold(r[..j], r[j].name, name);
      assert r[..j] == profile + r[|profile|..j];
      OrderedGetConcat(profile, r[|profile|..j], name);
      assert false;
    }
  }

  /** The inbound fields, taken as distinct names the way a Go header map holds them. */
  predicate DistinctNames(hs: seq<Field>) {
    forall i, j :: 0 <= i < j < |hs| ==> !EqualIgnoringCase(hs[i].name, hs[j].name)
  }

  /** The profile-only reading of the merge: keep, in order, the non-control
      fields whose name the profile does not answer. */
  function Tail(profile: seq<Pair>, c: ControlNames, hs: seq<Field>): (t: seq<Pair>)
    requires HasValues(hs)
    ensures forall j :: 0 <= j < |t| ==> exists i :: 0 <= i < |hs| && EqualIgnoringCase(t[j].name, hs[i].name)
  {
    if hs == [] then []
    else
      var front := hs[..|hs| - 1];
      var t := Tail(profile, c, front);
      var h := hs[|hs| - 1];
      assert forall i :: 0 <= i < |front| ==> front[i] == hs[i];
      if !IsReserved(c, h.name) && OrderedGet(profile, h.name) == "" then t + [Entry(h)] else t
  }

  /** Under distinct names, the last field's name is not among the earlier ones' entries. */
  lemma LastNameFresh(profile: seq<Pair>, c: ControlNames, hs: seq<Field>)
    requires HasValues(hs) && DistinctNames(hs) && hs != []
    ensures !HasName(Tail(profile, c, hs[..|hs| - 1]), hs[|hs| - 1].name)
  {
  }

  /** With distinct inbound names, what the merge appends is decided by the
      profile alone: it is exactly the Tail filter. */
  lemma {:induction false} MergedIsProfileThenTail(profile: seq<Pair>, c: ControlNames, hs: seq<Field>)
    requires HasValues(hs) && DistinctNames(hs)
    ensures Merged(profile, c, hs) == profile + Tail(profile, c, hs)
  {
    if hs != [] {
      var front := hs[..|hs| - 1];
      var h := hs[|hs| - 1];
      assert DistinctNames(front);
      MergedIsProfileThenTail(profile, c, front);
      var t := Tail(profile, c, front);
      var acc := Merged(profile, c, front);
      assert acc == profile + t;
      LastNameFresh(profile, c, hs);
      OrderedGetConcat(profile, t, h.name);
      LowerKey(acc, h.name);
      assert OrderedGet(acc, Lower(h.name)) == OrderedGet(profile, h.name);
      assert Appends(c, acc, h) == (!IsReserved(c, h.name) && OrderedGet(profile, h.name) == "");
    }
  }

  /** Each distinct-named inbound field is appended exactly when it is not a
      control header and the profile does not answer its name. */
  lemma {:induction false} TailMembership(profile: seq<Pair>, c: ControlNames, hs: seq<Field>, i: int)
    requires HasValues(hs) && DistinctNames(hs)
    requires 0 <= i < |hs|
    ensures Entry(hs[i]) in Tail(profile, c, hs) <==> !IsReserved(c, hs[i].name) && OrderedGet(profile, hs[i].name) == ""
  {
    var front := hs[..|hs| - 1];
    var h := hs[|hs| - 1];
    var t := Tail(profile, c, front);
    assert DistinctNames(front);
    if i < |hs| - 1 {
      TailMembership(profile, c, front, i);
      assert front[i] == hs[i];
      if Entry(h) == Entry(hs[i]) {
        assert false;
      }
    }
  }

  /** When every profile value and every inbound first value is non-empty,
      each non-control inbound name is answered by the merged list. */
  lemma {:induction false} MergedAnswers(profile: seq<Pair>, c: ControlNames, hs: seq<Field>, i: int)
    requires HasValues(hs) && AllValuesNonEmpty(profile)
    requires forall k :: 0 <= k < |hs| ==> hs[k].values[0] != ""
    requires 0 <= i < |hs| && !IsReserved(c, hs[i].name)
    ensures HasName(Merged(profile, c, hs), hs[i].name)
  {
    var front := hs[..|hs| - 1];
    var h := hs[|hs| - 1];
    var acc := Merged(profile, c, front);
    var r := Merged(profile, c, hs);
    assert acc <= r;
    if i < |hs| - 1 {
      MergedAnswers(profile, c, front, i);
      var j :| 0 <= j < |acc| && PairNamed(acc, j, front[i].name);
      assert PairNamed(r, j, hs[i].name);
    } else if Appends(c, acc, h) {
      assert PairNamed(r, |acc|, h.name);
    } else {
      LowerKey(acc, h.name);
      assert HasName(acc, h.name);
      var j :| 0 <= j < |acc| && PairNamed(acc, j, h.name);
      assert PairNamed(r, j, h.name);
    }
  }

  lemma {:induction false} MergedValuesNonEmpty(profile: seq<Pair>, c: ControlNames, hs: seq<Field>)
    requires HasValues(hs) && AllValuesNonEmpty(profile)
    requires forall k :: 0 <= k < |hs| ==> hs[k].values[0] != ""
    ensures AllValuesNonEmpty(Merged(profile, c, hs))
  {
    if hs != [] {
      MergedValuesNonEmpty(profile, c, hs[..|hs| - 1]);
    }
  }

  /** Merging from a list that already answers every non-control inbound
      name adds nothing. */
  lemma {:induction false} MergedUnchanged(q: seq<Pair>, c: ControlNames, hs: seq<Field>, all: seq<Field>)
    requires HasValues(all) && hs <= all
    requires forall i :: 0 <= i < |all| && !IsReserved(c, all[i].name) ==> OrderedGet(q, all[i].name) != ""
    ensures Merged(q, c, hs) == q
  {
    if hs != [] {
      MergedUnchanged(q, c, hs[..|hs| - 1], all);
      var h := hs[|hs| - 1];
      assert h == all[|hs| - 1];
      LowerKey(q, h.name);
    }
  }

  /** Merging the same inbound headers a second time changes nothing, provided
      no value involved is empty. */
  lemma MergeIdempotent(profile: seq<Pair>, c: ControlNames, hs: seq<Field>)
    requires HasValues(hs) && AllValuesNonEmpty(profile)
    requires forall k :: 0 <= k < |hs| ==> hs[k].values[0] != ""
    ensures Merged(Merged(profile, c, hs), c, hs) == Merged(profile, c, hs)
  {
    var r := Merged(profile, c, hs);
    MergedValuesNonEmpty(profile, c, hs);
    forall i | 0 <= i < |hs| && !IsReserved(c, hs[i].name) ensures OrderedGet(r, hs[i].name) != "" {
      MergedAnswers(profile, c, hs, i);
      OrderedGetPresent(r, hs[i].name);
    }
    MergedUnchanged(r, c, hs, hs);
  }
}
