/** String helpers the gateway relies on: ASCII case folding (strings.ToLower),
    the canonical header-key form (textproto.CanonicalMIMEHeaderKey) and
    substring search (strings.Contains). */
module Text {

  /** Lower-cases one ASCII letter; every other character is left alone. */
  function LowerChar(c: char): char {
    if 'A' <= c <= 'Z' then (c as int + 32) as char else c
  }

  /** Upper-cases one ASCII letter; every other character is left alone. */
  function UpperChar(c: char): char {
    if 'a' <= c <= 'z' then (c as int - 32) as char else c
  }

  predicate IsUpperAscii(c: char) {
    'A' <= c <= 'Z'
  }

  /** strings.ToLower, restricted to ASCII letters. */
  function Lower(s: string): (r: string)
    ensures |r| == |s|
    ensures forall i :: 0 <= i < |r| ==> !IsUpperAscii(r[i])
  {
    if s == [] then [] else [LowerChar(s[0])] + Lower(s[1..])
  }

  lemma {:induction false} LowerIdempotent(s: string)
    ensures Lower(Lower(s)) == Lower(s)
  {
    if s != [] {
      LowerIdempotent(s[1..]);
      assert Lower(s)[1..] == Lower(s[1..]);
    }
  }

  /** The comparison the source writes as strings.ToLower(a) == strings.ToLower(b). */
  predicate EqualIgnoringCase(a: string, b: string) {
    Lower(a) == Lower(b)
  }

  /** A byte allowed in an HTTP header field name (an RFC 7230 token character). */
  predicate IsTokenChar(c: char) {
    ('a' <= c <= 'z') || ('A' <= c <= 'Z') || ('0' <= c <= '9') || c in "!#$%&'*+-.^_`|~"
  }

  predicate IsToken(s: string) {
    forall i :: 0 <= i < |s| ==> IsTokenChar(s[i])
  }

  /** The letter-case rewriting of CanonicalMIMEHeaderKey: a letter that starts
      the key or follows '-' is upper-cased, every other letter lower-cased. */
  function CanonicalForm(s: string, upper: bool): string {
    if s == [] then []
    else
      var c := if upper then UpperChar(s[0]) else LowerChar(s[0]);
      [c] + CanonicalForm(s[1..], c == '-')
  }

  lemma {:induction false} CanonicalFormFolds(s: string, upper: bool)
    ensures |CanonicalForm(s, upper)| == |s|
    ensures Lower(CanonicalForm(s, upper)) == Lower(s)
  {
    if s != [] {
      var c := if upper then UpperChar(s[0]) else LowerChar(s[0]);
      assert LowerChar(c) == LowerChar(s[0]);
      CanonicalFormFolds(s[1..], c == '-');
      assert CanonicalForm(s, upper) == [c] + CanonicalForm(s[1..], c == '-');
      assert Lower([c] + CanonicalForm(s[1..], c == '-'))
          == [LowerChar(c)] + Lower(CanonicalForm(s[1..], c == '-'));
    }
  }

  /** The key under which http.Header.Set stores a name: the canonical form
      when every character is a token character, the name unchanged otherwise.
      Either way the key differs from the name only in letter case. */
  function CanonicalKey(s: string): (r: string)
    ensures |r| == |s|
    ensures EqualIgnoringCase(r, s)
  {
    if IsToken(s) then
      CanonicalFormFolds(s, true);
      CanonicalForm(s, true)
    else s
  }

  lemma CanonicalKeyExample()
    ensures CanonicalKey("te") == "Te"
    ensures CanonicalKey("a b") == "a b"
  {
    assert IsToken("te");
    assert !IsTokenChar("a b"[1]);
  }

  predicate HasPrefix(s: string, p: string) {
    |p| <= |s| && s[..|p|] == p
  }

  /** sub occurs in s starting at position i. */
  predicate OccursAt(s: string, sub: string, i: int) {
    0 <= i && i + |sub| <= |s| && s[i..i + |sub|] == sub
  }

  /** strings.Contains: does sub occur in s at some position? */
  function Contains(s: string, sub: string): (r: bool)
    ensures sub == [] ==> r
    ensures |sub| > |s| ==> !r
  {
    if HasPrefix(s, sub) then true
    else if s == [] then false
    else Contains(s[1..], sub)
  }

  /** Contains agrees with the positional definition of an occurrence. */
  lemma {:induction false} ContainsIff(s: string, sub: string)
    ensures Contains(s, sub) <==> exists i :: OccursAt(s, sub, i)
  {
    if HasPrefix(s, sub) {
      assert OccursAt(s, sub, 0);
    } else if s == [] {
      assert |sub| > 0;
    } else {
      ContainsIff(s[1..], sub);
      if exists i :: OccursAt(s, sub, i) {
        var i :| OccursAt(s, sub, i);
        assert i != 0;
        assert OccursAt(s[1..], sub, i - 1);
      }
      if exists j :: OccursAt(s[1..], sub, j) {
        var j :| OccursAt(s[1..], sub, j);
        assert OccursAt(s, sub, j + 1);
      }
    }
  }
}
