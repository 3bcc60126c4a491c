/**
 * Django's CharField cleaning of a submitted text value (strip=True, the
 * default): surrounding whitespace, as Python's str.strip() sees it, is
 * removed before the required and max_length checks, and what is left is
 * the value stored.
 */
module CharFields {
  import opened Wrappers

  /** Python's str.isspace() for one character: the characters str.strip() removes. */
  predicate IsSpace(c: char) {
    || ('\U{9}' <= c <= '\U{D}')
    || ('\U{1C}' <= c <= '\U{20}')
    || c == '\U{85}' || c == '\U{A0}' || c == '\U{1680}'
    || ('\U{2000}' <= c <= '\U{200A}')
    || c == '\U{2028}' || c == '\U{2029}' || c == '\U{202F}' || c == '\U{205F}' || c == '\U{3000}'
  }

  predicate AllSpace(s: string) {
    forall i :: 0 <= i < |s| ==> IsSpace(s[i])
  }

  /** Neither end of the string is whitespace. */
  predicate Trimmed(s: string) {
    s == [] || (!IsSpace(s[0]) && !IsSpace(s[|s| - 1]))
  }

  /** The length of the run of whitespace that starts the string. */
  function LeadingSpaces(s: string): (n: nat)
    ensures n <= |s| && AllSpace(s[..n])
    ensures n < |s| ==> !IsSpace(s[n])
  {
    if s == [] || !IsSpace(s[0]) then 0
    else
      var n := 1 + LeadingSpaces(s[1..]);
      assert s[..n] == [s[0]] + s[1..][..n - 1];
      n
  }

  /** The length of the run of whitespace that ends the string. */
  function TrailingSpaces(s: string): (n: nat)
    ensures n <= |s| && AllSpace(s[|s| - n..])
    ensures n < |s| ==> !IsSpace(s[|s| - n - 1])
  {
    if s == [] || !IsSpace(s[|s| - 1]) then 0
    else
      var init := s[..|s| - 1];
      var n := 1 + TrailingSpaces(init);
      assert s[|s| - n..] == init[|init| - (n - 1)..] + [s[|s| - 1]];
      n
  }

  /** str.strip(): the string without the whitespace at either end; none is left at its ends. */
  function Strip(s: string): (t: string)
    ensures Trimmed(t) && |t| <= |s|
  {
    var i := LeadingSpaces(s);
    var rest := s[i..];
    var n := TrailingSpaces(rest);
    var t := rest[..|rest| - n];
    assert t != [] ==> t[0] == s[i] && t[|t| - 1] == rest[|rest| - n - 1];
    t
  }

  /** The string is its stripped form with whitespace on either side: `lead` and `trail`. */
  lemma StripIsInfix(s: string) returns (lead: string, trail: string)
    ensures AllSpace(lead) && AllSpace(trail) && s == lead + Strip(s) + trail
  {
    var i := LeadingSpaces(s);
    var rest := s[i..];
    var n := TrailingSpaces(rest);
    lead, trail := s[..i], rest[|rest| - n..];
    assert Strip(s) == rest[..|rest| - n];
    ThreeParts(s, i, n);
  }

  /** Cutting a string after i characters and again n before its end splits it into three. */
  lemma ThreeParts(s: string, i: nat, n: nat)
    requires i + n <= |s|
    ensures s == s[..i] + s[i..][..|s| - i - n] + s[i..][|s| - i - n..]
  {
  }

  /** Whitespace put in front of a string adds to its leading run. */
  lemma {:induction false} LeadingSpacesAppend(lead: string, rest: string)
    requires AllSpace(lead)
    ensures LeadingSpaces(lead + rest) == |lead| + LeadingSpaces(rest)
  {
    if lead != [] {
      LeadingSpacesAppend(lead[1..], rest);
      assert (lead + rest)[1..] == lead[1..] + rest;
    } else {
      assert lead + rest == rest;
    }
  }

  /** A string ending in whitespace has one more trailing space than the string without its last character. */
  lemma TrailingSpacesStep(s: string)
    requires s != [] && IsSpace(s[|s| - 1])
    ensures TrailingSpaces(s) == 1 + TrailingSpaces(s[..|s| - 1])
  {
  }

  lemma DropLastOfAppend(a: string, b: string)
    requires b != []
    ensures (a + b)[..|a + b| - 1] == a + b[..|b| - 1]
  {
  }

  /** Whitespace put after a string adds to its trailing run. */
  lemma {:induction false} TrailingSpacesAppend(rest: string, trail: string)
    requires AllSpace(trail)
    ensures TrailingSpaces(rest + trail) == TrailingSpaces(rest) + |trail|
  {
    if trail != [] {
      var init := trail[..|trail| - 1];
      var s := rest + trail;
      TrailingSpacesAppend(rest, init);
      assert s[|s| - 1] == trail[|trail| - 1];
      DropLastOfAppend(rest, trail);
      TrailingSpacesStep(s);
    } else {
      assert rest + trail == rest;
    }
  }

  /**
   * Stripping recovers any trimmed string from any whitespace around it, so
   * with StripIsInfix it pins the result of Strip down.
   */
  lemma StripPadded(lead: string, t: string, trail: string)
    requires AllSpace(lead) && Trimmed(t) && AllSpace(trail)
    ensures Strip(lead + t + trail) == t
  {
    var s := lead + t + trail;
    assert s == lead + (t + trail);
    LeadingSpacesAppend(lead, t + trail);
    if t == [] {
      assert t + trail == trail;
      LeadingSpacesAppend(trail, []);
      assert trail + [] == trail;
      assert LeadingSpaces(s) == |s|;
    } else {
      assert (t + trail)[0] == t[0];
      assert LeadingSpaces(s) == |lead|;
      assert s[|lead|..] == t + trail;
      TrailingSpacesAppend(t, trail);
      assert TrailingSpaces(t + trail) == |trail|;
      assert (t + trail)[..|t|] == t;
    }
  }

  /** Stripping twice is stripping once. */
  lemma StripIdempotent(s: string)
    ensures Strip(Strip(s)) == Strip(s)
  {
    StripPadded([], Strip(s), []);
    assert [] + Strip(s) + [] == Strip(s);
  }

  /** A value strips to nothing exactly when it is all whitespace. */
  lemma StripBlank(s: string)
    ensures Strip(s) == [] <==> AllSpace(s)
  {
    if AllSpace(s) {
      StripPadded(s, [], []);
      assert s + [] + [] == s;
    }
  }

  /**
   * CharField.to_python for a submitted text value: the stripped value,
   * with nothing left counting as no value (the form's empty value).
   */
  function CleanText(v: Option<string>): (r: Option<string>)
    ensures r.None? <==> v.None? || AllSpace(v.value)
    ensures r.Some? ==> r.value == Strip(v.value) && r.value != [] && Trimmed(r.value)
  {
    if v.None? then None
    else
      var t := Strip(v.value);
      StripBlank(v.value);
      if t == [] then None else Some(t)
  }
}
