/** Valid custom element names (src/custom-elements-registry.js:45-70).

    A name is valid when it is not one of eight names reserved by SVG and
    MathML and when the pattern `[a-z][-.0-9a-z_]*-[-.0-9a-z_]*$` matches it.
    The pattern is anchored at the end only, so it matches when SOME suffix of
    the name starts with a lower-case ASCII letter, consists of characters of
    the class `[-.0-9a-z_]` after that letter, and contains a hyphen after it.
    Section 4.13.3 of the HTML Living Standard anchors the pattern at the start
    as well; the model keeps the code's behaviour.
 */
module Names {

  const ReservedNames: seq<string> := [
    "annotation-xml",
    "color-profile",
    "font-face",
    "font-face-src",
    "font-face-uri",
    "font-face-format",
    "font-face-name",
    "missing-glyph"
  ]

  predicate IsLowerAlpha(c: char) {
    'a' <= c <= 'z'
  }

  /** The character class `[-.0-9a-z_]`. */
  predicate InNameClass(c: char) {
    c == '-' || c == '.' || ('0' <= c <= '9') || IsLowerAlpha(c) || c == '_'
  }

  /** The pattern matches starting at index `i`. */
  predicate MatchesAt(s: string, i: int)
    requires 0 <= i < |s|
  {
    && IsLowerAlpha(s[i])
    && (forall j | i < j < |s| :: InNameClass(s[j]))
    && (exists j | i < j < |s| :: s[j] == '-')
  }

  /** `validNameRegex.test(s)`: the end-anchored pattern matches somewhere. */
  predicate ValidNameRegexTest(s: string) {
    exists i | 0 <= i < |s| :: MatchesAt(s, i)
  }

  /** `isValidCustomElementName`: not reserved, and the pattern matches. The
      end anchor shows in the result: a valid name ends in a class character
      and contains a hyphen. */
  function IsValidCustomElementName(name: string): (r: bool)
    ensures name in ReservedNames ==> !r
    ensures r ==> |name| >= 2 && InNameClass(name[|name| - 1]) && '-' in name
  {
    if name !in ReservedNames && ValidNameRegexTest(name) then
      MatchEndsInClass(name);
      true
    else false
  }

  /** A match runs to the end of the string and passes a hyphen. */
  lemma MatchEndsInClass(s: string)
    requires ValidNameRegexTest(s)
    ensures |s| >= 2 && InNameClass(s[|s| - 1]) && '-' in s
  {
    var i :| 0 <= i < |s| && MatchesAt(s, i);
    var j :| i < j < |s| && s[j] == '-';
    assert s[j] in s;
  }

  /** The regex test decided in one right-to-left pass: walk back over the
      trailing run of class characters, remembering whether a hyphen has been
      passed, and stop at the first lower-case letter that has a hyphen after it. */
  method TestValidNameRegex(s: string) returns (matched: bool)
    ensures matched <==> ValidNameRegexTest(s)
  {
    var j := |s|;
    var dashSeen := false;
    matched := false;
    while j > 0 && InNameClass(s[j - 1]) && !matched
      invariant 0 <= j <= |s|
      invariant forall k | j <= k < |s| :: InNameClass(s[k])
      invariant dashSeen <==> exists k | j <= k < |s| :: s[k] == '-'
      invariant matched ==> j < |s| && MatchesAt(s, j)
      invariant !matched ==> forall i | j <= i < |s| :: !MatchesAt(s, i)
      decreases j
    {
      j := j - 1;
      if IsLowerAlpha(s[j]) && dashSeen {
        matched := true;
      }
      if s[j] == '-' {
        dashSeen := true;
      }
    }
    if !matched && j > 0 {
      // s[j - 1] is outside the class, so no match can start before j
      forall i | 0 <= i < j
        ensures !MatchesAt(s, i)
      {
        if i < j - 1 {
          assert !InNameClass(s[j - 1]);
        }
      }
    }
  }

  /** A match at `i` is witnessed by a hyphen at `j`. */
  lemma MatchWitness(s: string, i: int, j: int)
    requires 0 <= i < j < |s|
    requires IsLowerAlpha(s[i]) && s[j] == '-'
    requires forall k | i < k < |s| :: InNameClass(s[k])
    ensures MatchesAt(s, i) && ValidNameRegexTest(s)
  {
  }

  /** Every reserved name matches the pattern, so it is the reserved list, and
      not the pattern, that rejects them. */
  lemma ReservedNameMatchesPattern(k: int)
    requires 0 <= k < |ReservedNames|
    ensures ValidNameRegexTest(ReservedNames[k])
    ensures !IsValidCustomElementName(ReservedNames[k])
  {
    var s := ReservedNames[k];
    var hyphen := if k == 0 then 10 else if k == 1 then 5 else if k == 7 then 7 else 4;
    assert forall j | 0 < j < |s| :: InNameClass(s[j]);
    MatchWitness(s, 0, hyphen);
  }

  /** A valid name contains a hyphen and a lower-case letter. */
  lemma ValidNameShape(name: string)
    requires IsValidCustomElementName(name)
    ensures '-' in name
    ensures exists i | 0 <= i < |name| :: IsLowerAlpha(name[i])
  {
    var i :| 0 <= i < |name| && MatchesAt(name, i);
    var j :| i < j < |name| && name[j] == '-';
    assert name[j] in name;
  }

  /** Because the pattern is not anchored at the start, anything may precede a
      matching suffix: the test never looks at a prefix. */
  lemma {:induction false} RegexIgnoresPrefix(p: string, s: string)
    requires ValidNameRegexTest(s)
    ensures ValidNameRegexTest(p + s)
  {
    var i :| 0 <= i < |s| && MatchesAt(s, i);
    var t := p + s;
    var j :| i < j < |s| && s[j] == '-';
    assert t[|p| + j] == '-';
    forall k | |p| + i < k < |t|
      ensures InNameClass(t[k])
    {
      assert t[k] == s[k - |p|];
    }
    assert MatchesAt(t, |p| + i);
  }

  /** Names the code accepts although section 4.13.3 of the HTML Living
      Standard requires a valid name to start with a lower-case letter. */
  lemma UnanchoredStartAccepted()
    ensures IsValidCustomElementName("1x-y")
    ensures IsValidCustomElementName("-a-b")
    ensures IsValidCustomElementName("X-x-y")
  {
    MatchWitness("1x-y", 1, 2);
    MatchWitness("-a-b", 1, 2);
    MatchWitness("X-x-y", 2, 3);
  }

  /** ASCII lower-casing of one character. */
  function LowerChar(c: char): (r: char)
    ensures 'A' <= c <= 'Z' ==> r as int == c as int + 32
    ensures !('A' <= c <= 'Z') ==> r == c
  {
    if 'A' <= c <= 'Z' then (c as int + 32) as char else c
  }

  /** `String.prototype.toLowerCase`, restricted to ASCII letters. */
  function AsciiLower(s: string): (r: string)
    ensures |r| == |s|
    ensures forall i | 0 <= i < |r| :: !('A' <= r[i] <= 'Z')
    ensures forall i | 0 <= i < |s| && !('A' <= s[i] <= 'Z') :: r[i] == s[i]
    ensures forall i | 0 <= i < |s| && 'A' <= s[i] <= 'Z' :: r[i] as int == s[i] as int + 32
  {
    seq(|s|, i requires 0 <= i < |s| => LowerChar(s[i]))
  }

  /** Lower-casing twice is lower-casing once. */
  lemma AsciiLowerIdempotent(s: string)
    ensures AsciiLower(AsciiLower(s)) == AsciiLower(s)
  {
  }

  /** `define` lower-cases before validating but `whenDefined` does not: a
      mixed-case name is accepted by the first and rejected by the second. */
  lemma CaseSensitivityGap()
    ensures !IsValidCustomElementName("x-Foo")
    ensures AsciiLower("x-Foo") == "x-foo"
    ensures IsValidCustomElementName("x-foo")
  {
    MatchWitness("x-foo", 0, 1);
    var s := "x-Foo";
    forall i | 0 <= i < |s|
      ensures !MatchesAt(s, i)
    {
      if i < 2 {
        assert !InNameClass(s[2]);
      }
    }
  }
}
