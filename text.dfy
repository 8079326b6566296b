/** String operations the upload service applies to extensions: Python's
    `str.lower()` (restricted to ASCII, see README) and `str.lstrip('.')`,
    and the normalisation `s.lower().lstrip('.')` built from them.

    The functions carry only quantifier-free contracts; what they do
    character by character is stated in the lemmas that follow each one. */
module Text {

  predicate IsUpper(c: char) {
    'A' <= c <= 'Z'
  }

  /** No ASCII upper-case letter occurs in `s`. */
  predicate IsLowerCase(s: string) {
    forall i :: 0 <= i < |s| ==> !IsUpper(s[i])
  }

  /** Every character of `s` is a dot. */
  predicate AllDots(s: string) {
    forall i :: 0 <= i < |s| ==> s[i] == '.'
  }

  /** Lower-cases one ASCII letter and leaves every other character alone. */
  function LowerChar(c: char): (r: char)
    ensures !IsUpper(r)
    ensures !IsUpper(c) ==> r == c
    ensures IsUpper(c) ==> r as int - c as int == 32
  {
    if IsUpper(c) then (c as int + 32) as char else c
  }

  /** `s.lower()`. */
  function Lower(s: string): (r: string)
    ensures |r| == |s|
  {
    if s == [] then [] else [LowerChar(s[0])] + Lower(s[1..])
  }

  /** `s.lower()` lower-cases each character in place, so no upper-case
      letter is left. */
  lemma {:induction false} LowerSpec(s: string)
    ensures forall i :: 0 <= i < |s| ==> Lower(s)[i] == LowerChar(s[i])
    ensures IsLowerCase(Lower(s))
  {
    if s != [] {
      LowerSpec(s[1..]);
      assert forall i :: 1 <= i < |s| ==> Lower(s)[i] == Lower(s[1..])[i - 1];
    }
  }

  /** A lower-case string is its own lower-case form. */
  lemma {:induction false} LowerOfLowerCase(s: string)
    requires IsLowerCase(s)
    ensures Lower(s) == s
  {
    if s != [] {
      LowerOfLowerCase(s[1..]);
    }
  }

  /** `s.lstrip('.')`. */
  function StripLeadingDots(s: string): (r: string)
    ensures |r| <= |s|
    ensures r == [] || r[0] != '.'
  {
    if s != [] && s[0] == '.' then StripLeadingDots(s[1..]) else s
  }

  /** What `s.lstrip('.')` leaves is a suffix of `s`, and everything cut
      off was a dot. */
  lemma {:induction false} StripLeadingDotsSpec(s: string)
    ensures var r := StripLeadingDots(s);
      r == s[|s| - |r|..] && AllDots(s[..|s| - |r|])
  {
    if s != [] && s[0] == '.' {
      StripLeadingDotsSpec(s[1..]);
      var r := StripLeadingDots(s);
      assert s[..|s| - |r|] == [s[0]] + s[1..][..|s| - 1 - |r|];
    }
  }

  /** `s.lower().lstrip('.')`, the normalisation applied to the `file_type`
      and `convert_to` fields. */
  function Normalize(s: string): (r: string)
    ensures r == [] || r[0] != '.'
    ensures |r| <= |s|
  {
    StripLeadingDots(Lower(s))
  }

  /** The normal form has no upper-case letter. */
  lemma NormalizeLowerCase(s: string)
    ensures IsLowerCase(Normalize(s))
  {
    var l := Lower(s);
    LowerSpec(s);
    StripLeadingDotsSpec(l);
  }

  /** Lower-casing never creates or removes a dot, so it commutes with
      stripping leading dots: the filename branch, which strips first and
      lower-cases second, normalises exactly as the `file_type` branch does. */
  lemma {:induction false} LowerStripCommute(s: string)
    ensures StripLeadingDots(Lower(s)) == Lower(StripLeadingDots(s))
  {
    if s != [] {
      assert Lower(s) == [LowerChar(s[0])] + Lower(s[1..]);
      assert Lower(s)[1..] == Lower(s[1..]);
      if s[0] == '.' {
        LowerStripCommute(s[1..]);
      }
    }
  }

  /** A non-empty lower-case string without a leading dot is its own
      normal form. */
  lemma NormalizeNormalForm(s: string)
    requires s != [] && s[0] != '.' && IsLowerCase(s)
    ensures Normalize(s) == s
  {
    LowerOfLowerCase(s);
  }

  /** Normalising twice is normalising once. */
  lemma NormalizeIdempotent(s: string)
    ensures Normalize(Normalize(s)) == Normalize(s)
  {
    var n := Normalize(s);
    NormalizeLowerCase(s);
    LowerOfLowerCase(n);
  }

  /** The normal form of a string is empty exactly when the string is made of
      dots only (the empty string included). */
  lemma NormalizeEmpty(s: string)
    ensures Normalize(s) == [] <==> AllDots(s)
  {
    var l := Lower(s);
    LowerSpec(s);
    StripLeadingDotsSpec(l);
    assert forall i :: 0 <= i < |s| ==> (l[i] == '.' <==> s[i] == '.');
    if Normalize(s) != [] {
      var k := |l| - |Normalize(s)|;
      assert l[k] != '.';
    } else {
      assert l[..|l|] == l;
    }
  }
}
