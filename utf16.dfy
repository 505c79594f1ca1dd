/**
 * The conversion of a JavaScript string to a sequence of Unicode scalar
 * values (WebIDL's USVString conversion, which `URLSearchParams.append`
 * applies to its arguments), and the UTF-16 encoding that goes back.
 * Dafny's `char` is a Unicode scalar value, so a `string` here is a USVString.
 */
module Utf16 {
  import opened JsText

  predicate IsHighSurrogate(u: CodeUnit) { 0xD800 <= u <= 0xDBFF }

  predicate IsLowSurrogate(u: CodeUnit) { 0xDC00 <= u <= 0xDFFF }

  predicate IsSurrogate(u: CodeUnit) { 0xD800 <= u <= 0xDFFF }

  /** The scalar value a surrogate pair stands for. */
  function Combine(hi: CodeUnit, lo: CodeUnit): (c: char)
    requires IsHighSurrogate(hi) && IsLowSurrogate(lo)
    ensures 0x1_0000 <= c as int <= 0x10_FFFF
  {
    (0x1_0000 + (hi as int - 0xD800) * 0x400 + (lo as int - 0xDC00)) as char
  }

  /** The scalar values of `s`: a surrogate pair becomes the scalar it
      encodes, a surrogate without its partner becomes U+FFFD, and every
      other code unit stands for itself. */
  function ToScalars(s: JsString): string
    decreases |s|
  {
    if |s| == 0 then []
    else if |s| >= 2 && IsHighSurrogate(s[0]) && IsLowSurrogate(s[1]) then
      [Combine(s[0], s[1])] + ToScalars(s[2..])
    else if IsSurrogate(s[0]) then
      ['\U{FFFD}'] + ToScalars(s[1..])
    else
      [(s[0] as int) as char] + ToScalars(s[1..])
  }

  /** The UTF-16 code units of one scalar value. */
  function UnitsOf(c: char): JsString
  {
    if c as int < 0x1_0000 then [(c as int) as CodeUnit]
    else
      var v := c as int - 0x1_0000;
      [(0xD800 + v / 0x400) as CodeUnit, (0xDC00 + v % 0x400) as CodeUnit]
  }

  /** UTF-16 encoding of a sequence of scalar values. */
  function FromScalars(cs: string): JsString
  {
    if |cs| == 0 then [] else UnitsOf(cs[0]) + FromScalars(cs[1..])
  }

  /** Every high surrogate is followed by a low one and every low surrogate
      follows a high one: the strings whose conversion loses nothing. */
  predicate WellFormed(s: JsString)
  {
    && (forall i :: 0 <= i < |s| && IsHighSurrogate(s[i]) ==> i + 1 < |s| && IsLowSurrogate(s[i + 1]))
    && (forall i :: 0 <= i < |s| && IsLowSurrogate(s[i]) ==> 0 < i && IsHighSurrogate(s[i - 1]))
  }

  /** Converting the UTF-16 encoding of scalar values gives them back. */
  lemma {:induction false} ToScalarsFromScalars(cs: string)
    ensures ToScalars(FromScalars(cs)) == cs
  {
    if |cs| > 0 {
      var c, rest := cs[0], FromScalars(cs[1..]);
      var s := UnitsOf(c) + rest;
      assert FromScalars(cs) == s;
      ToScalarsFromScalars(cs[1..]);
      if c as int < 0x1_0000 {
        assert s[1..] == rest;
      } else {
        assert s[2..] == rest;
        assert Combine(s[0], s[1]) == c;
      }
      assert cs == [c] + cs[1..];
    }
  }

  /** A surrogate pair encodes back to itself. */
  lemma CombineUnits(hi: CodeUnit, lo: CodeUnit)
    requires IsHighSurrogate(hi) && IsLowSurrogate(lo)
    ensures UnitsOf(Combine(hi, lo)) == [hi, lo]
  {
    var v := (hi as int - 0xD800) * 0x400 + (lo as int - 0xDC00);
    assert v / 0x400 == hi as int - 0xD800;
    assert v % 0x400 == lo as int - 0xDC00;
  }

  /** A well-formed string survives the conversion unchanged. */
  lemma {:induction false} FromScalarsToScalars(s: JsString)
    requires WellFormed(s)
    ensures FromScalars(ToScalars(s)) == s
    decreases |s|
  {
    if |s| == 0 {
    } else if |s| >= 2 && IsHighSurrogate(s[0]) && IsLowSurrogate(s[1]) {
      WellFormedSuffix(s, 2);
      FromScalarsToScalars(s[2..]);
      CombineUnits(s[0], s[1]);
      var cs := [Combine(s[0], s[1])] + ToScalars(s[2..]);
      assert cs[0] == Combine(s[0], s[1]) && cs[1..] == ToScalars(s[2..]);
      assert s == [s[0], s[1]] + s[2..];
    } else {
      assert !IsSurrogate(s[0]);
      WellFormedSuffix(s, 1);
      FromScalarsToScalars(s[1..]);
      var cs := [(s[0] as int) as char] + ToScalars(s[1..]);
      assert cs[0] == (s[0] as int) as char && cs[1..] == ToScalars(s[1..]);
      assert s == [s[0]] + s[1..];
    }
  }

  /** Dropping a prefix that does not end in a high surrogate keeps a string
      well formed. */
  lemma WellFormedSuffix(s: JsString, n: nat)
    requires WellFormed(s) && 0 < n <= |s|
    requires !IsHighSurrogate(s[n - 1])
    ensures WellFormed(s[n..])
  {
    var t := s[n..];
    forall i | 0 <= i < |t| && IsLowSurrogate(t[i]) ensures 0 < i && IsHighSurrogate(t[i - 1]) {
      assert t[i] == s[n + i];
    }
  }

  /** Two well-formed strings stay well formed side by side when no pair is
      split across the seam. */
  lemma WellFormedConcat(a: JsString, b: JsString)
    requires WellFormed(a) && WellFormed(b)
    requires |a| > 0 ==> !IsHighSurrogate(a[|a| - 1])
    requires |b| > 0 ==> !IsLowSurrogate(b[0])
    ensures WellFormed(a + b)
  {
    var s := a + b;
    forall i | 0 <= i < |s| && IsHighSurrogate(s[i]) ensures i + 1 < |s| && IsLowSurrogate(s[i + 1]) {
      if i >= |a| {
        assert s[i] == b[i - |a|];
        assert s[i + 1] == b[i + 1 - |a|];
      }
    }
    forall i | 0 <= i < |s| && IsLowSurrogate(s[i]) ensures 0 < i && IsHighSurrogate(s[i - 1]) {
      if i > |a| {
        assert s[i] == b[i - |a|];
        assert s[i - 1] == b[i - 1 - |a|];
      }
    }
  }

  /** One scalar's code units: well formed, not ending in a high surrogate
      and not starting with a low one. */
  lemma UnitsOfWellFormed(c: char)
    ensures WellFormed(UnitsOf(c))
    ensures !IsHighSurrogate(UnitsOf(c)[|UnitsOf(c)| - 1]) && !IsLowSurrogate(UnitsOf(c)[0])
  {
    if c as int >= 0x1_0000 {
      var v := c as int - 0x1_0000;
      assert 0 <= v / 0x400 < 0x400 && 0 <= v % 0x400 < 0x400;
    }
  }

  /** The UTF-16 encoding of scalar values is always well formed. */
  lemma {:induction false} FromScalarsWellFormed(cs: string)
    ensures WellFormed(FromScalars(cs))
    ensures |cs| > 0 ==> !IsLowSurrogate(FromScalars(cs)[0])
  {
    if |cs| > 0 {
      FromScalarsWellFormed(cs[1..]);
      var u, rest := UnitsOf(cs[0]), FromScalars(cs[1..]);
      UnitsOfWellFormed(cs[0]);
      assert FromScalars(cs) == u + rest;
      WellFormedConcat(u, rest);
      assert (u + rest)[0] == u[0];
    }
  }

  /** The conversion loses nothing exactly when the string is well formed:
      a lone surrogate becomes U+FFFD, and encoding that back never gives
      the lone surrogate again. */
  lemma ConversionLosslessIff(s: JsString)
    ensures FromScalars(ToScalars(s)) == s <==> WellFormed(s)
  {
    FromScalarsWellFormed(ToScalars(s));
    if WellFormed(s) {
      FromScalarsToScalars(s);
    }
  }
}
