/**
 * The name a download is saved under: every code unit other than an ASCII
 * letter or digit becomes `_`, the result is lower-cased, and an empty
 * result falls back to `qrcode`.
 *
 * The pattern `/[^a-z0-9]/gi` has no `u` flag, so it matches single UTF-16
 * code units, and its case-insensitive matching never maps a non-ASCII code
 * unit onto an ASCII letter: exactly the non-alphanumeric ASCII units and
 * every non-ASCII unit (each half of a surrogate pair included) are replaced.
 */
module FileName {
  import opened JsText

  const Underscore: CodeUnit := 0x5F

  predicate IsAsciiDigit(u: CodeUnit) { 0x30 <= u <= 0x39 }

  predicate IsAsciiUpper(u: CodeUnit) { 0x41 <= u <= 0x5A }

  predicate IsAsciiLower(u: CodeUnit) { 0x61 <= u <= 0x7A }

  predicate IsAsciiAlphanumeric(u: CodeUnit)
  {
    IsAsciiDigit(u) || IsAsciiUpper(u) || IsAsciiLower(u)
  }

  /** The code units a cleaned name is made of: lower-case ASCII letters,
      digits and `_`. */
  predicate IsSafeUnit(u: CodeUnit)
  {
    IsAsciiDigit(u) || IsAsciiLower(u) || u == Underscore
  }

  predicate IsSafe(s: JsString)
  {
    forall i :: 0 <= i < |s| ==> IsSafeUnit(s[i])
  }

  /** What `toLowerCase` does to one ASCII code unit. */
  function LowerUnit(u: CodeUnit): CodeUnit
  {
    if IsAsciiUpper(u) then (u as int + 0x20) as CodeUnit else u
  }

  /** `replace(/[^a-z0-9]/gi, '_')`, scanning left to right. */
  function ReplaceDisallowed(s: JsString): (r: JsString)
    ensures |r| == |s|
    ensures forall i :: 0 <= i < |s| ==> (r[i] == Underscore <==> !IsAsciiAlphanumeric(s[i]))
    ensures forall i :: 0 <= i < |s| && IsAsciiAlphanumeric(s[i]) ==> r[i] == s[i]
  {
    if |s| == 0 then []
    else [if IsAsciiAlphanumeric(s[0]) then s[0] else Underscore] + ReplaceDisallowed(s[1..])
  }

  /** `toLowerCase` on a string of ASCII letters, digits and `_`, the only
      strings it is applied to here. */
  function ToLowerCase(s: JsString): (r: JsString)
    requires forall i :: 0 <= i < |s| ==> IsAsciiAlphanumeric(s[i]) || s[i] == Underscore
    ensures |r| == |s| && IsSafe(r)
    ensures forall i :: 0 <= i < |s| ==> r[i] == LowerUnit(s[i])
  {
    if |s| == 0 then []
    else
      var rest := ToLowerCase(s[1..]);
      assert IsAsciiAlphanumeric(s[0]) || s[0] == Underscore;
      assert IsSafeUnit(LowerUnit(s[0]));
      assert forall i :: 1 <= i <= |rest| ==> ([LowerUnit(s[0])] + rest)[i] == rest[i - 1];
      [LowerUnit(s[0])] + rest
  }

  /** The cleaned file name (`|| 'qrcode'` replaces the empty string). */
  function CleanFileName(s: JsString): JsString
  {
    var r := ToLowerCase(ReplaceDisallowed(s));
    if |r| == 0 then Lit("qrcode") else r
  }

  /** The cleaned name is never empty and is made of safe units only; an
      empty name gives `qrcode`; any other name keeps its length, and each
      position holds `_` exactly where the name had no ASCII letter or digit,
      and that letter or digit in lower case otherwise. */
  lemma CleanFileNameUnits(s: JsString)
    ensures |CleanFileName(s)| > 0 && IsSafe(CleanFileName(s))
    ensures |s| == 0 ==> CleanFileName(s) == Lit("qrcode")
    ensures |s| > 0 ==> |CleanFileName(s)| == |s|
    ensures |s| > 0 ==> forall i :: 0 <= i < |s| ==>
      (CleanFileName(s)[i] == Underscore <==> !IsAsciiAlphanumeric(s[i]))
    ensures |s| > 0 ==> forall i :: 0 <= i < |s| && IsAsciiAlphanumeric(s[i]) ==>
      CleanFileName(s)[i] == LowerUnit(s[i])
  {
    var q := Lit("qrcode");
    assert q == [0x71, 0x72, 0x63, 0x6F, 0x64, 0x65];
  }

  /** A name is left as it is exactly when it is already clean: not empty
      and made of safe units. */
  lemma CleanFileNameFixedPoint(s: JsString)
    ensures CleanFileName(s) == s <==> |s| > 0 && IsSafe(s)
  {
    CleanFileNameUnits(s);
    if |s| > 0 && IsSafe(s) {
      var c := CleanFileName(s);
      forall i | 0 <= i < |s| ensures c[i] == s[i] {
        if IsAsciiAlphanumeric(s[i]) {
          assert c[i] == LowerUnit(s[i]);
        }
      }
    }
  }

  /** Cleaning twice is cleaning once. */
  lemma CleanFileNameIdempotent(s: JsString)
    ensures CleanFileName(CleanFileName(s)) == CleanFileName(s)
  {
    CleanFileNameUnits(s);
    CleanFileNameFixedPoint(CleanFileName(s));
  }

  /** `My QR!` is saved as `my_qr_`. */
  lemma CleanFileNameExample()
    ensures CleanFileName(Lit("My QR!")) == Lit("my_qr_")
  {
    var s: JsString := [0x4D, 0x79, 0x20, 0x51, 0x52, 0x21];
    assert Lit("My QR!") == s;
    var r := ReplaceDisallowed(s);
    assert r[2] == Underscore && r[5] == Underscore;
    assert r == [0x4D, 0x79, 0x5F, 0x51, 0x52, 0x5F];
    var l := ToLowerCase(r);
    assert l[0] == LowerUnit(r[0]) && l[3] == LowerUnit(r[3]) && l[4] == LowerUnit(r[4]);
    assert l == [0x6D, 0x79, 0x5F, 0x71, 0x72, 0x5F];
    assert Lit("my_qr_") == l;
  }
}
