/**
 * The executable name the packager gives PyInstaller: the company name with
 * every character other than an alphanumeric, `_` or `-` replaced by `_`,
 * behind the prefix `GuidWire_`.
 */
module Packager {
  import opened Text

  /** The prefix of every executable name. */
  const ExePrefix: string := "GuidWire_"

  /** A character the packager keeps: `c.isalnum() or c in ("_", "-")`. */
  predicate Kept(c: char) {
    IsAlnum(c) || c == '_' || c == '-'
  }

  /**
   * `safe_name`: as long as the company name, made of kept characters only;
   * each kept character stays in place and every other one becomes `_`.
   */
  function SafeName(companyName: string): (r: string)
    ensures |r| == |companyName|
    ensures forall k :: 0 <= k < |r| ==> Kept(r[k])
    ensures forall k :: 0 <= k < |companyName| && Kept(companyName[k]) ==> r[k] == companyName[k]
    ensures forall k :: 0 <= k < |companyName| && !Kept(companyName[k]) ==> r[k] == '_'
  {
    forall c: char ensures IsSafeChar(c) <==> Kept(c) {
      SafeCharIsAlnumUnderscoreOrDash(c);
    }
    Sanitize(companyName)
  }

  /** Sanitising a safe name changes nothing. */
  lemma SafeNameIdempotent(companyName: string)
    ensures SafeName(SafeName(companyName)) == SafeName(companyName)
  {
    SanitizeIdempotent(companyName);
  }

  /** A company name comes through unchanged exactly when all its characters are kept. */
  lemma SafeNameFixedPoints(companyName: string)
    ensures SafeName(companyName) == companyName <==> forall k :: 0 <= k < |companyName| ==> Kept(companyName[k])
  {
    SanitizeFixedPoints(companyName);
    forall c: char ensures IsSafeChar(c) <==> Kept(c) {
      SafeCharIsAlnumUnderscoreOrDash(c);
    }
  }

  /** `exe_name`: the prefix, then the safe name. */
  function ExeName(companyName: string): (r: string)
    ensures |r| == |ExePrefix| + |companyName|
    ensures StartsWith(r, ExePrefix)
    ensures forall k :: 0 <= k < |r| ==> Kept(r[k])
  {
    ExePrefix + SafeName(companyName)
  }

  /** Two company names give the same executable exactly when they give the same safe name. */
  lemma ExeNameDeterminedBySafeName(a: string, b: string)
    ensures ExeName(a) == ExeName(b) <==> SafeName(a) == SafeName(b)
  {
    if ExeName(a) == ExeName(b) {
      assert SafeName(a) == ExeName(a)[|ExePrefix|..];
      assert SafeName(b) == ExeName(b)[|ExePrefix|..];
    }
  }

  /** The executable name needs no further sanitising. */
  lemma ExeNameIsSafe(companyName: string)
    ensures SafeName(ExeName(companyName)) == ExeName(companyName)
  {
    SafeNameFixedPoints(ExeName(companyName));
  }

  /** Spaces, `&` and `.` each become `_`. */
  lemma AcmeExample()
    ensures SafeName("Acme & Co.") == "Acme___Co_"
    ensures ExeName("Acme & Co.") == "GuidWire_Acme___Co_"
  {
    var s := SafeName("Acme & Co.");
    assert !Kept(' ') && !Kept('&') && !Kept('.');
    assert s == "Acme___Co_";
  }
}
