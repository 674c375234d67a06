/**
 * ASCII approximations of the Python string primitives the core relies on:
 * `str.strip`, `str.lower`, `str.isalnum`, the regular-expression class `\w`,
 * `in` on strings, `str.startswith`, `str.replace(pat, "")`, `str.split`,
 * `str.splitlines` (on line feeds only) and `str.join`.
 */
module Text {

  /** Python's `str.isspace` restricted to the ASCII range. */
  predicate IsSpace(c: char) {
    c == ' ' || ('\U{9}' <= c <= '\U{D}') || ('\U{1C}' <= c <= '\U{1F}')
  }

  /** Every character of `s` is whitespace (vacuously true of ""). */
  predicate Blank(s: string) {
    forall k :: 0 <= k < |s| ==> IsSpace(s[k])
  }

  /** Python's `str.isalnum` on ASCII characters. */
  predicate IsAlnum(c: char) {
    ('a' <= c <= 'z') || ('A' <= c <= 'Z') || ('0' <= c <= '9')
  }

  /** The regular-expression class `\w` on ASCII characters. */
  predicate IsWordChar(c: char) {
    IsAlnum(c) || c == '_'
  }

  /** The characters both file-name sanitisers keep: `[\w-]`, equivalently alphanumerics, `_` and `-`. */
  predicate IsSafeChar(c: char) {
    IsWordChar(c) || c == '-'
  }

  lemma SafeCharIsAlnumUnderscoreOrDash(c: char)
    ensures IsSafeChar(c) <==> (IsAlnum(c) || c == '_' || c == '-')
  {
  }

  /** ASCII case fold of one character. */
  function LowerChar(c: char): (d: char)
    ensures 'A' <= c <= 'Z' ==> d as int == c as int + 32
    ensures !('A' <= c <= 'Z') ==> d == c
  {
    if 'A' <= c <= 'Z' then (c as int + 32) as char else c
  }

  /** Python's `str.lower`, folding only ASCII letters. */
  function Lower(s: string): (r: string)
    ensures |r| == |s|
    ensures forall k :: 0 <= k < |s| ==> r[k] == LowerChar(s[k])
  {
    seq(|s|, k requires 0 <= k < |s| => LowerChar(s[k]))
  }

  /** Folding never turns a space into a non-space or back. */
  lemma LowerKeepsBlankness(s: string)
    ensures Blank(Lower(s)) <==> Blank(s)
  {
    assert forall k :: 0 <= k < |s| ==> (IsSpace(Lower(s)[k]) <==> IsSpace(s[k]));
  }

  /** Folding twice is folding once. */
  lemma LowerIdempotent(s: string)
    ensures Lower(Lower(s)) == Lower(s)
  {
  }

  /** `p` is a prefix of `s` (Python's `s.startswith(p)`). */
  predicate StartsWith(s: string, p: string) {
    |p| <= |s| && s[..|p|] == p
  }

  /** Python's `needle in hay` for strings, scanning the start positions left to right. */
  predicate IsInfix(needle: string, hay: string)
    decreases |hay|
  {
    StartsWith(hay, needle) || (|hay| > 0 && IsInfix(needle, hay[1..]))
  }

  /** `needle` occurs in `hay` starting at position `i`. */
  predicate OccursAt(needle: string, hay: string, i: int) {
    0 <= i && i + |needle| <= |hay| && hay[i..i + |needle|] == needle
  }

  /** The scanning definition agrees with "some slice of `hay` equals `needle`". */
  lemma {:induction false} IsInfixIffOccurs(needle: string, hay: string)
    ensures IsInfix(needle, hay) <==> exists i :: OccursAt(needle, hay, i)
    decreases |hay|
  {
    if IsInfix(needle, hay) {
      if StartsWith(hay, needle) {
        assert OccursAt(needle, hay, 0);
      } else {
        IsInfixIffOccurs(needle, hay[1..]);
        var i :| OccursAt(needle, hay[1..], i);
        assert hay[1..][i..i + |needle|] == hay[i + 1..i + 1 + |needle|];
        assert OccursAt(needle, hay, i + 1);
      }
    }
    if exists i :: OccursAt(needle, hay, i) {
      var i :| OccursAt(needle, hay, i);
      if i == 0 {
        assert StartsWith(hay, needle);
      } else {
        assert hay[1..][i - 1..i - 1 + |needle|] == hay[i..i + |needle|];
        assert OccursAt(needle, hay[1..], i - 1);
        IsInfixIffOccurs(needle, hay[1..]);
      }
    }
  }

  /** Positions `lo` up to `hi` of `s` hold whitespace. */
  predicate SpaceBetween(s: string, lo: int, hi: int) {
    forall k :: lo <= k < hi && 0 <= k < |s| ==> IsSpace(s[k])
  }

  /** Drop leading whitespace. */
  function TrimStart(s: string): (r: string)
    ensures |r| <= |s| && r == s[|s| - |r|..]
    ensures SpaceBetween(s, 0, |s| - |r|)
    ensures r == [] || !IsSpace(r[0])
    decreases |s|
  {
    if |s| > 0 && IsSpace(s[0]) then TrimStart(s[1..]) else s
  }

  /** Drop trailing whitespace. */
  function TrimEnd(s: string): (r: string)
    ensures |r| <= |s| && r == s[..|r|]
    ensures SpaceBetween(s, |r|, |s|)
    ensures r == [] || !IsSpace(r[|r| - 1])
    decreases |s|
  {
    if |s| > 0 && IsSpace(s[|s| - 1]) then TrimEnd(s[..|s| - 1]) else s
  }

  /** `r` neither starts nor ends with whitespace. */
  predicate Framed(r: string) {
    r == [] || (!IsSpace(r[0]) && !IsSpace(r[|r| - 1]))
  }

  /** `r` is the slice of `s` at `i` with only whitespace before and after it. */
  predicate StripsAt(s: string, r: string, i: int) {
    0 <= i && i + |r| <= |s| && r == s[i..i + |r|] && SpaceBetween(s, 0, i) && SpaceBetween(s, i + |r|, |s|)
  }

  /** Python's `str.strip()` with ASCII whitespace: the slice of `s` between its leading and trailing whitespace. */
  function Strip(s: string): (r: string)
    ensures exists i :: StripsAt(s, r, i)
    ensures Framed(r)
    ensures r == [] <==> Blank(s)
  {
    StripSlice(s);
    var r := TrimEnd(TrimStart(s));
    r
  }

  /** The facts `Strip` promises, for the composition of the two trims. */
  lemma StripSlice(s: string)
    ensures exists i :: StripsAt(s, TrimEnd(TrimStart(s)), i)
    ensures Framed(TrimEnd(TrimStart(s)))
    ensures TrimEnd(TrimStart(s)) == [] <==> Blank(s)
  {
    var t := TrimStart(s);
    var r := TrimEnd(t);
    TrimsCompose(s, t, r);
    if r != [] {
      assert r[0] == t[0];
    }
  }

  /** Trimming the front to `t` and then the back to `r` leaves `r` as a slice of `s` framed by whitespace. */
  lemma TrimsCompose(s: string, t: string, r: string)
    requires |t| <= |s| && t == s[|s| - |t|..] && SpaceBetween(s, 0, |s| - |t|) && (t == [] || !IsSpace(t[0]))
    requires |r| <= |t| && r == t[..|r|] && SpaceBetween(t, |r|, |t|)
    ensures StripsAt(s, r, |s| - |t|)
    ensures r == [] <==> Blank(s)
  {
    var i := |s| - |t|;
    assert s[i..i + |r|] == r;
    forall k | i + |r| <= k < |s| ensures IsSpace(s[k]) {
      assert s[k] == t[k - i];
    }
    if r == [] {
      assert t == [];
    } else {
      assert t[0] == s[i];
    }
  }

  /** A string with no surrounding whitespace is its own strip. */
  lemma {:induction false} StripOfStripped(s: string)
    requires Framed(s)
    ensures Strip(s) == s
  {
    assert TrimStart(s) == s;
    assert TrimEnd(s) == s;
  }

  /** Stripping is idempotent. */
  lemma {:induction false} StripIdempotent(s: string)
    ensures Strip(Strip(s)) == Strip(s)
  {
    var r := Strip(s);
    StripOfStripped(r);
  }

  /** Python's `s.replace(pat, "")`: every occurrence found by a left-to-right, non-overlapping scan is removed. */
  function RemoveAll(s: string, pat: string): (r: string)
    requires |pat| > 0
    ensures |r| <= |s|
    decreases |s|
  {
    if |s| < |pat| then s
    else if s[..|pat|] == pat then RemoveAll(s[|pat|..], pat)
    else [s[0]] + RemoveAll(s[1..], pat)
  }

  /** A string that starts with the pattern loses that occurrence. */
  lemma RemoveAllFront(pat: string, rest: string)
    requires |pat| > 0
    ensures RemoveAll(pat + rest, pat) == RemoveAll(rest, pat)
  {
    assert (pat + rest)[..|pat|] == pat;
    assert (pat + rest)[|pat|..] == rest;
  }

  /** A first character that cannot start the pattern is kept. */
  lemma RemoveAllKeep(c: char, rest: string, pat: string)
    requires |pat| > 0 && c != pat[0]
    ensures RemoveAll([c] + rest, pat) == [c] + RemoveAll(rest, pat)
  {
    assert ([c] + rest)[1..] == rest;
    if |[c] + rest| >= |pat| {
      assert ([c] + rest)[..|pat|][0] == c;
    }
  }

  /** Removing a pattern that does not occur changes nothing. */
  lemma {:induction false} RemoveAllAbsent(s: string, pat: string)
    requires |pat| > 0
    requires !IsInfix(pat, s)
    ensures RemoveAll(s, pat) == s
    decreases |s|
  {
    if |s| >= |pat| {
      assert s[..|pat|] != pat;
      RemoveAllAbsent(s[1..], pat);
    }
  }

  /** Replace every character outside `[\w-]` by `_`; shared by both file-name sanitisers. */
  function Sanitize(s: string): (r: string)
    ensures |r| == |s|
    ensures forall k :: 0 <= k < |r| ==> IsSafeChar(r[k])
    ensures forall k :: 0 <= k < |s| && IsSafeChar(s[k]) ==> r[k] == s[k]
    ensures forall k :: 0 <= k < |s| && !IsSafeChar(s[k]) ==> r[k] == '_'
  {
    seq(|s|, k requires 0 <= k < |s| => if IsSafeChar(s[k]) then s[k] else '_')
  }

  /** Sanitising twice is sanitising once. */
  lemma SanitizeIdempotent(s: string)
    ensures Sanitize(Sanitize(s)) == Sanitize(s)
  {
    assert forall k :: 0 <= k < |s| ==> Sanitize(Sanitize(s))[k] == Sanitize(s)[k];
  }

  /** Exactly the strings made of safe characters come out of the sanitiser unchanged. */
  lemma SanitizeFixedPoints(s: string)
    ensures Sanitize(s) == s <==> forall k :: 0 <= k < |s| ==> IsSafeChar(s[k])
  {
    if forall k :: 0 <= k < |s| ==> IsSafeChar(s[k]) {
      assert forall k :: 0 <= k < |s| ==> Sanitize(s)[k] == s[k];
    }
  }

  /** Python's `s.split(sep)` for a one-character separator: at least one part, none containing `sep`. */
  function Split(s: string, sep: char): (parts: seq<string>)
    ensures |parts| >= 1
    ensures forall k :: 0 <= k < |parts| ==> sep !in parts[k]
    decreases |s|
  {
    if |s| == 0 then [""]
    else
      var rest := Split(s[1..], sep);
      if s[0] == sep then [""] + rest else [[s[0]] + rest[0]] + rest[1..]
  }

  /** Python's `sep.join(parts)`. */
  function Join(parts: seq<string>, sep: char): string
    decreases |parts|
  {
    if |parts| == 0 then ""
    else if |parts| == 1 then parts[0]
    else parts[0] + [sep] + Join(parts[1..], sep)
  }

  /** Joining the parts of a split gives back the original string. */
  lemma {:induction false} JoinSplit(s: string, sep: char)
    ensures Join(Split(s, sep), sep) == s
    decreases |s|
  {
    if |s| > 0 {
      var rest := Split(s[1..], sep);
      JoinSplit(s[1..], sep);
      if s[0] == sep {
        assert Split(s, sep) == [""] + rest;
        assert ([""] + rest)[1..] == rest;
        assert s == [sep] + s[1..];
      } else {
        var parts := [[s[0]] + rest[0]] + rest[1..];
        assert Split(s, sep) == parts;
        if |rest| == 1 {
          assert s[1..] == rest[0];
          assert s == [s[0]] + s[1..];
        } else {
          assert parts[1..] == rest[1..];
          assert Join(rest, sep) == rest[0] + [sep] + Join(rest[1..], sep);
          assert s == [s[0]] + s[1..];
        }
      }
    }
  }

  /** Splitting a join of separator-free parts gives back the parts. */
  lemma {:induction false} SplitJoin(parts: seq<string>, sep: char)
    requires |parts| >= 1
    requires forall k :: 0 <= k < |parts| ==> sep !in parts[k]
    ensures Split(Join(parts, sep), sep) == parts
    decreases |parts|, |parts[0]|
  {
    if |parts[0]| > 0 {
      var p := parts[0];
      var tail := [p[1..]] + parts[1..];
      assert tail[0] == p[1..];
      assert tail[1..] == parts[1..];
      assert forall k :: 0 <= k < |tail| ==> sep !in tail[k] by {
        forall k | 0 <= k < |tail| ensures sep !in tail[k] {
          if k == 0 {
            assert forall x :: x in p[1..] ==> x in p;
          } else {
            assert tail[k] == parts[k];
          }
        }
      }
      SplitJoin(tail, sep);
      JoinFirstPart(parts, sep);
      JoinFirstPart(tail, sep);
      assert Join(parts, sep) == [p[0]] + Join(tail, sep);
      assert p[0] != sep by { assert p[0] in p; }
      var s := Join(parts, sep);
      assert s[1..] == Join(tail, sep);
      assert Split(s, sep) == [[s[0]] + Split(s[1..], sep)[0]] + Split(s[1..], sep)[1..];
      assert [p[0]] + p[1..] == p;
      assert [[s[0]] + tail[0]] + tail[1..] == parts;
    } else if |parts| > 1 {
      SplitJoin(parts[1..], sep);
      var s := Join(parts, sep);
      assert s == [sep] + Join(parts[1..], sep);
      assert s[1..] == Join(parts[1..], sep);
      assert [""] + parts[1..] == parts;
    }
  }

  /** A string without the separator is its own only part. */
  lemma SplitWithoutSep(s: string, sep: char)
    requires sep !in s
    ensures Split(s, sep) == [s]
  {
    SplitJoin([s], sep);
  }

  /** Joining two non-empty lists of parts puts one separator between their joins. */
  lemma {:induction false} JoinAppend(p: seq<string>, q: seq<string>, sep: char)
    requires |p| >= 1 && |q| >= 1
    ensures Join(p + q, sep) == Join(p, sep) + [sep] + Join(q, sep)
    decreases |p|
  {
    JoinFirstPart(p + q, sep);
    if |p| == 1 {
      assert (p + q)[1..] == q;
    } else {
      assert (p + q)[1..] == p[1..] + q;
      JoinAppend(p[1..], q, sep);
      JoinFirstPart(p, sep);
    }
  }

  /** `Join` puts the first part first, then (if any parts remain) a separator and the rest. */
  lemma JoinFirstPart(parts: seq<string>, sep: char)
    requires |parts| >= 1
    ensures |parts| == 1 ==> Join(parts, sep) == parts[0]
    ensures |parts| > 1 ==> Join(parts, sep) == parts[0] + [sep] + Join(parts[1..], sep)
  {
  }

  /** Python's `str.splitlines()` when line feed is the only line break: no trailing empty line, and `""` has no lines. */
  function SplitLines(s: string): (lines: seq<string>)
    ensures forall k :: 0 <= k < |lines| ==> '\n' !in lines[k]
    ensures s == [] <==> lines == []
  {
    if s == [] then []
    else
      var parts := Split(s, '\n');
      JoinSplit(s, '\n');
      if parts[|parts| - 1] == "" then parts[..|parts| - 1] else parts
  }

  /** Lines joined by line feeds split back into the same lines, provided the last is not empty. */
  lemma SplitLinesJoin(lines: seq<string>)
    requires |lines| >= 1 && lines[|lines| - 1] != ""
    requires forall k :: 0 <= k < |lines| ==> '\n' !in lines[k]
    ensures SplitLines(Join(lines, '\n')) == lines
  {
    var s := Join(lines, '\n');
    SplitJoin(lines, '\n');
    assert s != [] by {
      if s == [] {
        assert false;
      }
    }
    assert Split(s, '\n')[|lines| - 1] != "";
  }
}
