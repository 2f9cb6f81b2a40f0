/** The few Python string operations the search layer relies on: `str.isspace`,
    `str.strip()`, `str.lower()`, the substring test `q in s` and `" ".join(xs)`. */
module Text {

  /** Python's `str.isspace` for one character: \t through \r, \x1c through \x1f,
      the space, and the Unicode separators Python also counts as whitespace. */
  predicate IsSpace(c: char) {
    c == ' ' || '\t' <= c <= '\r' || '\U{1C}' <= c <= '\U{1F}'
    || c == '\U{85}' || c == '\U{A0}' || c == '\U{1680}'
    || '\U{2000}' <= c <= '\U{200A}' || c == '\U{2028}' || c == '\U{2029}'
    || c == '\U{202F}' || c == '\U{205F}' || c == '\U{3000}'
  }

  /** Every character is whitespace (Python: `not s.strip()`). */
  predicate IsBlank(s: string) {
    forall i :: 0 <= i < |s| ==> IsSpace(s[i])
  }

  /** `r` is the slice of `s` at offset `i`, with only whitespace before and after it. */
  predicate BlankAround(s: string, i: int, r: string) {
    0 <= i <= |s| - |r| && r == s[i..i + |r|]
    && (forall n :: 0 <= n < i ==> IsSpace(s[n]))
    && (forall n :: i + |r| <= n < |s| ==> IsSpace(s[n]))
  }

  /** `s.strip()`: removes whitespace from both ends, one character at a time. */
  function Strip(s: string): (r: string)
    ensures |r| <= |s|
    ensures r == [] || (!IsSpace(r[0]) && !IsSpace(r[|r| - 1]))
  {
    if s != [] && IsSpace(s[0]) then Strip(s[1..])
    else if s != [] && IsSpace(s[|s| - 1]) then Strip(s[..|s| - 1])
    else s
  }

  /** What Strip leaves is a slice of `s` with only whitespace cut off around it. */
  lemma {:induction false} StripIsSlice(s: string)
    ensures exists i :: BlankAround(s, i, Strip(s))
  {
    if s != [] && IsSpace(s[0]) {
      StripIsSlice(s[1..]);
      var i :| BlankAround(s[1..], i, Strip(s[1..]));
      BlankAroundCons(s, i, Strip(s[1..]));
      assert Strip(s) == Strip(s[1..]);
    } else if s != [] && IsSpace(s[|s| - 1]) {
      StripIsSlice(s[..|s| - 1]);
      var i :| BlankAround(s[..|s| - 1], i, Strip(s[..|s| - 1]));
      BlankAroundSnoc(s, i, Strip(s[..|s| - 1]));
      assert Strip(s) == Strip(s[..|s| - 1]);
    } else {
      assert Strip(s) == s && s[0..|s|] == s;
      assert BlankAround(s, 0, s);
    }
  }

  /** A leading space joins the blank head. */
  lemma BlankAroundCons(s: string, i: int, r: string)
    requires s != [] && IsSpace(s[0]) && BlankAround(s[1..], i, r)
    ensures BlankAround(s, i + 1, r)
  {
    assert s[i + 1..i + 1 + |r|] == s[1..][i..i + |r|];
    forall n | 0 <= n < i + 1 ensures IsSpace(s[n]) {
      if n > 0 { assert s[n] == s[1..][n - 1]; }
    }
    forall n | i + 1 + |r| <= n < |s| ensures IsSpace(s[n]) {
      assert s[n] == s[1..][n - 1];
    }
  }

  /** A trailing space joins the blank tail. */
  lemma BlankAroundSnoc(s: string, i: int, r: string)
    requires s != [] && IsSpace(s[|s| - 1]) && BlankAround(s[..|s| - 1], i, r)
    ensures BlankAround(s, i, r)
  {
    assert s[i..i + |r|] == s[..|s| - 1][i..i + |r|];
    forall n | 0 <= n < i ensures IsSpace(s[n]) {
      assert s[n] == s[..|s| - 1][n];
    }
    forall n | i + |r| <= n < |s| ensures IsSpace(s[n]) {
      if n < |s| - 1 { assert s[n] == s[..|s| - 1][n]; }
    }
  }

  /** Stripping leaves nothing exactly when every character is whitespace. */
  lemma StripEmptyIffBlank(s: string)
    ensures Strip(s) == [] <==> IsBlank(s)
  {
    StripIsSlice(s);
    var r := Strip(s);
    var i :| BlankAround(s, i, r);
    if r != [] {
      assert s[i] == r[0];
    }
  }

  /** Strip is determined by its contract: any cut of `s` into a blank head, a body that
      neither starts nor ends with whitespace, and a blank tail gives Strip's result. */
  lemma StripUnique(s: string, i: nat, j: nat)
    requires i <= j <= |s|
    requires forall n :: 0 <= n < i ==> IsSpace(s[n])
    requires forall n :: j <= n < |s| ==> IsSpace(s[n])
    requires i == j || (!IsSpace(s[i]) && !IsSpace(s[j - 1]))
    ensures Strip(s) == s[i..j]
  {
    StripIsSlice(s);
    var r := Strip(s);
    var k :| BlankAround(s, k, r);
    StripEmptyIffBlank(s);
    if i == j {
      assert IsBlank(s);
    } else {
      assert !IsBlank(s);
      assert s[k] == r[0] && s[k + |r| - 1] == r[|r| - 1];
      assert k == i;
      assert k + |r| == j;
    }
  }

  /** Stripping twice is stripping once. */
  lemma StripIdempotent(s: string)
    ensures Strip(Strip(s)) == Strip(s)
  {
    var r := Strip(s);
    StripUnique(r, 0, |r|);
  }

  /** A string that neither starts nor ends with whitespace strips to itself. */
  lemma StripOfTrimmed(s: string)
    requires s == [] || (!IsSpace(s[0]) && !IsSpace(s[|s| - 1]))
    ensures Strip(s) == s
  {
    StripUnique(s, 0, |s|);
  }

  /** An upper-case letter that `str.lower` maps to a single letter 32 code points on:
      A to Z and the Latin-1 capitals (the accented letters of Spanish among them). */
  predicate IsUpper(c: char) {
    'A' <= c <= 'Z' || ('\U{C0}' <= c <= '\U{DE}' && c != '\U{D7}')
  }

  /** `str.lower` on one character. */
  function LowerChar(c: char): (d: char)
    ensures !IsUpper(d)
    ensures d == c || IsUpper(c)
    ensures IsSpace(d) <==> IsSpace(c)
  {
    if IsUpper(c) then (c as int + 32) as char else c
  }

  /** `s.lower()`, one character at a time. */
  function Lower(s: string): (r: string)
  {
    seq(|s|, i requires 0 <= i < |s| => LowerChar(s[i]))
  }

  /** Lower-casing commutes with slicing. */
  lemma LowerSlice(s: string, i: nat, j: nat)
    requires i <= j <= |s|
    ensures Lower(s)[i..j] == Lower(s[i..j])
  {
  }

  /** Lower-casing twice is lower-casing once. */
  lemma LowerIdempotent(s: string)
    ensures Lower(Lower(s)) == Lower(s)
  {
  }

  /** `s` begins with `p`. */
  predicate StartsWith(s: string, p: string) {
    |p| <= |s| && s[..|p|] == p
  }

  /** Python's `q in s` for two strings, tried at each start position from the left. */
  predicate Contains(s: string, q: string) {
    StartsWith(s, q) || (s != [] && Contains(s[1..], q))
  }

  /** `q` occurs in `s` starting at position `i`. */
  predicate OccursAt(s: string, q: string, i: int) {
    0 <= i <= |s| - |q| && s[i..i + |q|] == q
  }

  /** The scan finds `q` exactly when `q` occurs as a slice of `s`. */
  lemma {:induction false} ContainsIffOccurs(s: string, q: string)
    ensures Contains(s, q) <==> exists i :: OccursAt(s, q, i)
  {
    if exists i :: OccursAt(s, q, i) {
      var i :| OccursAt(s, q, i);
      if i > 0 {
        assert OccursAt(s[1..], q, i - 1) by {
          assert s[1..][i - 1..i - 1 + |q|] == s[i..i + |q|];
        }
        ContainsIffOccurs(s[1..], q);
      }
    }
    if Contains(s, q) && !StartsWith(s, q) {
      ContainsIffOccurs(s[1..], q);
      var i :| OccursAt(s[1..], q, i);
      assert s[1..][i..i + |q|] == s[i + 1..i + 1 + |q|];
      assert OccursAt(s, q, i + 1);
    }
    if Contains(s, q) && StartsWith(s, q) {
      assert OccursAt(s, q, 0);
    }
  }

  /** `"".join`-style total length of the parts. */
  function TotalLength(xs: seq<string>): nat {
    if xs == [] then 0 else |xs[0]| + TotalLength(xs[1..])
  }

  /** `" ".join(xs)`: the parts in order, one space between neighbours. */
  function JoinSpace(xs: seq<string>): (r: string)
    ensures xs == [] ==> r == ""
    ensures xs != [] ==> |r| == TotalLength(xs) + |xs| - 1
    ensures xs != [] ==> r[..|xs[0]|] == xs[0]
  {
    if |xs| == 0 then ""
    else if |xs| == 1 then xs[0]
    else xs[0] + " " + JoinSpace(xs[1..])
  }

  /** Where part `k` of `" ".join(xs)` starts: after the earlier parts and one space for each. */
  function PartStart(xs: seq<string>, k: nat): nat
    requires k <= |xs|
  {
    TotalLength(xs[..k]) + k
  }

  /** Every part of `" ".join(xs)` stands at its place, in order, and every part but the
      first comes right after a single space. */
  lemma {:induction false} JoinSpaceParts(xs: seq<string>, k: nat)
    requires k < |xs|
    ensures var r, o := JoinSpace(xs), PartStart(xs, k);
      o + |xs[k]| <= |r| && r[o..o + |xs[k]|] == xs[k] && (k > 0 ==> r[o - 1] == ' ')
  {
    if k == 0 {
      assert xs[..0] == [];
    } else {
      var rest := JoinSpace(xs[1..]);
      assert JoinSpace(xs) == xs[0] + " " + rest;
      JoinSpaceParts(xs[1..], k - 1);
      assert xs[..k][1..] == xs[1..][..k - 1];
      assert PartStart(xs, k) == |xs[0]| + 1 + PartStart(xs[1..], k - 1);
    }
  }
}
