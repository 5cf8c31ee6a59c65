/**
 * The few pieces of Go's standard library that the installer's version logic
 * relies on, stated over `string` (a sequence of characters):
 * strings.EqualFold, strings.TrimPrefix, strings.Split, strings.Index,
 * strings.Replace with an empty replacement and a count of one,
 * filepath.Ext, and fmt.Sscanf with the verb "%d".
 */
module GoStrings {
  import opened Options

  // ---------------------------------------------------------------------------
  // strings.EqualFold (ASCII letters only)

  function FoldChar(c: char): char {
    if 'A' <= c <= 'Z' then (c as int + 32) as char else c
  }

  /** Two strings are equal under case folding: same length, equal letter by letter after folding. */
  predicate EqualFold(a: string, b: string) {
    |a| == |b| && forall i :: 0 <= i < |a| ==> FoldChar(a[i]) == FoldChar(b[i])
  }

  /** Folding makes EqualFold an equivalence: reflexive, symmetric and transitive. */
  lemma EqualFoldEquivalence(a: string, b: string, c: string)
    ensures EqualFold(a, a)
    ensures EqualFold(a, b) ==> EqualFold(b, a)
    ensures EqualFold(a, b) && EqualFold(b, c) ==> EqualFold(a, c)
  {
  }

  // ---------------------------------------------------------------------------
  // strings.HasPrefix / TrimPrefix with the one-character prefix "v"

  function TrimV(s: string): (r: string)
    ensures if |s| > 0 && s[0] == 'v' then r == s[1..] else r == s
  {
    if |s| > 0 && s[0] == 'v' then s[1..] else s
  }

  // ---------------------------------------------------------------------------
  // strings.Split with a one-character separator, and its inverse

  function Join(parts: seq<string>, sep: char): string
    decreases |parts|
  {
    if parts == [] then []
    else if |parts| == 1 then parts[0]
    else parts[0] + [sep] + Join(parts[1..], sep)
  }

  /**
   * strings.Split(s, sep): the pieces between separators, at least one piece
   * (Split("") is [""]); no piece holds the separator and joining the pieces
   * gives back `s`.
   */
  function Split(s: string, sep: char): (parts: seq<string>)
    ensures |parts| >= 1
    ensures forall i :: 0 <= i < |parts| ==> sep !in parts[i]
    ensures Join(parts, sep) == s
    decreases |s|
  {
    if s == [] then [[]]
    else
      var rest := Split(s[1..], sep);
      if s[0] == sep then
        assert [s[0]] + Join(rest, sep) == s;
        [[]] + rest
      else
        var r := [[s[0]] + rest[0]] + rest[1..];
        assert r[1..] == rest[1..];
        assert |rest| > 1 ==> Join(rest, sep) == rest[0] + [sep] + Join(rest[1..], sep);
        assert |rest| > 1 ==> Join(r, sep) == ([s[0]] + rest[0]) + [sep] + Join(rest[1..], sep);
        assert s == [s[0]] + s[1..];
        r
  }

  /** Splitting at an added separator splits the two sides independently. */
  lemma {:induction false} SplitAround(a: string, sep: char, c: string)
    ensures Split(a + [sep] + c, sep) == Split(a, sep) + Split(c, sep)
    decreases |a|
  {
    var s := a + [sep] + c;
    if a == [] {
      assert s[1..] == c;
    } else {
      assert s[1..] == a[1..] + [sep] + c;
      SplitAround(a[1..], sep, c);
    }
  }

  /** A string without the separator is a single piece. */
  lemma {:induction false} SplitWithoutSeparator(c: string, sep: char)
    requires sep !in c
    ensures Split(c, sep) == [c]
    decreases |c|
  {
    if c != [] {
      SplitWithoutSeparator(c[1..], sep);
      assert [c[0]] + c[1..] == c;
    }
  }

  // ---------------------------------------------------------------------------
  // strings.Index and strings.Replace(s, old, "", 1)

  /** `pat` occurs in `s` at position `j`. */
  predicate OccursAt(s: string, pat: string, j: nat) {
    j + |pat| <= |s| && s[j..j + |pat|] == pat
  }

  /** The first position at or after `i` where `pat` occurs in `s`. */
  function IndexFrom(s: string, pat: string, i: nat): (r: Option<nat>)
    ensures r.Some? ==> i <= r.value && OccursAt(s, pat, r.value)
    ensures r.Some? ==> forall j :: i <= j < r.value ==> !OccursAt(s, pat, j)
    ensures r.None? ==> forall j :: i <= j ==> !OccursAt(s, pat, j)
    decreases |s| - i
  {
    if i + |pat| > |s| then None
    else if s[i..i + |pat|] == pat then Some(i)
    else IndexFrom(s, pat, i + 1)
  }

  /** strings.Index: the first occurrence of `pat` in `s`. */
  function Index(s: string, pat: string): Option<nat> {
    IndexFrom(s, pat, 0)
  }

  /**
   * strings.Replace(s, target, "", 1): deletes the first occurrence of `target`;
   * an empty `target` equals the empty replacement, so Go returns `s` unchanged.
   */
  function DeleteFirst(s: string, target: string): (r: string)
    ensures target == [] || Index(s, target).None? ==> r == s
    ensures target != [] && Index(s, target).Some? ==>
      var i := Index(s, target).value; i <= |r| && s == r[..i] + target + r[i..]
  {
    if target == [] then s
    else match Index(s, target)
      case None => s
      case Some(i) =>
        var r := s[..i] + s[i + |target|..];
        assert r[..i] == s[..i] && r[i..] == s[i + |target|..];
        assert s == s[..i] + s[i..i + |target|] + s[i + |target|..];
        r
  }

  // ---------------------------------------------------------------------------
  // filepath.Ext on a slash-separated path

  function Last(s: string): char
    requires s != []
  {
    s[|s| - 1]
  }

  /**
   * filepath.Ext: the suffix starting at the last '.' of the final path
   * element, or "" when that element has no '.'.
   */
  function Ext(path: string): (e: string)
    ensures |e| <= |path| && e == path[|path| - |e|..]
    ensures e == [] || (e[0] == '.' && '.' !in e[1..] && '/' !in e)
    decreases |path|
  {
    if path == [] || Last(path) == '/' then []
    else if Last(path) == '.' then ['.']
    else
      var e := Ext(path[..|path| - 1]);
      if e == [] then [] else e + [Last(path)]
  }

  /** A path without a '.' has no extension. */
  lemma {:induction false} ExtWithoutDot(path: string)
    requires '.' !in path
    ensures Ext(path) == []
    decreases |path|
  {
    if path != [] && Last(path) != '/' {
      assert Last(path) in path;
      var p' := path[..|path| - 1];
      assert forall c :: c in p' ==> c in path;
      ExtWithoutDot(p');
    }
  }

  /** An extension made of '.' and a dot-free, slash-free word is exactly what Ext finds. */
  lemma {:induction false} ExtOfSuffix(p: string, w: string)
    requires '.' !in w && '/' !in w
    ensures Ext(p + ['.'] + w) == ['.'] + w
    decreases |w|
  {
    var s := p + ['.'] + w;
    if w == [] {
      assert Last(s) == '.';
    } else {
      var w' := w[..|w| - 1];
      var c := w[|w| - 1];
      assert c != '.' && c != '/' && Last(s) == c && s[..|s| - 1] == p + ['.'] + w' by {
        assert w == w' + [c];
        assert s == (p + ['.'] + w') + [c];
      }
      assert '.' !in w' && '/' !in w' by {
        forall k | 0 <= k < |w'| ensures w'[k] == w[k] { }
      }
      ExtOfSuffix(p, w');
      assert ['.'] + w == (['.'] + w') + [c] by {
        assert w == w' + [c];
      }
    }
  }

  // ---------------------------------------------------------------------------
  // fmt.Sscanf(s, "%d", &n) with n starting at 0

  /** Go's fmt treats these as spaces; a newline instead ends the scan with an error. */
  predicate IsScanSpace(c: char) {
    || ('\t' <= c <= '\r' && c != '\n')
    || c == ' ' || c == '\U{0085}' || c == '\U{00A0}' || c == '\U{1680}'
    || ('\U{2000}' <= c <= '\U{200A}')
    || c == '\U{2028}' || c == '\U{2029}' || c == '\U{202F}' || c == '\U{205F}' || c == '\U{3000}'
  }

  predicate IsDigit(c: char) {
    '0' <= c <= '9'
  }

  function SkipSpaces(s: string): (r: string)
    ensures |r| <= |s| && r == s[|s| - |r|..]
    ensures r == [] || !IsScanSpace(r[0])
    decreases |s|
  {
    if s != [] && IsScanSpace(s[0]) then SkipSpaces(s[1..]) else s
  }

  function LeadingDigits(s: string): (d: string)
    ensures |d| <= |s| && d == s[..|d|]
    ensures forall i :: 0 <= i < |d| ==> IsDigit(d[i])
    ensures |d| == |s| || !IsDigit(s[|d|])
    decreases |s|
  {
    if s != [] && IsDigit(s[0]) then [s[0]] + LeadingDigits(s[1..]) else []
  }

  /** The value of a string of decimal digits. */
  function DecimalValue(d: string): nat
    requires forall i :: 0 <= i < |d| ==> IsDigit(d[i])
    decreases |d|
  {
    if d == [] then 0
    else
      assert IsDigit(d[|d| - 1]);
      DecimalValue(d[..|d| - 1]) * 10 + (Last(d) as int - '0' as int)
  }

  const MinInt64: int := -0x8000_0000_0000_0000
  const MaxInt64: int := 0x7FFF_FFFF_FFFF_FFFF

  /**
   * What fmt.Sscanf(s, "%d", &n) leaves in n when n starts at 0: after
   * leading spaces and an optional sign, the longest run of decimal digits;
   * when there is no digit, or the value does not fit in a 64-bit int,
   * Sscanf fails and n keeps 0. Input after the number is ignored.
   */
  function ScanDecimal(s: string): int {
    var t := SkipSpaces(s);
    var negative := t != [] && t[0] == '-';
    var u := if t != [] && (t[0] == '-' || t[0] == '+') then t[1..] else t;
    var d := LeadingDigits(u);
    if d == [] then 0
    else
      var n: int := DecimalValue(d);
      var v := if negative then -n else n;
      if MinInt64 <= v <= MaxInt64 then v else 0
  }

  /** A component with no leading number (after spaces and a sign) scans as 0. */
  lemma ScanWithoutNumber(s: string)
    requires var t := SkipSpaces(s);
      t == [] || (!IsDigit(t[0]) && (t[0] in "+-" ==> |t| == 1 || !IsDigit(t[1])))
    ensures ScanDecimal(s) == 0
  {
  }

  /** A leading run of digits scans as its decimal value, whatever follows it. */
  lemma {:induction false} ScanNumeral(d: string, rest: string)
    requires d != [] && forall i :: 0 <= i < |d| ==> IsDigit(d[i])
    requires rest == [] || !IsDigit(rest[0])
    requires DecimalValue(d) <= MaxInt64
    ensures ScanDecimal(d + rest) == DecimalValue(d)
  {
    var s := d + rest;
    assert s[0] == d[0];
    ScanUnsigned(s);
    LeadingDigitsOfNumeral(d, rest);
  }

  /** A string that starts with a digit scans as the value of its leading digits, if that fits. */
  lemma ScanUnsigned(s: string)
    requires s != [] && IsDigit(s[0])
    ensures var n := DecimalValue(LeadingDigits(s)); ScanDecimal(s) == if n <= MaxInt64 then n else 0
  {
    assert !IsScanSpace(s[0]) && s[0] != '-' && s[0] != '+';
    assert SkipSpaces(s) == s;
  }

  lemma {:induction false} LeadingDigitsOfNumeral(d: string, rest: string)
    requires forall i :: 0 <= i < |d| ==> IsDigit(d[i])
    requires rest == [] || !IsDigit(rest[0])
    ensures LeadingDigits(d + rest) == d
    decreases |d|
  {
    if d != [] {
      assert (d + rest)[1..] == d[1..] + rest;
      LeadingDigitsOfNumeral(d[1..], rest);
      assert [d[0]] + d[1..] == d;
    }
  }
}
