/**
 * Version handling of backup/main.go: the three-way comparator
 * CompareVersions and the observed-version fallback chain
 * (ExtractVersionFromFilename, GetActualVersion).
 */
module Versions {
  import opened Options
  import opened GoStrings

  /** The version recorded when the real version could not be determined. */
  const Unknown: string := "unknown"

  // ---------------------------------------------------------------------------
  // CompareVersions

  /** Appends "0" until there are three components (the two padding loops). */
  function Pad(parts: seq<string>): (r: seq<string>)
    ensures |r| >= 3
    ensures |parts| >= 3 ==> r == parts
    decreases 3 - |parts|
  {
    if |parts| < 3 then Pad(parts + ["0"]) else parts
  }

  /** Each of the first three padded components is the original one, or "0" past the end. */
  lemma {:induction false} PadAt(parts: seq<string>, i: nat)
    requires i < 3
    ensures Pad(parts)[i] == if i < |parts| then parts[i] else "0"
    decreases 3 - |parts|
  {
    if |parts| < 3 {
      PadAt(parts + ["0"], i);
    }
  }

  /**
   * The three numbers a version is compared by: strip one leading 'v', split
   * at '.', pad to three components with "0", and scan each of the first
   * three as Sscanf("%d") does.
   */
  function Components(v: string): (k: seq<int>)
    ensures |k| == 3
  {
    Scanned(Pad(Split(TrimV(v), '.')))
  }

  /** The scanned values of the first three components. */
  function Scanned(parts: seq<string>): (k: seq<int>)
    requires |parts| >= 3
    ensures |k| == 3 && forall j :: 0 <= j < 3 ==> k[j] == ScanDecimal(parts[j])
  {
    [ScanDecimal(parts[0]), ScanDecimal(parts[1]), ScanDecimal(parts[2])]
  }

  /** Lexicographic three-way comparison: the first difference decides. */
  function LexCompare(a: seq<int>, b: seq<int>): (r: int)
    requires |a| == |b|
    ensures r == -1 || r == 0 || r == 1
    decreases |a|
  {
    if a == [] then 0
    else if a[0] < b[0] then -1
    else if a[0] > b[0] then 1
    else LexCompare(a[1..], b[1..])
  }

  /**
   * The value CompareVersions returns. "unknown" on the left is below
   * everything, itself included; "unknown" on the right alone is above.
   */
  function Comparison(v1: string, v2: string): (r: int)
    ensures r == -1 || r == 0 || r == 1
  {
    if v1 == Unknown then -1
    else if v2 == Unknown then 1
    else LexCompare(Components(v1), Components(v2))
  }

  /** CompareVersions as written: the two padding loops and the three-step compare loop. */
  method CompareVersions(v1: string, v2: string) returns (r: int)
    ensures r == Comparison(v1, v2)
  {
    if v1 == Unknown {
      return -1;
    }
    if v2 == Unknown {
      return 1;
    }
    var s1 := TrimV(v1);
    var s2 := TrimV(v2);
    var parts1 := Split(s1, '.');
    var parts2 := Split(s2, '.');
    while |parts1| < 3
      invariant Pad(parts1) == Pad(Split(s1, '.'))
      decreases 3 - |parts1|
    {
      parts1 := parts1 + ["0"];
    }
    while |parts2| < 3
      invariant Pad(parts2) == Pad(Split(s2, '.'))
      decreases 3 - |parts2|
    {
      parts2 := parts2 + ["0"];
    }
    assert parts1 == Pad(Split(s1, '.')) && parts2 == Pad(Split(s2, '.'));
    ghost var k1 := Scanned(parts1);
    ghost var k2 := Scanned(parts2);
    assert Comparison(v1, v2) == LexCompare(k1, k2);
    var i := 0;
    while i < 3
      invariant 0 <= i <= 3
      invariant LexCompare(k1, k2) == LexCompare(k1[i..], k2[i..])
    {
      var num1 := ScanDecimal(parts1[i]);
      var num2 := ScanDecimal(parts2[i]);
      assert k1[i..][0] == num1 && k2[i..][0] == num2;
      assert k1[i..][1..] == k1[i + 1..] && k2[i..][1..] == k2[i + 1..];
      if num1 < num2 {
        return -1;
      } else if num1 > num2 {
        return 1;
      }
      i := i + 1;
    }
    return 0;
  }

  // ---------------------------------------------------------------------------
  // Properties of the comparison

  lemma {:induction false} LexAntisymmetric(a: seq<int>, b: seq<int>)
    requires |a| == |b|
    ensures LexCompare(a, b) == -LexCompare(b, a)
    decreases |a|
  {
    if a != [] {
      LexAntisymmetric(a[1..], b[1..]);
    }
  }

  lemma {:induction false} LexZeroIffEqual(a: seq<int>, b: seq<int>)
    requires |a| == |b|
    ensures LexCompare(a, b) == 0 <==> a == b
    decreases |a|
  {
    if a != [] {
      LexZeroIffEqual(a[1..], b[1..]);
      assert a == [a[0]] + a[1..] && b == [b[0]] + b[1..];
    }
  }

  lemma {:induction false} LexTransitive(a: seq<int>, b: seq<int>, c: seq<int>)
    requires |a| == |b| == |c|
    ensures LexCompare(a, b) <= 0 && LexCompare(b, c) <= 0 ==> LexCompare(a, c) <= 0
    decreases |a|
  {
    if a != [] {
      LexTransitive(a[1..], b[1..], c[1..]);
    }
  }

  /** "unknown" on the left always loses, even against itself; on the right alone it always wins. */
  lemma UnknownRules(x: string)
    ensures Comparison(Unknown, x) == -1
    ensures x != Unknown ==> Comparison(x, Unknown) == 1
    ensures Comparison(Unknown, Unknown) != 0
  {
  }

  /** A version equals itself exactly when it is not "unknown". */
  lemma ComparisonReflexive(a: string)
    ensures Comparison(a, a) == 0 <==> a != Unknown
  {
    if a != Unknown {
      LexZeroIffEqual(Components(a), Components(a));
    }
  }

  /** Swapping the arguments flips the sign, except for "unknown" against "unknown". */
  lemma ComparisonAntisymmetric(a: string, b: string)
    requires a != Unknown || b != Unknown
    ensures Comparison(a, b) == -Comparison(b, a)
  {
    if a != Unknown && b != Unknown {
      LexAntisymmetric(Components(a), Components(b));
    }
  }

  /** "At most" (Comparison <= 0) is transitive and total on all strings: a total preorder. */
  lemma ComparisonTotalPreorder(a: string, b: string, c: string)
    ensures Comparison(a, b) <= 0 || Comparison(b, a) <= 0
    ensures Comparison(a, b) <= 0 && Comparison(b, c) <= 0 ==> Comparison(a, c) <= 0
  {
    if a != Unknown && b != Unknown {
      LexAntisymmetric(Components(a), Components(b));
    }
    if a != Unknown && b != Unknown && c != Unknown {
      LexTransitive(Components(a), Components(b), Components(c));
    }
  }

  /** Two known versions compare equal exactly when their three scanned components agree. */
  lemma ComparisonZeroIffSameComponents(a: string, b: string)
    requires a != Unknown && b != Unknown
    ensures Comparison(a, b) == 0 <==> Components(a) == Components(b)
  {
    LexZeroIffEqual(Components(a), Components(b));
  }

  /** Appending ".c" to a version appends the piece c to its split form. */
  lemma SplitAppended(a: string, c: string)
    requires '.' !in c
    ensures Split(TrimV(a + "." + c), '.') == Split(TrimV(a), '.') + [c]
  {
    var a' := a + "." + c;
    assert TrimV(a') == TrimV(a) + "." + c by {
      if |a| > 0 && a[0] == 'v' {
        assert a'[1..] == a[1..] + "." + c;
      } else if a == [] {
        assert a' == "." + c;
      }
    }
    SplitAround(TrimV(a), '.', c);
    SplitWithoutSeparator(c, '.');
  }

  /** The padded pieces with one more piece scan the same when that piece scans as 0 or comes fourth. */
  lemma PadAppendedScan(s: seq<string>, c: string, i: nat)
    requires i < 3
    requires |s| >= 3 || ScanDecimal(c) == 0
    ensures ScanDecimal(Pad(s + [c])[i]) == ScanDecimal(Pad(s)[i])
  {
    PadAt(s + [c], i);
    PadAt(s, i);
    if i == |s| {
      assert ScanDecimal("0") == 0 by {
        ScanOneDigit('0');
      }
    }
  }

  /** The same, stated on the three scanned components. */
  lemma ComponentsIgnoreExtraComponent(a: string, c: string)
    requires '.' !in c
    requires |Split(TrimV(a), '.')| >= 3 || ScanDecimal(c) == 0
    ensures Components(a + "." + c) == Components(a)
  {
    var s := Split(TrimV(a), '.');
    SplitAppended(a, c);
    PadAppendedScan(s, c, 0);
    PadAppendedScan(s, c, 1);
    PadAppendedScan(s, c, 2);
  }

  /**
   * Appending a component never changes the outcome when the version already
   * has three components (later components are ignored) or when the new
   * component scans as 0 (missing components count as "0").
   */
  lemma ComparisonIgnoresExtraComponent(a: string, c: string, b: string)
    requires a != Unknown && '.' !in c
    requires |Split(TrimV(a), '.')| >= 3 || ScanDecimal(c) == 0
    ensures Comparison(a + "." + c, b) == Comparison(a, b)
  {
    var a' := a + "." + c;
    assert a'[|a|] == '.';
    assert a' != Unknown;
    ComponentsIgnoreExtraComponent(a, c);
  }

  /** One leading 'v' is ignored. */
  lemma ComparisonIgnoresLeadingV(a: string, b: string)
    requires a != Unknown && (a == [] || a[0] != 'v')
    ensures Comparison("v" + a, b) == Comparison(a, b)
  {
    var va := "v" + a;
    assert va[0] == 'v' && Unknown[0] == 'u';
    assert va != Unknown;
    assert va[1..] == a;
    assert TrimV(va) == a;
  }

  /** The components of "x.y.z" with dot-free pieces, x not starting with 'v'. */
  lemma ComponentsOfThree(x: string, y: string, z: string)
    requires '.' !in x && '.' !in y && '.' !in z
    requires x == [] || x[0] != 'v'
    ensures |Split(TrimV(x + "." + y + "." + z), '.')| == 3
    ensures Components(x + "." + y + "." + z) == [ScanDecimal(x), ScanDecimal(y), ScanDecimal(z)]
  {
    var v := x + "." + y + "." + z;
    assert v == x + ['.'] + (y + ['.'] + z);
    assert TrimV(v) == v by {
      if x == [] { assert v[0] == '.'; } else { assert v[0] == x[0]; }
    }
    SplitAround(x, '.', y + ['.'] + z);
    SplitAround(y, '.', z);
    SplitWithoutSeparator(x, '.');
    SplitWithoutSeparator(y, '.');
    SplitWithoutSeparator(z, '.');
    assert Split(v, '.') == [x, y, z];
  }

  /** The components of "x.y" with dot-free pieces, x not starting with 'v': the third is "0" scanned. */
  lemma ComponentsOfTwo(x: string, y: string)
    requires '.' !in x && '.' !in y
    requires x == [] || x[0] != 'v'
    ensures Components(x + "." + y) == [ScanDecimal(x), ScanDecimal(y), ScanDecimal("0")]
  {
    var v := x + "." + y;
    assert v == x + ['.'] + y;
    assert TrimV(v) == v by {
      if x == [] { assert v[0] == '.'; } else { assert v[0] == x[0]; }
    }
    SplitAround(x, '.', y);
    SplitWithoutSeparator(x, '.');
    SplitWithoutSeparator(y, '.');
    assert Split(v, '.') == [x, y];
    assert Pad([x, y]) == [x, y, "0"];
  }

  /** A one-digit numeral scans as its digit. */
  lemma ScanOneDigit(c: char)
    requires IsDigit(c)
    ensures ScanDecimal([c]) == c as int - '0' as int
  {
    assert [c] + [] == [c];
    assert [c][..0] == [];
    ScanNumeral([c], []);
  }

  /** "10" scans as ten: components are numbers, not digits. */
  lemma ScanTen()
    ensures ScanDecimal("10") == 10
  {
    assert "10"[..1] == "1";
    assert "1"[..0] == "";
    assert DecimalValue("10") == 10;
    assert "10" + "" == "10";
    ScanNumeral("10", "");
  }

  /** A missing third component counts as 0, and one leading 'v' is dropped. */
  lemma ExampleShortVersion()
    ensures Comparison("v1.2", "1.2.0") == 0
  {
    var a, b := "1" + "." + "2", "1" + "." + "2" + "." + "0";
    assert "v1.2" == "v" + a && "1.2.0" == b;
    assert a[1] == '.' && b[1] == '.';
    DottedIsKnown(a);
    DottedIsKnown(b);
    ComparisonIgnoresLeadingV(a, b);
    assert Components(a) == Components(b) by {
      ScanOneDigit('0');
      ComponentsOfTwo("1", "2");
      ComponentsOfThree("1", "2", "0");
    }
    LexZeroIffEqual(Components(a), Components(b));
  }

  /** A fourth component is ignored. */
  lemma ExampleFourComponents()
    ensures Comparison("1.2.3.9", "1.2.3") == 0
  {
    var b := "1" + "." + "2" + "." + "3";
    var a := b + "." + "9";
    assert "1.2.3.9" == a && "1.2.3" == b;
    assert b[1] == '.';
    DottedIsKnown(b);
    ComponentsOfThree("1", "2", "3");
    ComparisonIgnoresExtraComponent(b, "9", b);
    ComparisonReflexive(b);
  }

  /** A version with a dot is never "unknown". */
  lemma DottedIsKnown(v: string)
    requires '.' in v
    ensures v != Unknown
  {
    assert '.' !in Unknown;
  }

  /** Two three-part versions compare by the scanned values of their parts. */
  lemma ComparisonOfThree(x1: string, y1: string, z1: string, x2: string, y2: string, z2: string)
    requires '.' !in x1 && '.' !in y1 && '.' !in z1 && (x1 == [] || x1[0] != 'v')
    requires '.' !in x2 && '.' !in y2 && '.' !in z2 && (x2 == [] || x2[0] != 'v')
    ensures Comparison(x1 + "." + y1 + "." + z1, x2 + "." + y2 + "." + z2) ==
      LexCompare([ScanDecimal(x1), ScanDecimal(y1), ScanDecimal(z1)], [ScanDecimal(x2), ScanDecimal(y2), ScanDecimal(z2)])
  {
    var a, b := x1 + "." + y1 + "." + z1, x2 + "." + y2 + "." + z2;
    assert a[|x1|] == '.' && b[|x2|] == '.';
    DottedIsKnown(a);
    DottedIsKnown(b);
    ComponentsOfThree(x1, y1, z1);
    ComponentsOfThree(x2, y2, z2);
  }

  /** Two two-part versions compare by the scanned values of their parts, the third counting as 0. */
  lemma ComparisonOfTwo(x1: string, y1: string, x2: string, y2: string)
    requires '.' !in x1 && '.' !in y1 && (x1 == [] || x1[0] != 'v')
    requires '.' !in x2 && '.' !in y2 && (x2 == [] || x2[0] != 'v')
    ensures Comparison(x1 + "." + y1, x2 + "." + y2) ==
      LexCompare([ScanDecimal(x1), ScanDecimal(y1), 0], [ScanDecimal(x2), ScanDecimal(y2), 0])
  {
    var a, b := x1 + "." + y1, x2 + "." + y2;
    assert a[|x1|] == '.' && b[|x2|] == '.';
    DottedIsKnown(a);
    DottedIsKnown(b);
    ScanOneDigit('0');
    ComponentsOfTwo(x1, y1);
    ComponentsOfTwo(x2, y2);
  }

  /** A component without digits scans as 0. */
  lemma ExampleNonNumericComponent()
    ensures Comparison("1.x", "1.0") == 0
  {
    assert "1.x" == "1" + "." + "x" && "1.0" == "1" + "." + "0";
    ComparisonOfTwo("1", "x", "1", "0");
    assert ScanDecimal("x") == 0 && ScanDecimal("0") == 0 by {
      ScanWithoutNumber("x");
      ScanOneDigit('0');
    }
    LexZeroIffEqual([ScanDecimal("1"), 0, 0], [ScanDecimal("1"), 0, 0]);
  }

  /** Components compare as numbers, not as text. */
  lemma ExampleNumericOrder()
    ensures Comparison("1.10.0", "1.9.9") == 1
  {
    assert "1.10.0" == "1" + "." + "10" + "." + "0" && "1.9.9" == "1" + "." + "9" + "." + "9";
    ComparisonOfThree("1", "10", "0", "1", "9", "9");
    assert ScanDecimal("1") == 1 && ScanDecimal("9") == 9 && ScanDecimal("10") == 10 by {
      ScanOneDigit('1');
      ScanOneDigit('9');
      ScanTen();
    }
  }

  // ---------------------------------------------------------------------------
  // ExtractVersionFromFilename and GetActualVersion

  /** Starts with 'v' or contains a '.': the test for "this looks like a version". */
  predicate LooksLikeVersion(s: string) {
    (|s| > 0 && s[0] == 'v') || '.' in s
  }

  /**
   * Strips the extension, deletes the first "<pkgName>-" and then the first
   * "<pkgName>", and keeps what is left only when it looks like a version.
   */
  function ExtractVersionFromFilename(filename: string, pkgName: string): (r: string)
    ensures r == Unknown || LooksLikeVersion(r)
  {
    var base := filename[..|filename| - |Ext(filename)|];
    var part := DeleteFirst(DeleteFirst(base, pkgName + "-"), pkgName);
    if LooksLikeVersion(part) then part else Unknown
  }

  /**
   * On a file named "<pkg>-<ver>.<ext>" the extension and the leading
   * "<pkg>-" go, and then the first occurrence of <pkg> inside <ver> too:
   * what is left is the result when it looks like a version.
   */
  lemma ExtractFromNamedFile(pkg: string, ver: string, ext: string)
    requires '.' !in ext && '/' !in ext
    ensures var part := DeleteFirst(ver, pkg);
      ExtractVersionFromFilename(pkg + "-" + ver + "." + ext, pkg) == if LooksLikeVersion(part) then part else Unknown
  {
    var base := pkg + "-" + ver;
    var filename := pkg + "-" + ver + "." + ext;
    assert filename == base + ['.'] + ext;
    ExtOfSuffix(base, ext);
    assert filename[..|filename| - |Ext(filename)|] == base;
    var target := pkg + "-";
    assert base == target + ver;
    assert OccursAt(base, target, 0) by {
      assert base[0..|target|] == target;
    }
    assert Index(base, target) == Some(0);
    var r := DeleteFirst(base, target);
    assert base == r[..0] + target + r[0..];
    assert r == ver;
  }

  /**
   * On a release file named "<pkg>-<ver>.<ext>" the version token is found
   * again, as long as the package name does not occur inside <ver>.
   */
  lemma ExtractFromReleaseFile(pkg: string, ver: string, ext: string)
    requires '.' !in ext && '/' !in ext
    requires pkg == [] || Index(ver, pkg).None?
    ensures ExtractVersionFromFilename(pkg + "-" + ver + "." + ext, pkg) == if LooksLikeVersion(ver) then ver else Unknown
  {
    ExtractFromNamedFile(pkg, ver, ext);
  }

  /**
   * A file with no extension loses its last version component all the same,
   * because filepath.Ext takes the text after the last '.' for one:
   * "goblin-v1.2.3" yields "v1.2".
   */
  lemma ExampleNoExtension()
    ensures ExtractVersionFromFilename("goblin-v1.2.3", "goblin") == "v1.2"
  {
    var pkg, ver := "goblin", "v1.2";
    assert "goblin-v1.2.3" == pkg + "-" + ver + "." + "3";
    assert Index(ver, pkg).None? by {
      assert |pkg| > |ver|;
    }
    ExtractFromReleaseFile(pkg, ver, "3");
    assert LooksLikeVersion(ver) by {
      assert ver[0] == 'v';
    }
  }

  /**
   * A bare binary named after its package, with no '.' in it, carries no
   * version: the result is "unknown".
   */
  lemma BareBinaryName(pkg: string)
    requires '.' !in pkg
    ensures ExtractVersionFromFilename(pkg, pkg) == Unknown
  {
    ExtWithoutDot(pkg);
    assert pkg[..|pkg| - |Ext(pkg)|] == pkg;
    var target := pkg + "-";
    assert Index(pkg, target).None?;
    if pkg != [] {
      assert OccursAt(pkg, pkg, 0) by {
        assert pkg[0..|pkg|] == pkg;
      }
      assert Index(pkg, pkg) == Some(0);
      var r := DeleteFirst(pkg, pkg);
      assert pkg == r[..0] + pkg + r[0..];
      assert r == [];
    }
  }

  /**
   * The observed version: a non-empty X-Version header, else the token from
   * the file name when there is one, else the manifest's version string.
   */
  function GetActualVersion(header: string, filename: string, pkgName: string, manifestVersion: string): (r: string)
    ensures header != "" ==> r == header
    ensures header == "" && r != manifestVersion ==> r == ExtractVersionFromFilename(filename, pkgName) && r != Unknown
    ensures header == "" && ExtractVersionFromFilename(filename, pkgName) != Unknown ==>
      r == ExtractVersionFromFilename(filename, pkgName)
    ensures header == "" && ExtractVersionFromFilename(filename, pkgName) == Unknown ==> r == manifestVersion
    ensures r == Unknown ==> header == Unknown || manifestVersion == Unknown
    ensures r == "" ==> header == "" && manifestVersion == ""
  {
    if header != "" then header
    else
      var extracted := ExtractVersionFromFilename(filename, pkgName);
      if extracted != Unknown then extracted else manifestVersion
  }

  /** Without a header, a release file name decides the version; otherwise the manifest does. */
  lemma ActualVersionFromReleaseFile(pkg: string, ver: string, ext: string, manifestVersion: string)
    requires '.' !in ext && '/' !in ext
    requires pkg == [] || Index(ver, pkg).None?
    ensures GetActualVersion("", pkg + "-" + ver + "." + ext, pkg, manifestVersion) ==
      if LooksLikeVersion(ver) && ver != Unknown then ver else manifestVersion
  {
    ExtractFromReleaseFile(pkg, ver, ext);
  }
}
