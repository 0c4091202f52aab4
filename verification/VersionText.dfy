/** fwloader_fw_ver.c: the printed image version that is compared in place of the version itself. */
module VersionText {
  import opened Bytes

  /** struct image_version */
  datatype ImageVersion = ImageVersion(major: byte, minor: byte, revision: u16, buildNum: u32)

  const VERSION_BUF_SIZE := 32

  // %u

  function Digit(d: nat): (c: char)
    requires d < 10
    ensures '0' <= c <= '9'
  {
    '0' + d as char
  }

  predicate AllDigits(s: string) {
    forall i | 0 <= i < |s| :: '0' <= s[i] <= '9'
  }

  function Decimal(n: nat): (s: string)
    ensures s != []
    ensures AllDigits(s)
  {
    if n < 10 then [Digit(n)] else Decimal(n / 10) + [Digit(n % 10)]
  }

  /** The number a digit string denotes: the reader that %u is inverse to. */
  function Number(s: string): nat
    requires AllDigits(s)
  {
    if s == [] then 0 else 10 * Number(s[..|s| - 1]) + (s[|s| - 1] as int - '0' as int)
  }

  lemma {:induction false} NumberOfDecimal(n: nat)
    ensures Number(Decimal(n)) == n
  {
    if n >= 10 {
      NumberOfDecimal(n / 10);
      assert Decimal(n)[..|Decimal(n)| - 1] == Decimal(n / 10);
    }
  }

  function Pow10(k: nat): nat {
    if k == 0 then 1 else 10 * Pow10(k - 1)
  }

  lemma {:induction false} DecimalLength(n: nat, k: nat)
    requires 0 < k && n < Pow10(k)
    ensures |Decimal(n)| <= k
  {
    if n >= 10 {
      DecimalLength(n / 10, k - 1);
    }
  }

  // "%u.%u.%u+%" PRIu32

  function Printed(v: ImageVersion): string {
    Decimal(v.major) + "." + (Decimal(v.minor) + "." + (Decimal(v.revision) + "+" + Decimal(v.buildNum)))
  }

  /** expected_version_str */
  function ExpectedVersion(v: ImageVersion): string {
    SnPrintF(Printed(v), VERSION_BUF_SIZE)
  }

  /** The part of a text before and after the first occurrence of a character. */
  function Before(s: string, c: char): string {
    if s == [] || s[0] == c then [] else [s[0]] + Before(s[1..], c)
  }

  function After(s: string, c: char): string {
    if s == [] then [] else if s[0] == c then s[1..] else After(s[1..], c)
  }

  lemma {:induction false} SplitAt(a: string, c: char, rest: string)
    requires c !in a
    ensures Before(a + [c] + rest, c) == a && After(a + [c] + rest, c) == rest
  {
    var s := a + [c] + rest;
    if a == [] {
      assert s[0] == c && s[1..] == rest;
    } else {
      assert s[0] == a[0] && s[1..] == a[1..] + [c] + rest;
      SplitAt(a[1..], c, rest);
    }
  }

  /** A reader of MAJOR.MINOR.REVISION+BUILD: the four texts between the separators. */
  function Fields(s: string): (string, string, string, string) {
    var afterMajor := After(s, '.');
    var afterMinor := After(afterMajor, '.');
    (Before(s, '.'), Before(afterMajor, '.'), Before(afterMinor, '+'), After(afterMinor, '+'))
  }

  /** Reading what is printed gives the four fields, in their places. */
  lemma ReadsBack(v: ImageVersion)
    ensures var (major, minor, revision, buildNum) := Fields(Printed(v));
      && AllDigits(major) && AllDigits(minor) && AllDigits(revision) && AllDigits(buildNum)
      && Number(major) == v.major && Number(minor) == v.minor
      && Number(revision) == v.revision && Number(buildNum) == v.buildNum
  {
    var tail := Decimal(v.revision) + "+" + Decimal(v.buildNum);
    SplitAt(Decimal(v.major), '.', Decimal(v.minor) + "." + tail);
    SplitAt(Decimal(v.minor), '.', tail);
    SplitAt(Decimal(v.revision), '+', Decimal(v.buildNum));
    NumberOfDecimal(v.major);
    NumberOfDecimal(v.minor);
    NumberOfDecimal(v.revision);
    NumberOfDecimal(v.buildNum);
  }

  /** %u prints no leading zero. */
  lemma {:induction false} NoLeadingZero(n: nat)
    ensures Decimal(n)[0] == '0' <==> n == 0
  {
    if n >= 10 {
      NoLeadingZero(n / 10);
      assert Decimal(n)[0] == Decimal(n / 10)[0];
    }
  }

  lemma PrintedLength(v: ImageVersion)
    ensures |Printed(v)| <= 24
  {
    assert Pow10(3) == 1000 && Pow10(5) == 100 * Pow10(3) && Pow10(10) == 10_0000 * Pow10(5) by {
      assert Pow10(4) == 10 * Pow10(3) && Pow10(6) == 10 * Pow10(5) && Pow10(7) == 10 * Pow10(6);
      assert Pow10(8) == 10 * Pow10(7) && Pow10(9) == 10 * Pow10(8);
    }
    DecimalLength(v.major, 3);
    DecimalLength(v.minor, 3);
    DecimalLength(v.revision, 5);
    DecimalLength(v.buildNum, 10);
  }

  /** The buffer never truncates a version. */
  lemma NeverTruncated(v: ImageVersion)
    ensures ExpectedVersion(v) == Printed(v)
  {
    PrintedLength(v);
  }

  /** A field ends at its separator, so equal texts have equal fields. */
  lemma FieldsEqual(a: string, b: string, sep: char, restA: string, restB: string)
    requires sep !in a && sep !in b
    requires a + [sep] + restA == b + [sep] + restB
    ensures a == b && restA == restB
  {
    var t := a + [sep] + restA;
    assert t == b + [sep] + restB;
    assert t[|a|] == sep && t[|b|] == sep;
    assert forall i | 0 <= i < |a| :: t[i] == a[i] != sep;
    assert forall i | 0 <= i < |b| :: t[i] == b[i] != sep;
    assert a == t[..|a|] && b == t[..|b|];
    assert restA == t[|a| + 1..] && restB == t[|b| + 1..];
  }

  lemma PrintedInjective(v: ImageVersion, w: ImageVersion)
    requires Printed(v) == Printed(w)
    ensures v == w
  {
    var tailV := Decimal(v.revision) + "+" + Decimal(v.buildNum);
    var tailW := Decimal(w.revision) + "+" + Decimal(w.buildNum);
    var minorV, minorW := Decimal(v.minor) + "." + tailV, Decimal(w.minor) + "." + tailW;
    FieldsEqual(Decimal(v.major), Decimal(w.major), '.', minorV, minorW);
    FieldsEqual(Decimal(v.minor), Decimal(w.minor), '.', tailV, tailW);
    FieldsEqual(Decimal(v.revision), Decimal(w.revision), '+', Decimal(v.buildNum), Decimal(w.buildNum));
    NumberOfDecimal(v.major);
    NumberOfDecimal(w.major);
    NumberOfDecimal(v.minor);
    NumberOfDecimal(w.minor);
    NumberOfDecimal(v.revision);
    NumberOfDecimal(w.revision);
    NumberOfDecimal(v.buildNum);
    NumberOfDecimal(w.buildNum);
  }

  /** The mismatch report: 0 != strcmp(expected_version_str, other). */
  predicate ReportsMismatch(v: ImageVersion, other: string) {
    ExpectedVersion(v) != other
  }

  /** Against another printed version, the comparison of texts decides equality of all four fields. */
  lemma ComparisonDecides(v: ImageVersion, w: ImageVersion)
    ensures ReportsMismatch(v, Printed(w)) <==> v != w
  {
    NeverTruncated(v);
    if Printed(v) == Printed(w) {
      PrintedInjective(v, w);
    }
  }
}
