/** The fragment of Semantic Versioning 2.0.0 the installer uses: versions of
    the exact shape MAJOR.MINOR.PATCH with numeric identifiers (no leading
    zeros, section 2 of the standard), and their precedence (section 11),
    which is what the `semver` package's `compare` and `rcompare` compute for
    such versions. */
module SemVer {
  import opened Wrappers
  import opened Text

  /** The three numeric identifiers of a version. */
  datatype Core = Core(major: nat, minor: nat, patch: nat)

  /** Precedence of version cores: major, then minor, then patch, numerically. */
  predicate Below(a: Core, b: Core) {
    || a.major < b.major
    || (a.major == b.major && a.minor < b.minor)
    || (a.major == b.major && a.minor == b.minor && a.patch < b.patch)
  }

  predicate IsDigit(c: char) {
    '0' <= c <= '9'
  }

  predicate AllDigits(s: string) {
    forall i :: 0 <= i < |s| ==> IsDigit(s[i])
  }

  /** A numeric identifier: `0`, or a non-empty digit string without a leading zero. */
  predicate IsNumeral(s: string) {
    |s| >= 1 && AllDigits(s) && (s[0] == '0' ==> |s| == 1)
  }

  function DigitChar(d: nat): (c: char)
    requires d < 10
    ensures IsDigit(c)
  {
    ('0' as int + d) as char
  }

  function DigitValue(c: char): (d: nat)
    requires IsDigit(c)
    ensures d < 10 && DigitChar(d) == c
  {
    c as int - '0' as int
  }

  /** The decimal numeral of `n`. */
  function Decimal(n: nat): (s: string)
    ensures IsNumeral(s)
    ensures s[0] == '0' <==> n == 0
    decreases n
  {
    if n < 10 then [DigitChar(n)] else Decimal(n / 10) + [DigitChar(n % 10)]
  }

  /** The number a digit string denotes. */
  function NumeralValue(s: string): (r: nat)
    requires AllDigits(s)
    decreases |s|
  {
    if |s| == 0 then 0 else NumeralValue(s[..|s| - 1]) * 10 + DigitValue(s[|s| - 1])
  }

  lemma {:induction false} NumeralValueOfDecimal(n: nat)
    ensures NumeralValue(Decimal(n)) == n
    decreases n
  {
    if n >= 10 {
      var s := Decimal(n);
      assert s[..|s| - 1] == Decimal(n / 10);
      NumeralValueOfDecimal(n / 10);
    }
  }

  /** A numeral with a non-zero leading digit denotes a positive number. */
  lemma {:induction false} NumeralPositive(s: string)
    requires |s| >= 1 && AllDigits(s) && s[0] != '0'
    ensures NumeralValue(s) >= 1
    decreases |s|
  {
    if |s| > 1 {
      NumeralPositive(s[..|s| - 1]);
    }
  }

  lemma {:induction false} DecimalOfNumeral(s: string)
    requires IsNumeral(s)
    ensures Decimal(NumeralValue(s)) == s
    decreases |s|
  {
    if |s| > 1 {
      var init := s[..|s| - 1];
      NumeralPositive(init);
      DecimalOfNumeral(init);
      var n := NumeralValue(s);
      assert n / 10 == NumeralValue(init) && n % 10 == DigitValue(s[|s| - 1]);
      assert s == init + [s[|s| - 1]];
    }
  }

  /** The version string of a core. */
  function Format(c: Core): (r: string) {
    Decimal(c.major) + "." + Decimal(c.minor) + "." + Decimal(c.patch)
  }

  /** Reads a MAJOR.MINOR.PATCH version; `None` for anything else. */
  function Parse(s: string): (r: Option<Core>) {
    var parts := Split(s, '.');
    if |parts| == 3 && IsNumeral(parts[0]) && IsNumeral(parts[1]) && IsNumeral(parts[2]) then
      Some(Core(NumeralValue(parts[0]), NumeralValue(parts[1]), NumeralValue(parts[2])))
    else
      None
  }

  /** The longest version string `semver` reads (`MAX_LENGTH`). */
  const MaxLength := 256

  /** The largest numeric identifier `semver` keeps (`Number.MAX_SAFE_INTEGER`). */
  const MaxSafeInteger := 9007199254740991

  /** A bare MAJOR.MINOR.PATCH version that the `semver` package reads
      without throwing: at most `MaxLength` characters and no identifier
      above `MaxSafeInteger`. `semver` also reads other spellings (a leading
      `v`, surrounding blanks, prerelease and build suffixes); this
      model compares none of those. */
  predicate ValidVersion(s: string) {
    && |s| <= MaxLength
    && Parse(s).Some?
    && Parse(s).value.major <= MaxSafeInteger
    && Parse(s).value.minor <= MaxSafeInteger
    && Parse(s).value.patch <= MaxSafeInteger
  }

  function CoreOf(s: string): (r: Core)
    requires ValidVersion(s)
  {
    Parse(s).value
  }

  lemma NumeralHasNoDot(s: string)
    requires AllDigits(s)
    ensures '.' !in s
  {
  }

  /** A formatted version splits into its three numerals. */
  lemma SplitFormat(c: Core)
    ensures Split(Format(c), '.') == [Decimal(c.major), Decimal(c.minor), Decimal(c.patch)]
  {
    var a, b, p := Decimal(c.major), Decimal(c.minor), Decimal(c.patch);
    var bp := b + ['.'] + p;
    SplitNumerals(b, p);
    SplitNumeralThen(a, bp);
    assert Format(c) == a + ['.'] + bp;
  }

  /** Two numerals joined by a dot split back into the two. */
  lemma SplitNumerals(a: string, b: string)
    requires AllDigits(a) && AllDigits(b)
    ensures Split(a + ['.'] + b, '.') == [a, b]
  {
    NumeralHasNoDot(a);
    NumeralHasNoDot(b);
    SplitWithoutSeparator(a, '.');
    SplitWithoutSeparator(b, '.');
    SplitAppend(a, b, '.');
  }

  /** A numeral, a dot and anything: the numeral is the first part. */
  lemma SplitNumeralThen(a: string, rest: string)
    requires AllDigits(a)
    ensures Split(a + ['.'] + rest, '.') == [a] + Split(rest, '.')
  {
    NumeralHasNoDot(a);
    SplitWithoutSeparator(a, '.');
    SplitAppend(a, rest, '.');
  }

  /** Parsing recovers the core a version was formatted from. */
  lemma ParseFormat(c: Core)
    ensures Parse(Format(c)) == Some(c)
  {
    SplitFormat(c);
    NumeralValueOfDecimal(c.major);
    NumeralValueOfDecimal(c.minor);
    NumeralValueOfDecimal(c.patch);
  }

  /** `10` to the power `k`. */
  function Pow10(k: nat): (r: nat)
    ensures r >= 1
  {
    if k == 0 then 1 else 10 * Pow10(k - 1)
  }

  /** A number below `10^k` has at most `k` digits. */
  lemma {:induction false} DecimalLength(n: nat, k: nat)
    requires k >= 1 && n < Pow10(k)
    ensures |Decimal(n)| <= k
    decreases k
  {
    if n >= 10 {
      DecimalLength(n / 10, k - 1);
    }
  }

  /** A core formats to a version `semver` reads exactly when none of its
      identifiers exceeds `MaxSafeInteger` (above it the constructor throws);
      reading it then gives the core back. */
  lemma FormatValid(c: Core)
    ensures ValidVersion(Format(c))
        <==> c.major <= MaxSafeInteger && c.minor <= MaxSafeInteger && c.patch <= MaxSafeInteger
    ensures ValidVersion(Format(c)) ==> CoreOf(Format(c)) == c
  {
    ParseFormat(c);
    if c.major <= MaxSafeInteger && c.minor <= MaxSafeInteger && c.patch <= MaxSafeInteger {
      assert Pow10(4) == 10000;
      assert MaxSafeInteger < Pow10(16);
      DecimalLength(c.major, 16);
      DecimalLength(c.minor, 16);
      DecimalLength(c.patch, 16);
    }
  }

  /** Every valid version is the formatting of its core: there is one
      spelling per core. */
  lemma FormatParse(s: string)
    requires ValidVersion(s)
    ensures Format(CoreOf(s)) == s
  {
    var parts := Split(s, '.');
    DecimalOfNumeral(parts[0]);
    DecimalOfNumeral(parts[1]);
    DecimalOfNumeral(parts[2]);
    var rest := parts[1..];
    assert rest[1..] == [parts[2]];
    assert Join(rest, '.') == parts[1] + "." + parts[2];
    assert Join(parts, '.') == parts[0] + "." + (parts[1] + "." + parts[2]);
  }

  lemma ParseInjective(s: string, t: string)
    requires ValidVersion(s) && ValidVersion(t)
    requires CoreOf(s) == CoreOf(t)
    ensures s == t
  {
    FormatParse(s);
    FormatParse(t);
  }

  /** semver's `compareIdentifiers` on two numeric identifiers. */
  function CompareNat(a: nat, b: nat): (r: int) {
    if a == b then 0 else if a < b then -1 else 1
  }

  /** semver's `compareMain`: the first identifier that differs decides. */
  function CompareCores(a: Core, b: Core): (r: int)
    ensures r == -1 || r == 0 || r == 1
    ensures r < 0 <==> Below(a, b)
    ensures r == 0 <==> a == b
    ensures r > 0 <==> Below(b, a)
  {
    var major := CompareNat(a.major, b.major);
    if major != 0 then major
    else
      var minor := CompareNat(a.minor, b.minor);
      if minor != 0 then minor else CompareNat(a.patch, b.patch)
  }

  /** `semver.compare` on two MAJOR.MINOR.PATCH versions. */
  function Compare(a: string, b: string): (r: int)
    requires ValidVersion(a) && ValidVersion(b)
    ensures r == -1 || r == 0 || r == 1
    ensures r < 0 <==> Below(CoreOf(a), CoreOf(b))
    ensures r == 0 <==> a == b
  {
    if CoreOf(a) == CoreOf(b) then ParseInjective(a, b); 0
    else CompareCores(CoreOf(a), CoreOf(b))
  }

  /** `semver.rcompare`: the reverse order, highest precedence first. */
  function RCompare(a: string, b: string): (r: int)
    requires ValidVersion(a) && ValidVersion(b)
    ensures r == -1 || r == 0 || r == 1
    ensures r < 0 <==> Below(CoreOf(b), CoreOf(a))
    ensures r == 0 <==> a == b
  {
    Compare(b, a)
  }
}
