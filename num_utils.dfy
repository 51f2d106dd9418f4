/** Number formatting and the numeric type tables of src/num_utils.rs (the
    formatter is duplicated verbatim in src/app.rs). */
module NumUtils {

  /** Rust's `u64`. */
  newtype u64 = x: int | 0 <= x < 0x1_0000_0000_0000_0000

  // ---------------------------------------------------------------------
  // Decimal representation (`u64::to_string`)
  // ---------------------------------------------------------------------

  predicate IsDigit(c: char) {
    '0' <= c <= '9'
  }

  predicate AllDigits(s: string) {
    forall j :: 0 <= j < |s| ==> IsDigit(s[j])
  }

  function DigitChar(d: nat): (c: char)
    requires d < 10
    ensures IsDigit(c)
  {
    ('0' as int + d) as char
  }

  function DigitValue(c: char): (d: nat)
    requires IsDigit(c)
    ensures d < 10
  {
    c as int - '0' as int
  }

  /** The decimal digits of `n`, most significant first, without leading zeros. */
  function DecimalDigits(n: nat): (r: string)
    ensures |r| >= 1 && AllDigits(r)
    ensures r[0] == '0' ==> n == 0
  {
    if n < 10 then [DigitChar(n)] else DecimalDigits(n / 10) + [DigitChar(n % 10)]
  }

  /** The value of a string of decimal digits. */
  function ParseDecimal(s: string): nat
    requires AllDigits(s)
  {
    if s == [] then 0 else ParseDecimal(s[..|s| - 1]) * 10 + DigitValue(s[|s| - 1])
  }

  /** `DecimalDigits` is the decimal representation: reading it back gives `n`. */
  lemma {:induction false} DecimalRoundTrip(n: nat)
    ensures ParseDecimal(DecimalDigits(n)) == n
  {
    if n >= 10 {
      DecimalRoundTrip(n / 10);
      var s := DecimalDigits(n);
      assert s[..|s| - 1] == DecimalDigits(n / 10);
    }
  }

  function Pow10(k: nat): (r: nat)
    ensures r >= 1
  {
    if k == 0 then 1 else 10 * Pow10(k - 1)
  }

  /** `n` has at most `k` digits exactly when it is below 10^k. */
  lemma {:induction false} DigitCount(n: nat, k: nat)
    requires k >= 1
    ensures |DecimalDigits(n)| <= k <==> n < Pow10(k)
  {
    if n >= 10 {
      if k == 1 {
        assert |DecimalDigits(n)| == |DecimalDigits(n / 10)| + 1;
      } else {
        DigitCount(n / 10, k - 1);
      }
    }
  }

  // ---------------------------------------------------------------------
  // format_integer_with_underscore
  // ---------------------------------------------------------------------

  /** Reference grouping: `_` between groups of three characters, counted
      from the right. */
  function Group(s: string): string
    decreases |s|
  {
    if |s| <= 3 then s else Group(s[..|s| - 3]) + "_" + s[|s| - 3..]
  }

  /** What the formatting loop has produced after reading the prefix `p` of a
      string of `total` characters: a `_` before the character at position
      `i > 0` whenever `total - i` is a multiple of three. */
  function SeparatedPrefix(p: string, total: int): string
    decreases |p|
  {
    if p == [] then []
    else
      var i := |p| - 1;
      SeparatedPrefix(p[..i], total) + (if i > 0 && (total - i) % 3 == 0 then "_" else "") + [p[i]]
  }

  /** `format_integer_with_underscore`: the digits of `num` grouped by three
      from the right. */
  method FormatIntegerWithUnderscore(num: u64) returns (formatted: string)
    ensures formatted == Group(DecimalDigits(num as nat))
  {
    var numStr := DecimalDigits(num as nat);
    formatted := "";
    var len := |numStr|;
    for i := 0 to len
      invariant formatted == SeparatedPrefix(numStr[..i], len)
    {
      if i > 0 && (len - i) % 3 == 0 {
        formatted := formatted + "_";
      }
      formatted := formatted + [numStr[i]];
      assert numStr[..i + 1][..i] == numStr[..i];
    }
    assert numStr[..len] == numStr;
    SeparatedPrefixIsGroup(numStr);
  }

  /** Only the residue of `total` modulo 3 matters to the loop. */
  lemma {:induction false} SeparatedPrefixMod3(p: string, total: int, total': int)
    requires total % 3 == total' % 3
    ensures SeparatedPrefix(p, total) == SeparatedPrefix(p, total')
    decreases |p|
  {
    if p != [] {
      var i := |p| - 1;
      SeparatedPrefixMod3(p[..i], total, total');
      ShiftKeepsMod3(total, total', i);
    }
  }

  lemma ShiftKeepsMod3(total: int, total': int, i: int)
    requires total % 3 == total' % 3
    ensures (total - i) % 3 == (total' - i) % 3
  {
  }

  /** The loop reading the last three characters of a string longer than
      three: one `_`, then the characters. */
  lemma {:induction false} SeparatedPrefixGroupStep(s: string)
    requires |s| > 3
    ensures SeparatedPrefix(s, |s|) == SeparatedPrefix(s[..|s| - 3], |s|) + "_" + s[|s| - 3..]
  {
    var n := |s|;
    assert s[..n - 1][..n - 2] == s[..n - 2];
    assert s[..n - 2][..n - 3] == s[..n - 3];
    calc {
      SeparatedPrefix(s, n);
      SeparatedPrefix(s[..n - 1], n) + [s[n - 1]];
      SeparatedPrefix(s[..n - 2], n) + [s[n - 2]] + [s[n - 1]];
      SeparatedPrefix(s[..n - 3], n) + "_" + [s[n - 3]] + [s[n - 2]] + [s[n - 1]];
      { assert s[n - 3..] == [s[n - 3]] + [s[n - 2]] + [s[n - 1]]; }
      SeparatedPrefix(s[..n - 3], n) + "_" + s[n - 3..];
    }
  }

  /** A string longer than three groups its last three characters alone. */
  lemma {:induction false} GroupUnfold(s: string)
    requires |s| > 3
    ensures Group(s) == Group(s[..|s| - 3]) + "_" + s[|s| - 3..]
  {
  }

  /** The left-to-right loop computes the right-to-left grouping. */
  lemma {:induction false} SeparatedPrefixIsGroup(s: string)
    ensures SeparatedPrefix(s, |s|) == Group(s)
    decreases |s|
  {
    var n := |s|;
    if n <= 3 {
      NoSeparatorBelowFour(s, n);
    } else {
      var a := s[..n - 3];
      SeparatedPrefixGroupStep(s);
      SeparatedPrefixMod3(a, n, |a|);
      SeparatedPrefixIsGroup(a);
      GroupUnfold(s);
    }
  }

  lemma {:induction false} NoSeparatorBelowFour(p: string, total: int)
    requires |p| <= total <= 3
    ensures SeparatedPrefix(p, total) == p
    decreases |p|
  {
    if p != [] {
      NoSeparatorBelowFour(p[..|p| - 1], total);
      assert p[..|p| - 1] + [p[|p| - 1]] == p;
    }
  }

  /** Deleting every `_`. */
  function RemoveUnderscores(s: string): (r: string)
    decreases |s|
  {
    if s == [] then []
    else RemoveUnderscores(s[..|s| - 1]) + (if s[|s| - 1] == '_' then "" else [s[|s| - 1]])
  }

  lemma {:induction false} RemoveUnderscoresAppend(a: string, b: string)
    ensures RemoveUnderscores(a + b) == RemoveUnderscores(a) + RemoveUnderscores(b)
    decreases |b|
  {
    if b == [] {
      assert a + b == a;
    } else {
      var b' := b[..|b| - 1];
      RemoveUnderscoresAppend(a, b');
      assert (a + b)[..|a + b| - 1] == a + b';
    }
  }

  lemma {:induction false} RemoveUnderscoresNone(s: string)
    requires forall j :: 0 <= j < |s| ==> s[j] != '_'
    ensures RemoveUnderscores(s) == s
    decreases |s|
  {
    if s != [] {
      RemoveUnderscoresNone(s[..|s| - 1]);
    }
  }

  /** Deleting the separators from a grouping gives back the digits. */
  lemma {:induction false} GroupRemoveUnderscores(s: string)
    requires forall j :: 0 <= j < |s| ==> s[j] != '_'
    ensures RemoveUnderscores(Group(s)) == s
    decreases |s|
  {
    if |s| <= 3 {
      RemoveUnderscoresNone(s);
    } else {
      var a, b := s[..|s| - 3], s[|s| - 3..];
      var g := Group(a);
      assert Group(s) == g + "_" + b;
      GroupRemoveUnderscores(a);
      RemoveUnderscoresAppend(g + "_", b);
      RemoveUnderscoresAppend(g, "_");
      assert RemoveUnderscores("_") == [] by {
        assert "_"[..0] == [];
      }
      RemoveUnderscoresNone(b);
      assert a + b == s;
    }
  }

  /** Length of a grouping of `d` characters: `d + (d - 1) / 3`. */
  lemma {:induction false} GroupLength(s: string)
    requires |s| >= 1
    ensures |Group(s)| == |s| + (|s| - 1) / 3
    decreases |s|
  {
    if |s| > 3 {
      GroupUnfold(s);
      GroupLength(s[..|s| - 3]);
    }
  }

  /** The character at position `j` of a grouping is `_` exactly when
      `j > 0` and its distance from the end is a multiple of four. */
  lemma {:induction false} GroupAt(s: string, j: nat)
    requires |s| >= 1 && forall k :: 0 <= k < |s| ==> s[k] != '_'
    requires j < |Group(s)|
    ensures Group(s)[j] == '_' <==> j > 0 && (|Group(s)| - j) % 4 == 0
    decreases |s|
  {
    if |s| <= 3 {
      assert Group(s) == s;
      assert 1 <= |s| - j <= 3;
    } else {
      var a, b := s[..|s| - 3], s[|s| - 3..];
      GroupUnfold(s);
      var g := Group(a);
      var r := g + "_" + b;
      assert |r| == |g| + 4;
      if j < |g| {
        GroupAt(a, j);
        assert r[j] == g[j];
        AddFourKeepsRemainder(|g| - j);
      } else if j == |g| {
        assert |r| - j == 4;
      } else {
        assert 1 <= |r| - j <= 3;
        assert r[j] == s[|s| - 3 + (j - |g| - 1)];
      }
    }
  }

  /** Shape of a grouping of `d` characters: length `d + (d - 1) / 3`, and
      the `_` stand exactly at the positions `j > 0` whose distance from the
      end is a multiple of four. */
  lemma {:induction false} GroupShape(s: string)
    requires |s| >= 1 && forall j :: 0 <= j < |s| ==> s[j] != '_'
    ensures |Group(s)| == |s| + (|s| - 1) / 3
    ensures forall j :: 0 <= j < |Group(s)| ==>
      (Group(s)[j] == '_' <==> j > 0 && (|Group(s)| - j) % 4 == 0)
  {
    GroupLength(s);
    forall j | 0 <= j < |Group(s)|
      ensures Group(s)[j] == '_' <==> j > 0 && (|Group(s)| - j) % 4 == 0
    {
      GroupAt(s, j);
    }
  }

  /** The consequences of `GroupShape` for a formatted number: it neither
      starts nor ends with `_`, has no two adjacent `_`, every group after the
      first has exactly three digits and the first has one to three. */
  lemma {:induction false} GroupedDigitRuns(s: string)
    requires |s| >= 1 && forall j :: 0 <= j < |s| ==> s[j] != '_'
    ensures Group(s)[0] != '_' && Group(s)[|Group(s)| - 1] != '_'
    ensures forall j :: 0 <= j < |Group(s)| - 1 ==> !(Group(s)[j] == '_' && Group(s)[j + 1] == '_')
    ensures forall j :: 0 <= j < |Group(s)| && Group(s)[j] == '_' ==>
      && j + 3 < |Group(s)|
      && Group(s)[j + 1] != '_' && Group(s)[j + 2] != '_' && Group(s)[j + 3] != '_'
      && (j + 4 == |Group(s)| || Group(s)[j + 4] == '_')
    ensures |Group(s)| > 3 ==> exists k :: 1 <= k <= 3 && Group(s)[k] == '_'
    ensures |Group(s)| % 4 != 0
  {
    GroupLengthNotMultipleOfFour(s);
    GroupAt(s, 0);
    GroupAt(s, |Group(s)| - 1);
    var r := Group(s);
    forall j | 0 <= j < |r| && r[j] == '_'
      ensures j + 3 < |r| && r[j + 1] != '_' && r[j + 2] != '_' && r[j + 3] != '_'
      ensures j + 4 == |r| || r[j + 4] == '_'
    {
      SeparatorStartsGroup(s, j);
    }
    forall j | 0 <= j < |r| - 1
      ensures !(r[j] == '_' && r[j + 1] == '_')
    {
      if r[j] == '_' {
        SeparatorStartsGroup(s, j);
      }
    }
    GroupLength(s);
    if |r| > 3 {
      FirstSeparator(s);
      assert r[|r| % 4] == '_';
    }
  }

  /** A grouping's length leaves a remainder of 1 to 3 when divided by four. */
  lemma {:induction false} GroupLengthNotMultipleOfFour(s: string)
    requires |s| >= 1
    ensures 1 <= |Group(s)| % 4 <= 3
  {
    GroupLength(s);
    var d := |s|;
    assert |Group(s)| == d + (d - 1) / 3;
  }

  /** In a grouping of more than three digits, the first `_` stands at the
      length's remainder modulo four. */
  lemma {:induction false} FirstSeparator(s: string)
    requires |s| > 3 && forall k :: 0 <= k < |s| ==> s[k] != '_'
    ensures |Group(s)| >= 5
    ensures Group(s)[|Group(s)| % 4] == '_'
  {
    GroupLength(s);
    GroupLengthNotMultipleOfFour(s);
    var n := |Group(s)|;
    RemainderRemoved(n);
    GroupAt(s, n % 4);
  }

  /** Arithmetic about the distance to the end of a grouping: a multiple of
      four is positive here, and its three lower neighbours are not multiples. */
  lemma MultipleOfFourNeighbours(m: int)
    requires m > 0 && m % 4 == 0
    ensures m >= 4 && (m - 1) % 4 == 3 && (m - 2) % 4 == 2 && (m - 3) % 4 == 1 && (m - 4) % 4 == 0
  {
  }

  /** Subtracting its remainder leaves a multiple of four. */
  lemma RemainderRemoved(n: int)
    ensures (n - n % 4) % 4 == 0
  {
  }

  /** Adding four keeps the remainder. */
  lemma AddFourKeepsRemainder(m: int)
    ensures (m + 4) % 4 == m % 4
  {
  }

  /** A `_` in a grouping is followed by three digits and then by the end or
      by the next `_`. */
  lemma {:induction false} SeparatorStartsGroup(s: string, j: nat)
    requires |s| >= 1 && forall k :: 0 <= k < |s| ==> s[k] != '_'
    requires j < |Group(s)| && Group(s)[j] == '_'
    ensures j + 3 < |Group(s)|
    ensures Group(s)[j + 1] != '_' && Group(s)[j + 2] != '_' && Group(s)[j + 3] != '_'
    ensures j + 4 == |Group(s)| || Group(s)[j + 4] == '_'
  {
    var n := |Group(s)|;
    GroupAt(s, j);
    MultipleOfFourNeighbours(n - j);
    GroupAt(s, j + 1);
    GroupAt(s, j + 2);
    GroupAt(s, j + 3);
    if j + 4 < n {
      GroupAt(s, j + 4);
    }
  }

  /** Numbers below 1000 have no separator; the grouping is the plain digits. */
  lemma SmallNumbersUnseparated(n: nat)
    requires n < 1000
    ensures Group(DecimalDigits(n)) == DecimalDigits(n)
    ensures forall j :: 0 <= j < |Group(DecimalDigits(n))| ==> Group(DecimalDigits(n))[j] != '_'
  {
    DigitCount(n, 3);
  }

  /** Numbers from 1000 up carry a separator after their leading group. */
  lemma LargeNumbersSeparated(n: nat)
    requires n >= 1000
    ensures |Group(DecimalDigits(n))| >= 5 && 1 <= |Group(DecimalDigits(n))| % 4 <= 3
    ensures Group(DecimalDigits(n))[|Group(DecimalDigits(n))| % 4] == '_'
  {
    var s := DecimalDigits(n);
    DigitCount(n, 3);
    GroupLengthNotMultipleOfFour(s);
    FirstSeparator(s);
  }

  // ---------------------------------------------------------------------
  // File size texts
  // ---------------------------------------------------------------------

  /** `file_size_fmt_no_scale`: the grouped digits followed by " B". */
  method FileSizeFmtNoScale(size: u64) returns (text: string)
    ensures text == Group(DecimalDigits(size as nat)) + " B"
    ensures RemoveUnderscores(text[..|text| - 2]) == DecimalDigits(size as nat)
  {
    var grouped := FormatIntegerWithUnderscore(size);
    text := grouped + " B";
    assert text[..|text| - 2] == grouped;
    GroupRemoveUnderscores(DecimalDigits(size as nat));
  }

  /** The text of `file_size_fmt`: sizes below 1024 are written out in plain
      digits; larger sizes are scaled to metric units by a foreign formatter,
      which this model does not render. */
  datatype SizeText = Plain(text: string) | MetricScaled(size: u64)

  /** `file_size_fmt`. */
  function FileSizeFmt(size: u64): SizeText
  {
    if size < 1024 then Plain(DecimalDigits(size as nat) + " B") else MetricScaled(size)
  }

  /** Below 1024 the text is the plain decimal digits of the size, which read
      back as the size, followed by " B"; from 1024 on the scaled branch is taken. */
  lemma {:induction false} FileSizeFmtSmall(size: u64)
    ensures FileSizeFmt(size).Plain? <==> size < 1024
    ensures FileSizeFmt(size).Plain? ==>
      && |FileSizeFmt(size).text| >= 3
      && FileSizeFmt(size).text[|FileSizeFmt(size).text| - 2..] == " B"
      && AllDigits(FileSizeFmt(size).text[..|FileSizeFmt(size).text| - 2])
      && ParseDecimal(FileSizeFmt(size).text[..|FileSizeFmt(size).text| - 2]) == size as nat
  {
    if size < 1024 {
      var t := FileSizeFmt(size).text;
      assert t[..|t| - 2] == DecimalDigits(size as nat);
      DecimalRoundTrip(size as nat);
    }
  }

  /** Below 1000 the scaled and unscaled formatters agree; from 1000 to 1023
      they do not, because only the unscaled one inserts a separator. */
  lemma PlainAgreesBelowThousand(size: u64)
    ensures size < 1000 ==> FileSizeFmt(size) == Plain(Group(DecimalDigits(size as nat)) + " B")
    ensures 1000 <= size < 1024 ==> FileSizeFmt(size) != Plain(Group(DecimalDigits(size as nat)) + " B")
  {
    if size < 1000 {
      SmallNumbersUnseparated(size as nat);
    } else if size < 1024 {
      LargeNumbersSeparated(size as nat);
      var d := DecimalDigits(size as nat);
      var g := Group(d);
      var k := |g| % 4;
      var t := FileSizeFmt(size).text;
      assert t == d + " B";
      DigitCount(size as nat, 3);
      assert k < |d| && t[k] == d[k] && IsDigit(d[k]);
      assert (g + " B")[k] == '_';
    }
  }

  /** The unit tests of `file_size_fmt` below 1024. */
  lemma FileSizeFmtExamples()
    ensures FileSizeFmt(1) == Plain("1 B")
    ensures FileSizeFmt(999) == Plain("999 B")
  {
    assert DecimalDigits(99) == "99";
  }

  /** The unit test of `file_size_fmt_no_scale`. */
  lemma FileSizeFmtNoScaleExample()
    ensures Group(DecimalDigits(123123123123)) + " B" == "123_123_123_123 B"
  {
    DigitsOfExample();
    GroupOfExample();
  }

  lemma GroupOfExample()
    ensures Group("123123123123") == "123_123_123_123"
  {
    var s, s9, s6 := "123123123123", "123123123", "123123";
    assert Group(s6) == "123_123" by {
      GroupUnfold(s6);
      assert s6[..3] == "123" && s6[3..] == "123";
    }
    assert Group(s9) == "123_123_123" by {
      GroupUnfold(s9);
      assert s9[..6] == s6 && s9[6..] == "123";
    }
    GroupUnfold(s);
    assert s[..9] == s9 && s[9..] == "123";
  }

  lemma DigitsOfExample()
    ensures DecimalDigits(123123123123) == "123123123123"
  {
    assert DecimalDigits(1) == "1";
    assert DecimalDigits(12) == "12";
    assert DecimalDigits(123) == "123";
    assert DecimalDigits(1231) == "1231";
    assert DecimalDigits(12312) == "12312";
    assert DecimalDigits(123123) == "123123";
    assert DecimalDigits(1231231) == "1231231";
    assert DecimalDigits(12312312) == "12312312";
    assert DecimalDigits(123123123) == "123123123";
    assert DecimalDigits(1231231231) == "1231231231";
    assert DecimalDigits(12312312312) == "12312312312";
  }

  // ---------------------------------------------------------------------
  // Element types, accumulators and NaN
  // ---------------------------------------------------------------------

  /** The numeric types named in the type tables. */
  datatype NumType = Bool | U8 | U16 | U32 | U64 | U128 | I8 | I16 | I32 | I64 | I128 | F32 | F64

  /** Element types that implement `Summable` and `IsNan`. */
  predicate IsElementType(t: NumType) {
    t != U128 && t != I128
  }

  predicate IsIntegral(t: NumType) {
    t != F32 && t != F64
  }

  /** The `Summable` table: the accumulator type for each element type. */
  function AccumulatorType(t: NumType): NumType
    requires IsElementType(t)
  {
    match t
    case Bool | U8 | U16 | U32 => U64
    case U64 => U128
    case I8 | I16 | I32 => I64
    case I64 => I128
    case F32 | F64 => F64
  }

  /** Smallest value of an integral type (`false` counts as 0). */
  function MinValue(t: NumType): int
    requires IsIntegral(t)
  {
    match t
    case Bool | U8 | U16 | U32 | U64 | U128 => 0
    case I8 => -0x80
    case I16 => -0x8000
    case I32 => -0x8000_0000
    case I64 => -0x8000_0000_0000_0000
    case I128 => -0x8000_0000_0000_0000_0000_0000_0000_0000
  }

  /** Largest value of an integral type (`true` counts as 1). */
  function MaxValue(t: NumType): int
    requires IsIntegral(t)
  {
    match t
    case Bool => 1
    case U8 => 0xFF
    case U16 => 0xFFFF
    case U32 => 0xFFFF_FFFF
    case U64 => 0xFFFF_FFFF_FFFF_FFFF
    case U128 => 0xFFFF_FFFF_FFFF_FFFF_FFFF_FFFF_FFFF_FFFF
    case I8 => 0x7F
    case I16 => 0x7FFF
    case I32 => 0x7FFF_FFFF
    case I64 => 0x7FFF_FFFF_FFFF_FFFF
    case I128 => 0x7FFF_FFFF_FFFF_FFFF_FFFF_FFFF_FFFF_FFFF
  }

  /** Every integral element type converts losslessly into its accumulator
      (`From<Self>`): the accumulator is integral and its range contains the
      element type's. */
  lemma AccumulatorWidens(t: NumType)
    requires IsElementType(t) && IsIntegral(t)
    ensures IsIntegral(AccumulatorType(t))
    ensures MinValue(AccumulatorType(t)) <= MinValue(t) <= MaxValue(t) <= MaxValue(AccumulatorType(t))
  {
  }

  function Sum(xs: seq<int>): int
  {
    if xs == [] then 0 else Sum(xs[..|xs| - 1]) + xs[|xs| - 1]
  }

  /** A sum of values in `[lo, hi]` lies in `[lo * n, hi * n]`. */
  lemma {:induction false} SumBounds(xs: seq<int>, lo: int, hi: int)
    requires forall j :: 0 <= j < |xs| ==> lo <= xs[j] <= hi
    ensures lo * |xs| <= Sum(xs) <= hi * |xs|
  {
    if xs != [] {
      SumBounds(xs[..|xs| - 1], lo, hi);
      assert lo * |xs| == lo * (|xs| - 1) + lo;
      assert hi * |xs| == hi * (|xs| - 1) + hi;
    }
  }

  /** The accumulator is wide enough: summing up to 2^32 values of an
      integral element type never leaves the accumulator's range. */
  lemma AccumulatedSumFits(t: NumType, xs: seq<int>)
    requires IsElementType(t) && IsIntegral(t)
    requires |xs| <= 0x1_0000_0000
    requires forall j :: 0 <= j < |xs| ==> MinValue(t) <= xs[j] <= MaxValue(t)
    ensures IsIntegral(AccumulatorType(t))
    ensures MinValue(AccumulatorType(t)) <= Sum(xs) <= MaxValue(AccumulatorType(t))
  {
    var lo, hi, n := MinValue(t), MaxValue(t), |xs|;
    SumBounds(xs, lo, hi);
    MulMonotone(-lo, n, 0x1_0000_0000);
    MulMonotone(hi, n, 0x1_0000_0000);
  }

  lemma MulMonotone(a: nat, n: nat, m: nat)
    requires n <= m
    ensures a * n <= a * m
  {
  }

  /** `my_is_nan` for an element of type `t`; `floatIsNan` stands for the
      floating-point `is_nan()` of the value, which only the float types consult. */
  function MyIsNan(t: NumType, floatIsNan: bool): bool
    requires IsElementType(t)
  {
    match t
    case Bool => false
    case U8 => false
    case U16 => false
    case U32 => false
    case U64 => false
    case I8 => false
    case I16 => false
    case I32 => false
    case I64 => false
    case F32 => floatIsNan
    case F64 => floatIsNan
  }

  /** `bool` and the integer types are never NaN. */
  lemma IntegralNeverNan(t: NumType, floatIsNan: bool)
    requires IsElementType(t) && IsIntegral(t)
    ensures !MyIsNan(t, floatIsNan)
  {
  }
}
