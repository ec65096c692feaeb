/** Size formatting: `format_size`, `format_size_auto` and
    `format_percentage`.

    The integer branches are rendered exactly. A size of one unit or more
    is printed from a floating-point quotient with a fixed number of
    decimals; that rendering is not modelled, and the result keeps the
    exact quotient (numerator, denominator), the precision and the unit
    instead. */
module Format {

  /** `UnitSystem`: 1024-based or 1000-based units. */
  datatype UnitSystem = Binary | Si

  /** `UnitSystem::default()`. */
  const DefaultUnitSystem: UnitSystem := Binary

  function Base(u: UnitSystem): nat {
    match u
    case Binary => 1024
    case Si => 1000
  }

  /** The unit tables, smallest first. */
  function Units(u: UnitSystem): seq<string> {
    match u
    case Binary => ["B", "K", "M", "G", "T", "P"]
    case Si => ["B", "KB", "MB", "GB", "TB", "PB"]
  }

  /** The index of the last unit, the same in both tables. */
  const LastUnit: nat := 5

  function Pow(b: nat, k: nat): nat {
    if k == 0 then 1 else b * Pow(b, k - 1)
  }

  lemma {:induction false} PowMonotone(b: nat, i: nat, j: nat)
    requires b >= 1 && i <= j
    ensures 1 <= Pow(b, i) <= Pow(b, j)
    decreases j
  {
    if j > 0 {
      PowMonotone(b, if i < j then i else 0, j - 1);
      assert Pow(b, j) == b * Pow(b, j - 1);
    }
  }

  /** The largest `r <= k` whose power of `base` does not exceed `bytes`
      (0 when none does). */
  function HighestUnitFrom(bytes: nat, base: nat, k: nat): (r: nat)
    ensures r <= k
    ensures r == 0 || Pow(base, r) <= bytes
    ensures forall j :: r < j <= k ==> bytes < Pow(base, j)
  {
    if k == 0 || Pow(base, k) <= bytes then k else HighestUnitFrom(bytes, base, k - 1)
  }

  /** The unit `format_size` chooses: the largest unit whose size does not
      exceed `bytes`, and at most the last one. */
  function UnitIndex(bytes: nat, u: UnitSystem): nat {
    HighestUnitFrom(bytes, Base(u), LastUnit)
  }

  /** The highest unit is the only `k` that both fits `bytes` and is either
      the last unit or one below a unit that does not fit. */
  lemma HighestUnitIsUnique(bytes: nat, base: nat, n: nat, k: nat)
    requires base >= 2 && bytes >= 1 && k <= n
    requires Pow(base, k) <= bytes
    requires k == n || bytes < Pow(base, k + 1)
    ensures HighestUnitFrom(bytes, base, n) == k
  {
    var r := HighestUnitFrom(bytes, base, n);
    forall i, j | i <= j ensures Pow(base, i) <= Pow(base, j) {
      PowMonotone(base, i, j);
    }
  }

  /** What `format_size` prints: an exact text, or a quotient
      `numerator / denominator` rendered with `precision` decimals and
      followed by `unit`. */
  datatype SizeText =
    | Exact(text: string)
    | Scaled(numerator: nat, denominator: nat, precision: nat, unit: string)

  /** The decimal digits of `n`, as `format!("{}", n)` writes them. */
  function DecimalString(n: nat): (s: string)
    ensures |s| >= 1 && (|s| > 1 ==> s[0] != '0')
    ensures forall i :: 0 <= i < |s| ==> '0' <= s[i] <= '9'
  {
    if n < 10 then [Digit(n)] else DecimalString(n / 10) + [Digit(n % 10)]
  }

  function Digit(d: nat): (c: char)
    requires d < 10
    ensures '0' <= c <= '9' && DigitValue(c) == d
  {
    "0123456789"[d]
  }

  function DigitValue(c: char): nat
    requires '0' <= c <= '9'
  {
    c as int - '0' as int
  }

  /** Reading a decimal string back. */
  function ParseDecimal(s: string): nat
    requires forall i :: 0 <= i < |s| ==> '0' <= s[i] <= '9'
  {
    if |s| == 0 then 0 else 10 * ParseDecimal(s[..|s| - 1]) + DigitValue(s[|s| - 1])
  }

  lemma {:induction false} DecimalStringRoundTrip(n: nat)
    ensures ParseDecimal(DecimalString(n)) == n
  {
    var s := DecimalString(n);
    if n >= 10 {
      DecimalStringRoundTrip(n / 10);
      assert s[..|s| - 1] == DecimalString(n / 10);
      assert DigitValue(s[|s| - 1]) == n % 10;
      assert ParseDecimal(s) == 10 * (n / 10) + n % 10;
    }
  }

  /** The text `format_size(bytes, u, precision)` produces. */
  function SizeTextOf(bytes: nat, u: UnitSystem, precision: nat): SizeText {
    if bytes == 0 then Exact("0 B")
    else
      var k := UnitIndex(bytes, u);
      if k == 0 then Exact(DecimalString(bytes) + " B")
      else Scaled(bytes, Pow(Base(u), k), precision, Units(u)[k])
  }

  /** `format_size`. The loop divides while the quotient is at least the
      base and a larger unit exists; `size` is kept exactly as
      `bytes / divisor`. */
  method FormatSize(bytes: nat, u: UnitSystem, precision: nat) returns (r: SizeText)
    ensures r == SizeTextOf(bytes, u, precision)
  {
    var base := Base(u);
    var units := Units(u);
    if bytes == 0 {
      return Exact("0 B");
    }
    var divisor := 1;
    var unitIndex := 0;
    while bytes >= divisor * base && unitIndex < |units| - 1
      invariant unitIndex <= |units| - 1 == LastUnit
      invariant divisor == Pow(base, unitIndex) <= bytes
      decreases |units| - unitIndex
    {
      divisor := divisor * base;
      unitIndex := unitIndex + 1;
    }
    assert Pow(base, unitIndex + 1) == divisor * base;
    HighestUnitIsUnique(bytes, base, LastUnit, unitIndex);
    if unitIndex == 0 {
      r := Exact(DecimalString(bytes) + " B");
    } else {
      r := Scaled(bytes, divisor, precision, units[unitIndex]);
    }
  }

  /** `format_size_auto`: binary units, one decimal. */
  method FormatSizeAuto(bytes: nat) returns (r: SizeText)
    ensures r == SizeTextOf(bytes, DefaultUnitSystem, 1)
  {
    r := FormatSize(bytes, Binary, 1);
  }

  // ---------------------------------------------------------------------
  // What the size text promises

  /** Zero bytes is "0 B" in both unit systems. */
  lemma ZeroIsZeroBytes(u: UnitSystem, precision: nat)
    ensures SizeTextOf(0, u, precision) == Exact("0 B")
  {
  }

  /** A size below the base is printed as the integer and " B", with no
      decimals, and reads back as the same number; a size of at least the
      base is never printed in bytes. */
  lemma BelowBaseIsPlainBytes(bytes: nat, u: UnitSystem, precision: nat)
    requires bytes > 0
    ensures bytes < Base(u) <==> SizeTextOf(bytes, u, precision) == Exact(DecimalString(bytes) + " B")
    ensures bytes < Base(u) ==> ParseDecimal(DecimalString(bytes)) == bytes
  {
    DecimalStringRoundTrip(bytes);
    var k := UnitIndex(bytes, u);
    assert Pow(Base(u), 1) == Base(u);
    if k >= 1 {
      PowMonotone(Base(u), 1, k);
    }
    assert k == 0 <==> bytes < Base(u);
  }

  /** A scaled size shows the quotient by the largest power of the base that
      does not exceed it: at least 1, and below the base unless the unit is
      the last one. */
  lemma ScaledQuotientInRange(bytes: nat, u: UnitSystem, precision: nat)
    requires SizeTextOf(bytes, u, precision).Scaled?
    ensures var t := SizeTextOf(bytes, u, precision);
      && t.numerator == bytes && t.denominator >= 1
      && t.denominator <= bytes
      && (t.unit != Units(u)[LastUnit] ==> bytes < t.denominator * Base(u))
      && t.unit in Units(u)[1..]
  {
    var k := UnitIndex(bytes, u);
    PowMonotone(Base(u), 0, k);
    if k < LastUnit {
      assert bytes < Pow(Base(u), k + 1);
    }
  }

  /** The binary unit sizes. */
  lemma BinaryPowers()
    ensures Pow(1024, 1) == 1024 && Pow(1024, 2) == 1048576 && Pow(1024, 3) == 1073741824
    ensures Pow(1024, 4) == 1099511627776 && Pow(1024, 5) == 1125899906842624
  {
  }

  /** Below 1024 the size is printed in bytes. */
  lemma BinaryBytesExample()
    ensures SizeTextOf(500, Binary, 1) == Exact("500 B")
  {
    assert DecimalString(500) == "500" by {
      assert DecimalString(5) == "5";
      assert DecimalString(50) == "50";
    }
    BelowBaseIsPlainBytes(500, Binary, 1);
  }

  /** 1024 and 1536 bytes are shown in K. */
  lemma BinaryKibiExamples()
    ensures SizeTextOf(1024, Binary, 1) == Scaled(1024, 1024, 1, "K")
    ensures SizeTextOf(1536, Binary, 1) == Scaled(1536, 1024, 1, "K")
  {
    BinaryPowers();
  }

  /** 1048576 and 1572864 bytes are shown in M, 1073741824 in G. */
  lemma BinaryMebiGibiExamples()
    ensures SizeTextOf(1048576, Binary, 1) == Scaled(1048576, 1048576, 1, "M")
    ensures SizeTextOf(1572864, Binary, 1) == Scaled(1572864, 1048576, 1, "M")
    ensures SizeTextOf(1073741824, Binary, 1) == Scaled(1073741824, 1073741824, 1, "G")
  {
    BinaryPowers();
  }

  lemma SiExamples()
    ensures SizeTextOf(1000, Si, 1) == Scaled(1000, 1000, 1, "KB")
    ensures SizeTextOf(1500, Si, 1) == Scaled(1500, 1000, 1, "KB")
    ensures SizeTextOf(1000000, Si, 1) == Scaled(1000000, 1000000, 1, "MB")
    ensures SizeTextOf(1000000000, Si, 1) == Scaled(1000000000, 1000000000, 1, "GB")
  {
  }

  // ---------------------------------------------------------------------
  // Percentages

  /** What `format_percentage` prints: the literal "0%" for a zero total, or
      `part / total * 100` rendered right-aligned in three places with no
      decimals, followed by "%". */
  datatype PercentText = Literal(text: string) | Ratio(part: nat, total: nat)

  function FormatPercentage(part: nat, total: nat): (r: PercentText)
    ensures r.Literal? <==> total == 0
    ensures r.Literal? ==> r.text == "0%"
    ensures r.Ratio? ==> r.part == part && r.total == total
  {
    if total == 0 then Literal("0%") else Ratio(part, total)
  }
}
