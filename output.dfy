/** The table helpers of the human-readable output: the colour of a bar,
    the bar itself, the table borders and the shortened directory name.
    The printing around them is not part of the model. */
module Output {
  import opened Wrappers

  /** `Colors`: the ANSI codes put in front of a bar and after it. */
  datatype Colors = Colors(green: string, yellow: string, red: string, reset: string)

  /** `Colors::enabled()`: 256-colour foreground codes. */
  const Enabled := Colors("\U{1B}[38;5;34m", "\U{1B}[38;5;220m", "\U{1B}[38;5;160m", "\U{1B}[0m")

  /** `Colors::disabled()`: every code is empty. */
  const Disabled := Colors("", "", "", "")

  /** `print_results` picks the enabled codes only when colours are on. */
  function ColorsFor(useColors: bool): (c: Colors)
    ensures !useColors ==> c.green == c.yellow == c.red == c.reset == ""
    ensures useColors ==> c.green != c.yellow && c.yellow != c.red && c.red != c.green
  {
    if useColors then Enabled else Disabled
  }

  /** The three classes `select_color` distinguishes. */
  datatype ColorClass = Green | Yellow | Red

  /** The threshold chain of `select_color`, with the integer divisions of
      the source. The classes are characterised without division: red when
      the bar is at least half full (rounding the half down), yellow when it
      reaches 33 % rounded down, green below that. */
  function ClassOf(barLength: nat, barWidth: nat): (c: ColorClass)
    ensures c == Red <==> barWidth <= 2 * barLength + 1
    ensures c == Yellow <==> 33 * barWidth < 100 * (barLength + 1) && 2 * barLength + 1 < barWidth
    ensures c == Green <==> 100 * (barLength + 1) <= 33 * barWidth
  {
    var thresholdYellow := barWidth * 33 / 100;
    var thresholdRed := barWidth * 50 / 100;
    if barLength >= thresholdRed then Red
    else if barLength >= thresholdYellow then Yellow
    else Green
  }

  /** `select_color`: the code of the bar's class. */
  function SelectColor(barLength: nat, barWidth: nat, colors: Colors): string {
    match ClassOf(barLength, barWidth)
    case Red => colors.red
    case Yellow => colors.yellow
    case Green => colors.green
  }

  /** Red exactly when the bar reaches `bar_width * 50 / 100`, yellow
      exactly when it lies between `bar_width * 33 / 100` and that. */
  lemma ClassThresholds(barLength: nat, barWidth: nat)
    ensures ClassOf(barLength, barWidth) == Red <==> barLength >= barWidth * 50 / 100
    ensures ClassOf(barLength, barWidth) == Yellow <==>
              barWidth * 33 / 100 <= barLength < barWidth * 50 / 100
    ensures ClassOf(barLength, barWidth) == Green <==> barLength < barWidth * 33 / 100
  {
  }

  /** The classes grow with the bar: a longer bar is never in a lower
      class. */
  lemma ClassIsMonotone(l1: nat, l2: nat, barWidth: nat)
    requires l1 <= l2
    ensures ClassOf(l1, barWidth) == Red ==> ClassOf(l2, barWidth) == Red
    ensures ClassOf(l2, barWidth) == Green ==> ClassOf(l1, barWidth) == Green
  {
  }

  /** `test_select_color`: on a 30-cell bar, 5, 12 and 20 cells are green,
      yellow and red. */
  lemma SelectColorExamples()
    ensures SelectColor(5, 30, Enabled) == Enabled.green
    ensures SelectColor(12, 30, Enabled) == Enabled.yellow
    ensures SelectColor(20, 30, Enabled) == Enabled.red
  {
  }

  /** With colours off every bar gets the empty code. */
  lemma DisabledColorIsEmpty(barLength: nat, barWidth: nat)
    ensures SelectColor(barLength, barWidth, ColorsFor(false)) == ""
    ensures ColorsFor(false).reset == ""
  {
  }

  // ---------------------------------------------------------------------
  // The bar

  /** The number of filled cells: the truncated float ratio
      `size / max_size * bar_width` (given here as `ratioCells`) when
      `max_size` is positive, 0 otherwise, and never more than the bar. */
  function BarLength(ratioCells: nat, maxSize: nat, barWidth: nat): (l: nat)
    ensures l <= barWidth
    ensures maxSize == 0 ==> l == 0
    ensures maxSize > 0 && ratioCells <= barWidth ==> l == ratioCells
    ensures maxSize > 0 && ratioCells > barWidth ==> l == barWidth
  {
    var raw := if maxSize > 0 then ratioCells else 0;
    if raw < barWidth then raw else barWidth
  }

  /** `str::repeat` of one character. */
  function Repeat(c: char, n: nat): (s: string)
    ensures |s| == n && forall i :: 0 <= i < n ==> s[i] == c
  {
    if n == 0 then [] else [c] + Repeat(c, n - 1)
  }

  const Filled: char := '█'
  const Empty: char := '░'

  /** The bar: `bar_length` filled cells, then empty cells up to the width. */
  function Bar(barLength: nat, barWidth: nat): (s: string)
    requires barLength <= barWidth
    ensures |s| == barWidth
    ensures forall i :: 0 <= i < barWidth ==> (s[i] == Filled <==> i < barLength)
    ensures forall i :: 0 <= i < barWidth ==> (s[i] == Empty <==> barLength <= i)
  {
    Repeat(Filled, barLength) + Repeat(Empty, barWidth - barLength)
  }

  /** Every row's bar is exactly as wide as the column, however the float
      ratio came out. */
  lemma BarFillsItsColumn(ratioCells: nat, maxSize: nat, barWidth: nat)
    ensures |Bar(BarLength(ratioCells, maxSize, barWidth), barWidth)| == barWidth
  {
  }

  // ---------------------------------------------------------------------
  // The borders

  /** `OutputConfig`'s column widths. */
  datatype Widths = Widths(bar: nat, size: nat, percent: nat, name: nat)

  /** The widths of `OutputConfig::default()`. */
  const DefaultWidths := Widths(30, 8, 5, 30)

  /** `print_table_border`: each column's segment is its width plus two
      dashes, between the corner and junction characters of the top or the
      bottom of the table. */
  function Border(w: Widths, isTop: bool): (s: string)
    ensures |s| == w.bar + w.size + w.percent + w.name + 13
    ensures s[0] == (if isTop then '┌' else '└') && s[|s| - 1] == (if isTop then '┐' else '┘')
    ensures var j1, j2, j3 := w.bar + 3, w.bar + w.size + 6, w.bar + w.size + w.percent + 9;
      && s[j1] == s[j2] == s[j3] == (if isTop then '┬' else '┴')
      && forall i :: 0 < i < |s| - 1 && i != j1 && i != j2 && i != j3 ==> s[i] == '─'
  {
    var left, mid, right := if isTop then '┌' else '└', if isTop then '┬' else '┴', if isTop then '┐' else '┘';
    [left] + Repeat('─', w.bar + 2) + [mid] + Repeat('─', w.size + 2) + [mid] +
    Repeat('─', w.percent + 2) + [mid] + Repeat('─', w.name + 2) + [right]
  }

  /** The top and bottom borders have the same length and differ only in
      the corners and junctions, so the table closes. */
  lemma BordersAlign(w: Widths)
    ensures |Border(w, true)| == |Border(w, false)|
    ensures forall i :: 0 <= i < |Border(w, true)| ==>
              (Border(w, true)[i] == '─' <==> Border(w, false)[i] == '─')
  {
  }

  // ---------------------------------------------------------------------
  // The directory name

  /** A byte of a UTF-8 encoded name. */
  type Byte = b: int | 0 <= b < 256

  /** `"..."`. */
  const Ellipsis: seq<Byte> := [0x2E, 0x2E, 0x2E]

  /** `str::is_char_boundary`: the ends, or an index whose byte is not a
      UTF-8 continuation byte (`10xxxxxx`). */
  predicate IsCharBoundary(s: seq<Byte>, i: nat) {
    i == 0 || i == |s| || (i < |s| && !(0x80 <= s[i] < 0xC0))
  }

  /** Lines 142-146 as written: a name longer than `name_width` bytes is cut
      with `&name[..name_width - 3]`, which panics (`None`) when
      `name_width - 3` underflows or falls inside a character. */
  function TruncateAsWritten(name: seq<Byte>, nameWidth: nat): (r: Option<seq<Byte>>)
    ensures |name| <= nameWidth ==> r == Some(name)
    ensures |name| > nameWidth ==>
              (r.Some? <==> nameWidth >= 3 && IsCharBoundary(name, nameWidth - 3))
    ensures r.Some? && |name| > nameWidth ==> |r.value| == nameWidth
  {
    if |name| > nameWidth then
      if nameWidth < 3 || !IsCharBoundary(name, nameWidth - 3) then None
      else Some(name[..nameWidth - 3] + Ellipsis)
    else Some(name)
  }

  /** "é" in UTF-8, sixteen times: 32 bytes, 16 characters. */
  const AccentedName: seq<Byte> :=
    [0xC3, 0xA9, 0xC3, 0xA9, 0xC3, 0xA9, 0xC3, 0xA9, 0xC3, 0xA9, 0xC3, 0xA9, 0xC3, 0xA9, 0xC3, 0xA9,
     0xC3, 0xA9, 0xC3, 0xA9, 0xC3, 0xA9, 0xC3, 0xA9, 0xC3, 0xA9, 0xC3, 0xA9, 0xC3, 0xA9, 0xC3, 0xA9]

  /** With the default name width of 30, a directory named with sixteen
      "é" is longer than the column in bytes, and byte 27 is the second
      byte of an "é": the slice panics. */
  lemma TruncationPanicsInsideCharacter()
    ensures |AccentedName| == 32 > DefaultWidths.name
    ensures !IsCharBoundary(AccentedName, DefaultWidths.name - 3)
    ensures TruncateAsWritten(AccentedName, DefaultWidths.name) == None
  {
  }

  /** The last character boundary at or before `i`. */
  function LastBoundary(s: seq<Byte>, i: nat): (j: nat)
    requires i <= |s|
    ensures j <= i && IsCharBoundary(s, j)
    ensures forall k :: j < k <= i ==> !IsCharBoundary(s, k)
  {
    if IsCharBoundary(s, i) then i else LastBoundary(s, i - 1)
  }

  /** The display name with the cut moved back to the last character
      boundary, so that it never panics. */
  function DisplayName(name: seq<Byte>, nameWidth: nat): (r: seq<Byte>)
    requires nameWidth >= 3
    ensures |r| <= nameWidth
    ensures |name| <= nameWidth ==> r == name
    // a longer name keeps its longest prefix of at most `name_width - 3`
    // bytes that ends on a character boundary, followed by "..."
    ensures |name| > nameWidth ==>
              && |r| >= 3 && r[|r| - 3..] == Ellipsis
              && r[..|r| - 3] == name[..|r| - 3] && IsCharBoundary(name, |r| - 3)
              && forall k :: |r| - 3 < k <= nameWidth - 3 ==> !IsCharBoundary(name, k)
  {
    if |name| > nameWidth then name[..LastBoundary(name, nameWidth - 3)] + Ellipsis
    else name
  }

  /** Where the source does not panic, the corrected name is the one it
      prints: a name that fits is unchanged, a longer one is its first
      `name_width - 3` bytes and "...", exactly `name_width` bytes. */
  lemma DisplayNameAgreesWhenNoPanic(name: seq<Byte>, nameWidth: nat)
    requires nameWidth >= 3 && TruncateAsWritten(name, nameWidth).Some?
    ensures DisplayName(name, nameWidth) == TruncateAsWritten(name, nameWidth).value
    ensures |name| > nameWidth ==> |DisplayName(name, nameWidth)| == nameWidth
  {
  }
}
