/** Line widths in font pixels and the space padding that aligns text. */
module Align {
  import opened Base
  import opened Text
  import opened Define
  import FontWidthTable
  import Utils

  /** `get_char_width`: the table width of the first character of `ch`,
      widened by `BOLD_PAD` when bold; zero for the empty string. */
  function CharWidth(ch: string, bold: bool): (w: int)
    ensures ch == [] <==> w == 0
    ensures ch != [] ==> 2 <= w - (if bold then BOLD_PAD else 0) <= 7
  {
    if ch == [] then 0
    else FontWidthTable.Width(ch[0] as nat) + (if bold then BOLD_PAD else 0)
  }

  /** Only the first character counts, and bold adds exactly `BOLD_PAD`. */
  lemma CharWidthFirstOnly(ch: string)
    requires ch != []
    ensures CharWidth(ch, false) == CharWidth(ch[..1], false)
    ensures CharWidth(ch, true) == CharWidth(ch, false) + BOLD_PAD
  {
  }

  // ---------------------------------------------------------------------
  // The `§` scanner shared by every width computation
  // ---------------------------------------------------------------------

  /** The flags a scan carries: bold, italic, and whether the previous
      character was a `§` marker that still waits for its code. */
  datatype FormatState = FormatState(bold: bool, italic: bool, marker: bool)

  const Unformatted := FormatState(false, false, false)

  /** A character is drawn unless it is a `§` or the code right after one. */
  predicate Shown(f: FormatState, ch: char)
  {
    ch != SECTION && !f.marker
  }

  /** `§` arms the marker; the code after it sets bold (`l`), italic (`o`),
      clears both (`r`) or does nothing (anything else). */
  function FormatStep(f: FormatState, ch: char): (f': FormatState)
    ensures Shown(f, ch) ==> f' == f
  {
    if ch == SECTION then f.(marker := true)
    else if f.marker then
      match ch
      case 'l' => FormatState(true, f.italic, false)
      case 'o' => FormatState(f.bold, true, false)
      case 'r' => Unformatted
      case _ => f.(marker := false)
    else f
  }

  /** Scan of a line: flags, summed glyph widths, number of drawn glyphs. */
  datatype LineScan = LineScan(format: FormatState, width: int, length: nat)

  const LineStart := LineScan(Unformatted, 0, 0)

  function ScanChar(st: LineScan, ch: char): LineScan
  {
    if Shown(st.format, ch) then
      LineScan(st.format, st.width + CharWidth([ch], st.format.bold), st.length + 1)
    else
      LineScan(FormatStep(st.format, ch), st.width, st.length)
  }

  function ScanFrom(st: LineScan, s: string): LineScan
  {
    if s == [] then st else ScanChar(ScanFrom(st, s[..|s| - 1]), s[|s| - 1])
  }

  lemma {:induction false} ScanFromAppend(st: LineScan, s: string, t: string)
    ensures ScanFrom(st, s + t) == ScanFrom(ScanFrom(st, s), t)
  {
    if t == [] {
      assert s + t == s;
    } else {
      ScanFromAppend(st, s, t[..|t| - 1]);
      assert (s + t)[..|s + t| - 1] == s + t[..|t| - 1];
    }
  }

  lemma ScanTwo(st: LineScan, a: char, b: char)
    ensures ScanFrom(st, [a, b]) == ScanChar(ScanChar(st, a), b)
  {
    assert [a, b][..1] == [a] && [a, b][1] == b;
    assert [a][..0] == [] && [a][0] == a;
    assert ScanFrom(st, [a]) == ScanChar(st, a);
  }

  /** The summed widths of the characters of `s`, all bold or all plain. */
  function SumWidths(s: string, bold: bool): int
  {
    if s == [] then 0 else SumWidths(s[..|s| - 1], bold) + CharWidth([s[|s| - 1]], bold)
  }

  /** A stretch without markers adds its glyphs and leaves the flags alone. */
  lemma {:induction false} ScanPlain(st: LineScan, s: string)
    requires SECTION !in s && !st.format.marker
    ensures ScanFrom(st, s) == LineScan(st.format, st.width + SumWidths(s, st.format.bold), st.length + |s|)
  {
    if s != [] {
      ScanPlain(st, s[..|s| - 1]);
      assert s[|s| - 1] in s;
    }
  }

  /** `get_line_width`: glyph widths, a gap of `CHAR_HORIZON_PADDING`
      between neighbouring glyphs, and `ITALIC_CHAR_HORIZON_PADDING` when
      the line ends in italic. */
  function LineWidth(line: string): int
    requires '\n' !in line
  {
    var st := ScanFrom(LineStart, line);
    st.width + Max(st.length - 1, 0) * CHAR_HORIZON_PADDING
      + (if st.format.italic then ITALIC_CHAR_HORIZON_PADDING else 0)
  }

  /** `get_line_width`, as the source computes it: one pass over the line. */
  method GetLineWidth(line: string) returns (width: int)
    requires '\n' !in line
    ensures width == LineWidth(line)
  {
    width := 0;
    var bold, italic, fmt := false, false, false;
    var length := 0;
    for i := 0 to |line|
      invariant ScanFrom(LineStart, line[..i]) == LineScan(FormatState(bold, italic, fmt), width, length)
    {
      assert line[..i + 1][..i] == line[..i];
      var ch := line[i];
      if ch == SECTION {
        fmt := true;
        continue;
      } else if fmt {
        fmt := false;
        match ch {
          case 'l' => bold := true;
          case 'o' => italic := true;
          case 'r' => bold, italic := false, false;
          case _ =>
        }
        continue;
      }
      length := length + 1;
      width := width + CharWidth([ch], bold);
    }
    assert line[..|line|] == line;
    width := width + Max(length - 1, 0) * CHAR_HORIZON_PADDING;
    if italic {
      width := width + ITALIC_CHAR_HORIZON_PADDING;
    }
  }

  /** A line without markers: glyph widths plus a gap between neighbours,
      and no italic term. */
  lemma PlainLineWidth(s: string)
    requires '\n' !in s && SECTION !in s
    ensures LineWidth(s) == SumWidths(s, false) + Max(|s| - 1, 0) * CHAR_HORIZON_PADDING
  {
    ScanPlain(LineStart, s);
  }

  /** Bold widens every glyph after `§l` by `BOLD_PAD`. */
  lemma BoldLineWidth(s: string)
    requires '\n' !in s && SECTION !in s
    ensures LineWidth([SECTION, 'l'] + s) == LineWidth(s) + |s| * BOLD_PAD
  {
    var bolded := ScanFrom(LineStart, [SECTION, 'l']);
    ScanTwo(LineStart, SECTION, 'l');
    assert bolded == LineScan(FormatState(true, false, false), 0, 0);
    ScanFromAppend(LineStart, [SECTION, 'l'], s);
    ScanPlain(bolded, s);
    ScanPlain(LineStart, s);
    SumWidthsBold(s);
  }

  lemma {:induction false} SumWidthsBold(s: string)
    ensures SumWidths(s, true) == SumWidths(s, false) + |s| * BOLD_PAD
  {
    if s != [] {
      SumWidthsBold(s[..|s| - 1]);
      assert |s| * BOLD_PAD == (|s| - 1) * BOLD_PAD + BOLD_PAD;
    }
  }

  /** A line that switches to italic and stays there gains the italic pad. */
  lemma ItalicLineWidth(s: string)
    requires '\n' !in s && SECTION !in s
    ensures LineWidth([SECTION, 'o'] + s) == LineWidth(s) + ITALIC_CHAR_HORIZON_PADDING
  {
    var italic := ScanFrom(LineStart, [SECTION, 'o']);
    ScanTwo(LineStart, SECTION, 'o');
    assert italic == LineScan(FormatState(false, true, false), 0, 0);
    ScanFromAppend(LineStart, [SECTION, 'o'], s);
    ScanPlain(italic, s);
    ScanPlain(LineStart, s);
  }

  /** A leading `§r` changes nothing. */
  lemma ResetPrefixWidth(s: string)
    requires '\n' !in s
    ensures LineWidth([SECTION, 'r'] + s) == LineWidth(s)
  {
    ScanTwo(LineStart, SECTION, 'r');
    assert ScanFrom(LineStart, [SECTION, 'r']) == LineStart;
    ScanFromAppend(LineStart, [SECTION, 'r'], s);
  }

  /** A `§` and an unknown code after it take no room at all. */
  lemma UnknownCodeInvisible(u: string, ch: char, v: string)
    requires '\n' !in u && '\n' !in v && ch != '\n'
    requires ch !in {SECTION, 'l', 'o', 'r'}
    requires !ScanFrom(LineStart, u).format.marker
    ensures LineWidth(u + [SECTION, ch] + v) == LineWidth(u + v)
  {
    var st := ScanFrom(LineStart, u);
    ScanTwo(st, SECTION, ch);
    assert ScanFrom(st, [SECTION, ch]) == st;
    ScanFromAppend(LineStart, u, [SECTION, ch]);
    ScanFromAppend(LineStart, u + [SECTION, ch], v);
    ScanFromAppend(LineStart, u, v);
  }

  /** `get_lines_width`: the widest line, or 0 for no lines. */
  function LinesWidth(lines: seq<string>): (w: int)
    requires forall k :: 0 <= k < |lines| ==> '\n' !in lines[k]
    ensures forall k :: 0 <= k < |lines| ==> LineWidth(lines[k]) <= w
    ensures lines == [] ==> w == 0
    ensures lines != [] ==> exists k :: 0 <= k < |lines| && w == LineWidth(lines[k])
  {
    if lines == [] then 0
    else if |lines| == 1 then LineWidth(lines[0])
    else
      var rest := LinesWidth(lines[1..]);
      assert forall k :: 1 <= k < |lines| ==> lines[k] == lines[1..][k - 1];
      Max(LineWidth(lines[0]), rest)
  }

  // ---------------------------------------------------------------------
  // Space padding of a given width
  // ---------------------------------------------------------------------

  /** The widths the padding solver counts for one plain and one bold space. */
  const PLAIN_UNIT: int := SPACE_WIDTH + CHAR_HORIZON_PADDING
  const BOLD_UNIT: int := SPACE_WIDTH + BOLD_PAD + CHAR_HORIZON_PADDING

  /** `y` bold spaces, then `x` plain ones. */
  function SpacePad(x: nat, y: nat): string
  {
    [SECTION, 'l'] + Spaces(y) + [SECTION, 'r'] + Spaces(x)
  }

  lemma {:induction false} SumWidthsSpaces(s: string, bold: bool)
    requires forall k :: 0 <= k < |s| ==> s[k] == ' '
    ensures SumWidths(s, bold) == |s| * (4 + (if bold then BOLD_PAD else 0))
  {
    if s != [] {
      SumWidthsSpaces(s[..|s| - 1], bold);
      FontWidthTable.NamedWidths();
      assert |s| * (4 + (if bold then BOLD_PAD else 0))
        == (|s| - 1) * (4 + (if bold then BOLD_PAD else 0)) + (4 + (if bold then BOLD_PAD else 0));
    }
  }

  /** The drawn width of a pad with at least one space, plus one trailing
      gap, against the total the solver aimed at in its units `PLAIN_UNIT`
      and `BOLD_UNIT`: the two differ by `4 - SPACE_WIDTH` per space, the
      table's space being 4 wide, so they agree exactly when `SPACE_WIDTH`
      is 4. */
  lemma SpacePadWidth(x: nat, y: nat)
    requires x + y >= 1
    ensures LineWidth(SpacePad(x, y)) + CHAR_HORIZON_PADDING
      == x * PLAIN_UNIT + y * BOLD_UNIT + (x + y) * (4 - SPACE_WIDTH)
    ensures SPACE_WIDTH == 4 <==> LineWidth(SpacePad(x, y)) + CHAR_HORIZON_PADDING == x * PLAIN_UNIT + y * BOLD_UNIT
  {
    SpacePadScan(x, y);
    SpacePadArithmetic(x, y, y * (4 + BOLD_PAD) + x * 4, LineWidth(SpacePad(x, y)));
  }

  lemma SpacePadArithmetic(x: nat, y: nat, w: int, lw: int)
    requires x + y >= 1 && w == y * (4 + BOLD_PAD) + x * 4
    requires lw == w + (x + y - 1) * CHAR_HORIZON_PADDING
    ensures lw + CHAR_HORIZON_PADDING == x * PLAIN_UNIT + y * BOLD_UNIT + (x + y) * (4 - SPACE_WIDTH)
    ensures SPACE_WIDTH == 4 <==> lw + CHAR_HORIZON_PADDING == x * PLAIN_UNIT + y * BOLD_UNIT
  {
    assert (x + y - 1) * CHAR_HORIZON_PADDING + CHAR_HORIZON_PADDING
      == x * CHAR_HORIZON_PADDING + y * CHAR_HORIZON_PADDING;
    assert x * PLAIN_UNIT == x * SPACE_WIDTH + x * CHAR_HORIZON_PADDING;
    assert y * BOLD_UNIT == y * (SPACE_WIDTH + BOLD_PAD) + y * CHAR_HORIZON_PADDING;
    assert (x + y) * (4 - SPACE_WIDTH) == x * 4 + y * 4 - (x + y) * SPACE_WIDTH;
    assert y * (4 + BOLD_PAD) == y * 4 + y * BOLD_PAD;
    assert y * (SPACE_WIDTH + BOLD_PAD) == y * SPACE_WIDTH + y * BOLD_PAD;
    assert (x + y) * SPACE_WIDTH == x * SPACE_WIDTH + y * SPACE_WIDTH;
    if SPACE_WIDTH != 4 {
      assert (x + y) * (4 - SPACE_WIDTH) != 0;
    }
  }

  /** Scanning a space pad ends unformatted, having counted its spaces. */
  lemma SpacePadScan(x: nat, y: nat)
    ensures '\n' !in SpacePad(x, y)
    ensures ScanFrom(LineStart, SpacePad(x, y)) == LineScan(Unformatted, y * (4 + BOLD_PAD) + x * 4, y + x)
  {
    var prefix := [SECTION, 'l'] + Spaces(y) + [SECTION, 'r'];
    var reset := LineScan(Unformatted, y * (4 + BOLD_PAD), y);
    BoldSpacesResetScan(y);
    ScanFromAppend(LineStart, prefix, Spaces(x));
    ScanPlain(reset, Spaces(x));
    SumWidthsSpaces(Spaces(x), false);
  }

  lemma BoldSpacesResetScan(y: nat)
    ensures ScanFrom(LineStart, [SECTION, 'l'] + Spaces(y) + [SECTION, 'r'])
      == LineScan(Unformatted, y * (4 + BOLD_PAD), y)
  {
    var sr := [SECTION, 'r'];
    BoldSpacesScan(y);
    var afterBold := LineScan(FormatState(true, false, false), y * (4 + BOLD_PAD), y);
    ScanTwo(afterBold, SECTION, 'r');
    assert ScanFrom(afterBold, sr) == LineScan(Unformatted, y * (4 + BOLD_PAD), y);
    ScanFromAppend(LineStart, [SECTION, 'l'] + Spaces(y), sr);
  }

  lemma BoldSpacesScan(y: nat)
    ensures ScanFrom(LineStart, [SECTION, 'l'] + Spaces(y))
      == LineScan(FormatState(true, false, false), y * (4 + BOLD_PAD), y)
  {
    var sl := [SECTION, 'l'];
    ScanTwo(LineStart, SECTION, 'l');
    var bolded := LineScan(FormatState(true, false, false), 0, 0);
    assert ScanFrom(LineStart, sl) == bolded;
    ScanFromAppend(LineStart, sl, Spaces(y));
    ScanPlain(bolded, Spaces(y));
    SumWidthsSpaces(Spaces(y), true);
  }

  /** The padding solver has a solution for `target` (otherwise the source
      indexes an empty solution list). */
  predicate PadReachable(target: int)
  {
    Utils.XMax(PLAIN_UNIT, BOLD_UNIT, target) >= 1
  }

  /** `pad` is `SpacePad(x, y)` for the best decomposition the solver may
      pick for `target`, and `diff` is its signed residual. */
  ghost predicate IsBestPad(pad: string, diff: int, target: int)
  {
    exists x: nat, y: nat ::
      && x >= 1 && pad == SpacePad(x, y)
      && diff == Utils.Residual(PLAIN_UNIT, BOLD_UNIT, target, x, y)
      && forall x', y' :: 1 <= x' <= Utils.XMax(PLAIN_UNIT, BOLD_UNIT, target) && y' >= 0 ==>
           Abs(diff) <= Abs(Utils.Residual(PLAIN_UNIT, BOLD_UNIT, target, x', y'))
  }

  /** `get_specific_length_spaces_and_diff(length, prev_diff)`: the pad of the
      first best solution for `length + prev_diff`, and its residual. */
  function SpecificLengthSpacesAndDiff(length: int, prevDiff: int): (r: (string, int))
    requires PadReachable(length + prevDiff)
    ensures IsBestPad(r.0, r.1, length + prevDiff)
  {
    var c := length + prevDiff;
    var (solutions, finalDiff) := Utils.FindClosestSpec(PLAIN_UNIT, BOLD_UNIT, c);
    Utils.FindClosestCorrect(PLAIN_UNIT, BOLD_UNIT, c);
    var s := solutions[0];
    assert s in solutions;
    var pad := SpacePad(s.x, s.y);
    assert Utils.Residual(PLAIN_UNIT, BOLD_UNIT, c, s.x, s.y) == finalDiff.value;
    (pad, finalDiff.value)
  }

  /** A non-negative length can always be padded. */
  lemma NonNegativeReachable(length: int)
    requires length >= 0
    ensures PadReachable(length)
  {
    Utils.ClosestNonEmpty(PLAIN_UNIT, BOLD_UNIT, length);
    Utils.FindClosestCorrect(PLAIN_UNIT, BOLD_UNIT, length);
  }

  /** `get_specific_length_spaces(length)`. */
  function SpecificLengthSpaces(length: int): (pad: string)
    requires PadReachable(length)
    ensures exists d :: IsBestPad(pad, d, length)
  {
    SpecificLengthSpacesAndDiff(length, 0).0
  }

  /** The residual-corrected room for `text` is either negative or reachable
      by the solver; otherwise the source panics. */
  predicate AlignStepDefined(text: string, spaces: int, prevDiff: int)
  {
    '\n' !in text
    && (spaces * SPACE_WIDTH - LineWidth(text) < 0 || PadReachable(spaces * SPACE_WIDTH - LineWidth(text) + prevDiff))
  }

  /** `align_any_and_get_diff(text, spaces, prev_diff)`: the room left in
      `spaces` space widths after `text`; a negative room is returned as the
      residual with no pad. */
  function AlignAnyAndGetDiff(text: string, spaces: int, prevDiff: int): (r: (string, int))
    requires AlignStepDefined(text, spaces, prevDiff)
    ensures var left := spaces * SPACE_WIDTH - LineWidth(text);
            && (left < 0 ==> r == ([], left))
            && (left >= 0 ==> IsBestPad(r.0, r.1, left + prevDiff))
  {
    var left := spaces * SPACE_WIDTH - LineWidth(text);
    if left < 0 then ([], left) else SpecificLengthSpacesAndDiff(left, prevDiff)
  }

  /** A pad for `text` in `spaces` space widths: empty when the text is too
      wide, otherwise a best pad for the room left. */
  ghost predicate IsAlignPad(pad: string, text: string, spaces: int)
    requires '\n' !in text
  {
    var left := spaces * SPACE_WIDTH - LineWidth(text);
    (left < 0 ==> pad == []) && (left >= 0 ==> exists d :: IsBestPad(pad, d, left))
  }

  /** `align_any(text, spaces)`. */
  function AlignAny(text: string, spaces: int): (pad: string)
    requires AlignStepDefined(text, spaces, 0)
    ensures IsAlignPad(pad, text, spaces)
  {
    AlignAnyAndGetDiff(text, spaces, 0).0
  }

  /** `align_left(text, spaces)`: the text, then its pad. */
  function AlignLeft(text: string, spaces: int): (r: string)
    requires AlignStepDefined(text, spaces, 0)
    ensures |r| >= |text| && r[..|text|] == text && IsAlignPad(r[|text|..], text, spaces)
  {
    var pad := AlignAny(text, spaces);
    assert (text + pad)[|text|..] == pad;
    text + pad
  }

  /** `align_right(text, spaces)`: the pad, then the text. */
  function AlignRight(text: string, spaces: int): (r: string)
    requires AlignStepDefined(text, spaces, 0)
    ensures |r| >= |text| && r[|r| - |text|..] == text && IsAlignPad(r[..|r| - |text|], text, spaces)
  {
    var pad := AlignAny(text, spaces);
    assert (pad + text)[..|pad|] == pad;
    pad + text
  }

  /** `align_left_and_get_diff`: the text, then the pad for the room left
      corrected by `prev_diff`. */
  function AlignLeftAndGetDiff(text: string, spaces: int, prevDiff: int): (r: (string, int))
    requires AlignStepDefined(text, spaces, prevDiff)
    ensures var left := spaces * SPACE_WIDTH - LineWidth(text);
            && |r.0| >= |text| && r.0[..|text|] == text
            && (left < 0 ==> r == (text, left))
            && (left >= 0 ==> IsBestPad(r.0[|text|..], r.1, left + prevDiff))
  {
    var (pad, diff) := AlignAnyAndGetDiff(text, spaces, prevDiff);
    assert (text + pad)[|text|..] == pad;
    assert text + [] == text;
    (text + pad, diff)
  }

  /** `align_right_and_get_diff`: the pad, then the text. */
  function AlignRightAndGetDiff(text: string, spaces: int, prevDiff: int): (r: (string, int))
    requires AlignStepDefined(text, spaces, prevDiff)
    ensures var left := spaces * SPACE_WIDTH - LineWidth(text);
            && |r.0| >= |text| && r.0[|r.0| - |text|..] == text
            && (left < 0 ==> r == (text, left))
            && (left >= 0 ==> IsBestPad(r.0[..|r.0| - |text|], r.1, left + prevDiff))
  {
    var (pad, diff) := AlignAnyAndGetDiff(text, spaces, prevDiff);
    assert (pad + text)[..|pad|] == pad;
    assert [] + text == text;
    (pad + text, diff)
  }

  /** The two halves `align_center` splits the room into: truncated half
      and rounded half. They always add up to the whole room. */
  lemma CenterHalves(rest: int)
    ensures RustDiv(rest, 2) + RoundDiv(rest, 2) == rest
  {
    var h, g := RustDiv(rest, 2), RoundDiv(rest, 2);
    assert Abs(2 * (g * 2 - rest)) <= 2;
    if rest % 2 == 0 {
      assert h * 2 == rest;
      assert g * 2 == rest;
    } else if rest > 0 {
      assert h * 2 == rest - 1;
      assert g * 2 == rest + 1 || g * 2 == rest - 1;
      assert g * 2 == rest + 1 by {
        var t := (2 * Abs(rest) + 2) / 4;
        assert 2 * rest + 2 == 4 * ((rest + 1) / 2);
        assert t == (rest + 1) / 2;
      }
    } else {
      assert h * 2 == rest + 1;
      assert g * 2 == rest - 1 by {
        var t := (2 * Abs(rest) + 2) / 4;
        assert 2 * Abs(rest) + 2 == 4 * ((1 - rest) / 2);
        assert t == (1 - rest) / 2;
      }
    }
  }

  /** `align_center(text, spaces)`: the truncated half of the room before
      the text and the rounded half after it. */
  function AlignCenter(text: string, spaces: int): (r: string)
    requires '\n' !in text
    requires var rest := spaces * SPACE_WIDTH - LineWidth(text);
             PadReachable(RustDiv(rest, 2)) && PadReachable(RoundDiv(rest, 2))
    ensures var rest := spaces * SPACE_WIDTH - LineWidth(text);
            exists before, after ::
              && r == before + text + after
              && (exists d :: IsBestPad(before, d, RustDiv(rest, 2)))
              && (exists d :: IsBestPad(after, d, RoundDiv(rest, 2)))
              && RustDiv(rest, 2) + RoundDiv(rest, 2) == rest
  {
    var rest := spaces * SPACE_WIDTH - LineWidth(text);
    CenterHalves(rest);
    SpecificLengthSpaces(RustDiv(rest, 2)) + text + SpecificLengthSpaces(RoundDiv(rest, 2))
  }

  // ---------------------------------------------------------------------
  // align_simple
  // ---------------------------------------------------------------------

  datatype AlignArg = Text(text: string) | LeftAlign(text: string, spaces: int) | RightAlign(text: string, spaces: int)

  /** One argument of `align_simple`: a text is appended as it is; an
      aligned field is padded with `prev_diff = -diff` and its residual
      replaces `diff`. `None` stands for the source's panic. */
  function AlignStep(acc: Option<(string, int)>, arg: AlignArg): Option<(string, int)>
  {
    match acc
    case None => None
    case Some((s, diff)) =>
      match arg
      case Text(t) => Some((s + t, diff))
      case LeftAlign(t, n) =>
        if AlignStepDefined(t, n, -diff) then
          var r := AlignLeftAndGetDiff(t, n, -diff); Some((s + r.0, r.1))
        else None
      case RightAlign(t, n) =>
        if AlignStepDefined(t, n, -diff) then
          var r := AlignRightAndGetDiff(t, n, -diff); Some((s + r.0, r.1))
        else None
  }

  /** The string and the residual `align_simple` holds after `args`. */
  function AlignSimpleFold(args: seq<AlignArg>): Option<(string, int)>
  {
    if args == [] then Some(([], 0))
    else AlignStep(AlignSimpleFold(args[..|args| - 1]), args[|args| - 1])
  }

  /** A step extends the string it is given. */
  lemma AlignStepExtends(acc: Option<(string, int)>, arg: AlignArg)
    requires AlignStep(acc, arg).Some?
    ensures acc.Some? && acc.value.0 <= AlignStep(acc, arg).value.0
  {
  }

  /** `align_simple(args)`: texts verbatim, aligned fields padded with the
      previous field's residual fed back as `-diff`. */
  method AlignSimple(args: seq<AlignArg>) returns (s: string)
    requires AlignSimpleFold(args).Some?
    ensures s == AlignSimpleFold(args).value.0
  {
    s := [];
    var diff := 0;
    for i := 0 to |args|
      invariant AlignSimpleFold(args[..i]) == Some((s, diff))
    {
      assert args[..i + 1][..i] == args[..i];
      AlignSimplePrefixDefined(args[..i + 1], args);
      s, diff := AlignOne(s, diff, args[i]);
    }
    assert args[..|args|] == args;
  }

  /** The body of `align_simple`'s loop: one argument. */
  method AlignOne(s0: string, diff0: int, arg: AlignArg) returns (s: string, diff: int)
    requires AlignStep(Some((s0, diff0)), arg).Some?
    ensures AlignStep(Some((s0, diff0)), arg) == Some((s, diff))
  {
    match arg {
      case Text(t) =>
        s, diff := s0 + t, diff0;
      case LeftAlign(t, n) =>
        LeftStep(s0, diff0, t, n);
        var r := AlignLeftAndGetDiff(t, n, -diff0);
        s, diff := s0 + r.0, r.1;
      case RightAlign(t, n) =>
        RightStep(s0, diff0, t, n);
        var r := AlignRightAndGetDiff(t, n, -diff0);
        s, diff := s0 + r.0, r.1;
    }
  }

  /** What a left-aligned field appends. */
  lemma LeftStep(s0: string, diff0: int, t: string, n: int)
    requires AlignStepDefined(t, n, -diff0)
    ensures var r := AlignLeftAndGetDiff(t, n, -diff0);
            AlignStep(Some((s0, diff0)), LeftAlign(t, n)) == Some((s0 + r.0, r.1))
  {
  }

  /** What a right-aligned field appends. */
  lemma RightStep(s0: string, diff0: int, t: string, n: int)
    requires AlignStepDefined(t, n, -diff0)
    ensures var r := AlignRightAndGetDiff(t, n, -diff0);
            AlignStep(Some((s0, diff0)), RightAlign(t, n)) == Some((s0 + r.0, r.1))
  {
  }

  /** A fold that succeeds on `args` succeeds on every prefix. */
  lemma {:induction false} AlignSimplePrefixDefined(pre: seq<AlignArg>, args: seq<AlignArg>)
    requires pre <= args && AlignSimpleFold(args).Some?
    ensures AlignSimpleFold(pre).Some?
    decreases |args|
  {
    if |pre| < |args| {
      var init := args[..|args| - 1];
      assert init[..|pre|] == pre;
      assert AlignSimpleFold(init).Some?;
      AlignSimplePrefixDefined(pre, init);
    } else {
      assert pre == args;
    }
  }

  /** The output extends the output of every prefix of the arguments. */
  lemma {:induction false} AlignSimpleExtends(pre: seq<AlignArg>, args: seq<AlignArg>)
    requires pre <= args && AlignSimpleFold(args).Some?
    ensures AlignSimpleFold(pre).Some? && AlignSimpleFold(pre).value.0 <= AlignSimpleFold(args).value.0
    decreases |args|
  {
    if |pre| < |args| {
      var init := args[..|args| - 1];
      assert init[..|pre|] == pre;
      AlignStepExtends(AlignSimpleFold(init), args[|args| - 1]);
      AlignSimpleExtends(pre, init);
    } else {
      assert pre == args;
    }
  }

  /** Only `Text` arguments: the texts concatenated, residual unchanged. */
  lemma {:induction false} AlignSimpleTextsOnly(args: seq<AlignArg>)
    requires forall k :: 0 <= k < |args| ==> args[k].Text?
    ensures AlignSimpleFold(args) == Some((Flatten(seq(|args|, k requires 0 <= k < |args| => args[k].text)), 0))
  {
    if args != [] {
      var init := args[..|args| - 1];
      AlignSimpleTextsOnly(init);
      var texts := seq(|args|, k requires 0 <= k < |args| => args[k].text);
      assert texts[..|texts| - 1] == seq(|init|, k requires 0 <= k < |init| => init[k].text);
    }
  }

  // ---------------------------------------------------------------------
  // cut_by_length
  // ---------------------------------------------------------------------

  /** The state of `cut_by_length`: flags, width of the current chunk, the
      chunks closed so far and the current chunk. */
  datatype CutState = CutState(format: FormatState, width: int, outputs: seq<string>, cached: string)

  /** The width of `spaces` plain spaces, the chunk limit. */
  function SpacesWidth(spaces: int): int
  {
    spaces * SPACE_WIDTH + Max(spaces - 1, 0) * CHAR_HORIZON_PADDING
  }

  /** One character: a full chunk or a newline closes the current chunk; a
      newline is then dropped, any other character joins the chunk. */
  function CutChar(st: CutState, ch: char, limit: int): CutState
  {
    var st1 := if st.width >= limit || ch == '\n' then CutState(st.format, 0, st.outputs + [st.cached], []) else st;
    if ch == '\n' then st1
    else
      var grow := if Shown(st1.format, ch) then CharWidth([ch], st1.format.bold) + CHAR_HORIZON_PADDING else 0;
      CutState(FormatStep(st1.format, ch), st1.width + grow, st1.outputs, st1.cached + [ch])
  }

  function CutFrom(st: CutState, s: string, limit: int): CutState
  {
    if s == [] then st else CutChar(CutFrom(st, s[..|s| - 1], limit), s[|s| - 1], limit)
  }

  const CutStart := CutState(Unformatted, 0, [], [])

  /** `cut_by_length(line, spaces)`: the chunks, with a last chunk dropped
      when it is only whitespace. */
  function CutByLengthSpec(line: string, spaces: int): seq<string>
  {
    var st := CutFrom(CutStart, line, SpacesWidth(spaces));
    if !AllWhitespace(st.cached) then st.outputs + [st.cached] else st.outputs
  }

  ghost predicate CutInv(st: CutState, consumed: string)
  {
    && (forall k :: 0 <= k < |st.outputs| ==> '\n' !in st.outputs[k])
    && '\n' !in st.cached
    && Flatten(st.outputs) + st.cached == Remove(consumed, '\n')
  }

  lemma {:induction false} CutFromInv(s: string, limit: int)
    ensures CutInv(CutFrom(CutStart, s, limit), s)
  {
    if s != [] {
      var init, ch := s[..|s| - 1], s[|s| - 1];
      CutFromInv(init, limit);
      CutCharInv(CutFrom(CutStart, init, limit), init, ch, limit);
      assert s == init + [ch];
    }
  }

  /** One character keeps the invariant of `cut_by_length`. */
  lemma CutCharInv(st: CutState, consumed: string, ch: char, limit: int)
    requires CutInv(st, consumed)
    ensures CutInv(CutChar(st, ch, limit), consumed + [ch])
  {
    RemoveAppend(consumed, [ch], '\n');
    assert Remove([ch], '\n') == (if ch == '\n' then [] else [ch]) by {
      assert [ch][1..] == [];
    }
    if st.width >= limit || ch == '\n' {
      FlattenAppend(st.outputs, st.cached);
    }
  }

  /** No chunk holds a newline, and the chunks spell the line without its
      newlines, up to a dropped whitespace-only tail. */
  lemma CutByLengthContent(line: string, spaces: int)
    ensures var chunks := CutByLengthSpec(line, spaces);
            && (forall k :: 0 <= k < |chunks| ==> '\n' !in chunks[k])
            && exists tail :: AllWhitespace(tail) && Flatten(chunks) + tail == Remove(line, '\n')
  {
    var st := CutFrom(CutStart, line, SpacesWidth(spaces));
    CutFromInv(line, SpacesWidth(spaces));
    if !AllWhitespace(st.cached) {
      FlattenAppend(st.outputs, st.cached);
      assert Flatten(st.outputs + [st.cached]) + [] == Remove(line, '\n');
    } else {
      assert AllWhitespace(st.cached);
    }
  }

  /** `cut_by_length`, one pass as in the source. */
  method CutByLength(line: string, spaces: int) returns (outputs: seq<string>)
    ensures outputs == CutByLengthSpec(line, spaces)
  {
    var width := 0;
    var spacesWidth := spaces * SPACE_WIDTH + Max(spaces - 1, 0) * CHAR_HORIZON_PADDING;
    var bold, italic, fmt := false, false, false;
    outputs := [];
    var cached: string := [];
    for i := 0 to |line|
      invariant CutFrom(CutStart, line[..i], spacesWidth) == CutState(FormatState(bold, italic, fmt), width, outputs, cached)
    {
      assert line[..i + 1][..i] == line[..i];
      var ch := line[i];
      if width >= spacesWidth || ch == '\n' {
        outputs := outputs + [cached];
        cached := [];
        width := 0;
        if ch == '\n' {
          continue;
        }
      }
      if ch == SECTION {
        fmt := true;
      } else if fmt {
        fmt := false;
        match ch {
          case 'l' => bold := true;
          case 'o' => italic := true;
          case 'r' => bold, italic := false, false;
          case _ =>
        }
      } else {
        width := width + CharWidth([ch], bold) + CHAR_HORIZON_PADDING;
      }
      cached := cached + [ch];
    }
    assert line[..|line|] == line;
    if !AllWhitespace(cached) {
      outputs := outputs + [cached];
    }
  }

  // ---------------------------------------------------------------------
  // yield_chars_and_length
  // ---------------------------------------------------------------------

  /** Flags and running width of `yield_chars_and_length` after `s`. */
  function RunningFrom(f: FormatState, width: int, s: string): (FormatState, int)
  {
    if s == [] then (f, width)
    else
      var (g, w) := RunningFrom(f, width, s[..|s| - 1]);
      var ch := s[|s| - 1];
      (FormatStep(g, ch), w + (if Shown(g, ch) then CharWidth([ch], g.bold) + ITALIC_CHAR_HORIZON_PADDING else 0))
  }

  /** The running width after the first `k + 1` characters of `s`. */
  function RunningWidth(s: string, k: nat): int
    requires k < |s|
  {
    RunningFrom(Unformatted, 0, s[..k + 1]).1
  }

  /** The running width never goes down along the line. */
  lemma {:induction false} RunningWidthMono(s: string, j: nat, k: nat)
    requires j <= k < |s|
    ensures RunningWidth(s, j) <= RunningWidth(s, k)
    decreases k
  {
    if j < k {
      RunningWidthMono(s, j, k - 1);
      assert s[..k + 1][..k] == s[..k];
    }
  }

  /** `yield_chars_and_length(line)`: every character with the running
      width after it. */
  method YieldCharsAndLength(line: string) returns (result: seq<(char, int)>)
    ensures |result| == |line|
    ensures forall k :: 0 <= k < |line| ==> result[k] == (line[k], RunningWidth(line, k))
    ensures forall j, k :: 0 <= j <= k < |line| ==> result[j].1 <= result[k].1
  {
    result := [];
    var width := 0;
    var bold, italic, fmt := false, false, false;
    for i := 0 to |line|
      invariant |result| == i
      invariant RunningFrom(Unformatted, 0, line[..i]) == (FormatState(bold, italic, fmt), width)
      invariant forall k :: 0 <= k < i ==> result[k] == (line[k], RunningWidth(line, k))
    {
      assert line[..i + 1][..i] == line[..i];
      var ch := line[i];
      assert line[..i + 1] == line[..i] + [ch];
      bold, italic, fmt, width := YieldStep(line[..i], bold, italic, fmt, width, ch);
      result := result + [(ch, width)];
    }
    forall j, k | 0 <= j <= k < |line| ensures result[j].1 <= result[k].1 {
      RunningWidthMono(line, j, k);
    }
  }

  /** One character of `yield_chars_and_length`. */
  method YieldStep(ghost s: string, bold0: bool, italic0: bool, fmt0: bool, width0: int, ch: char)
    returns (bold: bool, italic: bool, fmt: bool, width: int)
    requires RunningFrom(Unformatted, 0, s) == (FormatState(bold0, italic0, fmt0), width0)
    ensures RunningFrom(Unformatted, 0, s + [ch]) == (FormatState(bold, italic, fmt), width)
    ensures width >= width0
  {
    bold, italic, fmt, width := bold0, italic0, fmt0, width0;
    if ch == SECTION {
      fmt := true;
    } else if fmt {
      fmt := false;
      match ch {
        case 'l' => bold := true;
        case 'o' => italic := true;
        case 'r' => bold, italic := false, false;
        case _ =>
      }
    } else {
      width := width + CharWidth([ch], bold) + ITALIC_CHAR_HORIZON_PADDING;
    }
    assert (s + [ch])[..|s|] == s;
  }
}
