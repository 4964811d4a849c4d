# MCBE-TellrawRander core, modelled in Dafny

MCBE-TellrawRander draws Minecraft Bedrock chat text the way the game does.
It also computes how many plain and bold spaces to insert so that text
fragments line up in columns, even though the bitmap font has variable
widths. This project models the core of the program and proves properties
of the model:

- **`FontWidthTable`** (`src/font_widths.rs`): the pixel width of each
  codepoint.
- **`Align`** (`src/align.rs`):
  - the width of a line that holds `§` format codes;
  - the padding that fills a room with spaces;
  - left, right, centre and mixed alignment;
  - cutting a line into chunks;
  - the running width of a line.
- **`Utils`** (`src/utils.rs`): the three integer searches for
  `x*a + y*b` near a target. These are `approximate_sum_optimized`,
  `find_closest` and `solve_xy`.
- **`Pad`** (`src/pad.rs`):
  - exact padding of several lines to one common width (`resolve`, `pad`);
  - the `(padN)` template engine `Padder`;
  - `pad_with_format` and `pad_with_length`.
- **`Font`** (`src/font.rs`): the glyph store `RuneFont`. It covers:
  - where a character's glyph sits on its page;
  - loading pages, with a missing file giving a blank page;
  - the grayscale test;
  - the bounding box and the trimming of a cell (`get_bbox`, `tight_font`);
  - obfuscated and bold synthesis;
  - the two caches. The model proves every cached entry equals what a fresh
    computation would give.
- **`Render`** (`src/render.rs`):
  - the format tokenizer `split_format_and_text`, whose format words are
    32-bit vectors, as in the source;
  - `get_color` and the default colour table;
  - `get_line_width`;
  - the layout that `render` computes: the canvas size, and where each glyph
    is drawn, with which glyph and in which colour.

`Base` and `Text` hold shared vocabulary:

- Rust's truncating division;
- the exact integer forms of the source's `f64` floor, ceiling and round of
  an integer ratio;
- the string operations of Rust's standard library that the core uses
  (`split`, `lines`, `find`, `repeat`, `join`).

`Define` declares the four layout constants of `src/define.rs`. That file is
not part of this model, so the constants have no values here; each is
assumed only to have the lower bound its type states.

**Methods and specification functions.** Where the source loops or updates
state, the model is a method with the same loop:

- `GetLineWidth`, `CutByLength`, `YieldCharsAndLength`, `AlignSimple`;
- `FindClosest`, `ApproximateSumOptimized`;
- `Resolve`, and `Padder.Step` and `Padder.Execute`;
- `IsGrayscale`, `GetBbox`, `Obfuscate`, `Bold`;
- `RuneFont.GetGroup` and `RuneFont.GetFont`;
- `SplitFormatAndText` and `TellRawSimulator.Render`.

Each is proved equal to a specification function. The properties the
program relies on are then proved about those functions, as lemmas.

**Points of the code worth knowing, which the model follows:**

- Characters outside ASCII are 6 pixels wide (`src/font_widths.rs:60`). A
  table of 12s exists (`src/align.rs:6-10`), but nothing reads it.
- `solve_xy` is not an exact solver. Its answer solves the halved equation
  `(s/2)*x + (b/2)*y == (c/2)*(b/2 - s/2)` (see `Utils.SolveXYSolves`). For
  even `s` and `b` that is `s*x + b*y == c*(b/2 - s/2)`, which equals `c`
  only when `c == 0` or `b - s == 2` (see `Utils.SolveXYExactIff`). So `pad`
  gives lines one common *solver* width, not necessarily one drawn width.
- `Padder::finish` joins `pending[i] + padded[i]`: the text left after the
  last mark comes *before* the accumulated padded part (`src/pad.rs:141`).
- The plain count that `solve_xy` returns can be negative. See
  `Utils.SolveXYNegativeX`: `solve_xy(2, 10, 2)` returns `(-1, 1)`. `pad`
  then writes no plain spaces for it.

A panic in the source (an `assert!`, an `expect`, an index into an empty
list, a documented `panic!`) becomes a `requires` on the model.

## Model

| member | source | states |
|---|---|---|
| FontWidthTable.Width | src/font_widths.rs:12-53 | every width is between 2 and 7; non-ASCII codes and control codes are 6 wide |
| FontWidthTable.NamedWidths | src/font_widths.rs:13-51 | space is 4; the punctuation `!',.:;\|` is 2; `@` and `~` are 7; digits and letters are 6 |
| FontWidthTable.FontWidths.constructor | src/font_widths.rs:8-56 | the new table holds exactly the 128 ASCII widths |
| FontWidthTable.FontWidths.GetWidth | src/font_widths.rs:59-61 | the table entry for ASCII, the default 6 for any other code |
| Base.RustDiv | src/utils.rs:110-114 | Rust's `/` on `i32`: the quotient times the divisor lies between zero and the dividend, less than one divisor away from it (truncation toward zero) |
| Base.FloorDiv | src/utils.rs:78-80 | `floor(p/q)` for a divisor of either sign |
| Base.CeilDiv | src/utils.rs:78-81 | `ceil(p/q)` for a divisor of either sign |
| Base.RoundDiv | src/align.rs:168 | `(p as f64 / q as f64).round()`: `r*q` lies within half a divisor of `p`, and an exact half rounds away from zero |
| Base.RoundIsNearest | src/utils.rs:13-18 | a rounded quotient is a multiple of the divisor nearest to the dividend |
| Text.SplitOn | src/render.rs:125 | `split('\n')` gives at least one piece, and no piece holds the separator |
| Text.SplitCount | src/render.rs:125 | there is one more piece than there are separators |
| Text.SplitJoin | src/pad.rs:138-144 | splitting undoes joining when no piece holds the separator |
| Text.Lines | src/pad.rs:86 | `lines()` of a text is empty exactly when the text is, and no line holds `'\n'` |
| Text.Find | src/pad.rs:107-111 | the leftmost occurrence of the mark, and no earlier one |
| Text.Repeat | src/pad.rs:162 | `repeat(n)` is `n` copies long |
| Align.CharWidth | src/align.rs:12-26 | zero exactly for the empty string; otherwise the table width of the first character, plus `BOLD_PAD` when bold |
| Align.CharWidthFirstOnly | src/align.rs:17-23 | only the first character counts, and bold adds exactly `BOLD_PAD` |
| Align.FormatStep | src/align.rs:40-55 | a character that is drawn leaves the bold and italic flags unchanged |
| Align.GetLineWidth | src/align.rs:28-65 | the width the loop computes is `LineWidth` of the line (the newline panic is a requires) |
| Align.PlainLineWidth | src/align.rs:39-63 | a line without `§`: its glyph widths plus one gap between each pair of neighbours, and no italic allowance |
| Align.BoldLineWidth | src/align.rs:46-57 | after `§l` every glyph is `BOLD_PAD` wider |
| Align.ItalicLineWidth | src/align.rs:47-63 | a line that switches to italic gains `ITALIC_CHAR_HORIZON_PADDING` once |
| Align.ResetPrefixWidth | src/align.rs:48-51 | a leading `§r` changes nothing |
| Align.UnknownCodeInvisible | src/align.rs:40-55 | a `§` and an unknown code take no room at all |
| Align.ScanFromAppend | src/align.rs:39-58 | the width scan of `s + t` is the scan of `t` continued from the scan of `s` |
| Align.LinesWidth | src/align.rs:67-69 | the widest line's width, and 0 for no lines |
| Align.SpacePadWidth | src/align.rs:75-82 | the drawn width of `y` bold and `x` plain spaces, plus one gap, is the solver's `x*PLAIN_UNIT + y*BOLD_UNIT` plus `(x+y)*(4 - SPACE_WIDTH)`, so the two agree exactly when `SPACE_WIDTH` is 4 |
| Align.SpacePadScan | src/align.rs:82 | a space pad contains no newline and scans back to unformatted, having counted its spaces |
| Align.SpecificLengthSpacesAndDiff | src/align.rs:75-84 | the pad of a best decomposition of `length + prev_diff` found by `find_closest`, with that decomposition's signed residual |
| Align.NonNegativeReachable | src/align.rs:76-81 | for a non-negative length the solution list is never empty, so `solutions[0]` does not panic |
| Align.SpecificLengthSpaces | src/align.rs:71-73 | a best pad for `length` |
| Align.AlignAnyAndGetDiff | src/align.rs:130-137 | a negative room gives no pad and the room as the residual; otherwise a best pad for the room plus `prev_diff` |
| Align.AlignAny | src/align.rs:139-141 | an empty pad when the text is too wide, otherwise a best pad for the room left |
| Align.AlignLeft | src/align.rs:143-145 | the text, then a pad for it |
| Align.AlignRight | src/align.rs:152-154 | a pad, then the text |
| Align.AlignLeftAndGetDiff | src/align.rs:147-150 | starts with the text; a negative room appends nothing; otherwise a best pad for the room plus `prev_diff` follows |
| Align.AlignRightAndGetDiff | src/align.rs:156-159 | ends with the text; a negative room prepends nothing; otherwise a best pad for the room plus `prev_diff` comes before it |
| Align.CenterHalves | src/align.rs:163-168 | the truncated half and the rounded half of the room always add up to the room |
| Align.AlignCenter | src/align.rs:161-170 | a best pad for the truncated half, the text, then a best pad for the rounded half |
| Align.AlignSimple | src/align.rs:172-194 | the loop's string is the fold `AlignSimpleFold` over the arguments |
| Align.AlignOne | src/align.rs:177-191 | one argument appends its piece and takes its residual as the new `diff` |
| Align.AlignStepExtends | src/align.rs:179-189 | every argument only appends |
| Align.AlignSimplePrefixDefined | src/align.rs:176-192 | a call that does not panic on all arguments does not panic on any prefix of them |
| Align.AlignSimpleExtends | src/align.rs:176-192 | the output extends the output for every prefix of the arguments |
| Align.AlignSimpleTextsOnly | src/align.rs:178-180 | text-only arguments give their concatenation, and the residual stays 0 |
| Align.CutByLength | src/align.rs:86-128 | the loop's chunks are `CutByLengthSpec` of the line |
| Align.CutByLengthContent | src/align.rs:95-127 | no chunk holds a newline, and the chunks spell the line without its newlines, up to a dropped whitespace-only tail |
| Align.YieldCharsAndLength | src/align.rs:203-229 | one entry per character, with the running width after it; the widths never decrease |
| Align.YieldStep | src/align.rs:211-227 | one character's step adds to the running width and never lowers it |
| Align.RunningWidthMono | src/align.rs:224-226 | the running width is monotone along the line |
| Utils.YCandidates | src/utils.rs:78-83 | four candidates for `y`: zero first, and none negative |
| Utils.FindClosest | src/utils.rs:63-102 | the loop's result is `FindClosestSpec`. The result is empty exactly when `x_max < 1`. Every solution has `1 <= x <= x_max`, `y >= 0` and all solutions tie. The residual is the first solution's. No `(x, y)` with `x` in range and `y >= 0` is closer. Every tied candidate tried is kept |
| Utils.TryCandidates | src/utils.rs:85-96 | one `x`: the four candidates considered in order, with a strictly better one restarting the list and a tie appended |
| Utils.FindClosestCorrect | src/utils.rs:63-102 | the scan over `1..=x_max` meets the promise above |
| Utils.BestYIsCandidate | src/utils.rs:78-83 | for a fixed `x`, a best `y >= 0` is among the four candidates |
| Utils.ClosestNonEmpty | src/utils.rs:72-76 | a non-negative target always yields a solution |
| Utils.ClosestExactHit | src/utils.rs:72-99 | a target equal to `x0*a + y0*b` with `x0 >= 1` and `y0 >= 0` is hit with residual 0 |
| Utils.ExactHitInRange | src/utils.rs:72-73 | such an `x0` is within `x_max` |
| Utils.SolveXY | src/utils.rs:105-123 | an odd `c` gives `None`; for `s >= 2` and `c >= 0` an answer's `y` is non-negative (the division-by-zero panics are a requires) |
| Utils.SolveXYSolves | src/utils.rs:110-120 | an answer solves the halved equation `(s/2)*x + (b/2)*y == (c/2)*(b/2 - s/2)` |
| Utils.SolveXYExactIff | src/utils.rs:105-123 | with even coefficients, `s*x + b*y == c` holds exactly when `c == 0` or `b - s == 2` |
| Utils.SolveXYNegativeX | src/utils.rs:118 | `solve_xy(2, 10, 2)` is `Some((-1, 1))`: the plain count can be negative |
| Utils.SolveXYLargeTarget | src/utils.rs:113-116 | once the even `c` reaches `2*(s/2)^2` (with `b/2 > s/2`), there is an answer |
| Utils.MaxRange | src/utils.rs:21-24 | the half-width of the scanned range of `x` is at least 100 |
| Utils.BestYUnbounded | src/utils.rs:28-29 | for a fixed `x`, the best integer `y` is the floor or the ceiling of the ideal `y` |
| Utils.ApproximateSumOptimized | src/utils.rs:2-60 | the `diff` is the residual of the returned `(x, y)` and is at most `abs(c)`. With `a == 0` (or `b == 0`), `x` (or `y`) is 0 and no pair does better. Otherwise `x` lies in `-R..=R` and no pair with `x` in that range does better |
| Utils.ScanRange | src/utils.rs:26-59 | the scan over `-R..=R`: the best pair in range |
| Utils.TryApproxYs | src/utils.rs:27-56 | one `x`: the best of the candidates so far, and a hit only at residual 0 |
| Pad.AllParity | src/pad.rs:10-11 | true exactly when every value's low bit is `p` |
| Pad.CheckSameParity | src/pad.rs:6-12 | true exactly when all values share a parity (vacuously for none) |
| Pad.MaxOf | src/pad.rs:25 | the largest value, and one of the values |
| Pad.BoldSpaceWidthValue | src/pad.rs:36 | `get_line_width("§l ")` is `4 + BOLD_PAD` |
| Pad.SolveRoomSolvesLargeRooms | src/pad.rs:36 | the exact solver of `resolve` solves every even room of at least `2*(gap/2)^2` |
| Pad.TryWidthCorrect | src/pad.rs:31-43 | one attempt succeeds exactly when every room `width - c[i]` is solvable, and then holds each room's solution in order |
| Pad.LargeWidthSucceeds | src/pad.rs:30-50 | once every room is large and even, the attempt succeeds, so the loop ends |
| Pad.ResolveFromCorrect | src/pad.rs:30-50 | the retry loop stops at a width of the start's parity at which the attempt succeeds, and every width tried before failed |
| Pad.ResolveFromRetries | src/pad.rs:47-48 | a width that fails moves on to `width + 2` and keeps every room even |
| Pad.Resolve | src/pad.rs:15-51 | the loops return `ResolveSpec(c)` |
| Pad.ResolveLoop | src/pad.rs:15-51 | `resolve` with a given room solver returns `ResolveWith` |
| Pad.Retry | src/pad.rs:30-50 | the outer loop yields the solutions `ResolveFrom` gives from the start width |
| Pad.Attempt | src/pad.rs:31-43 | the inner loop stops at the first room without a solution, as `TryWidth` says |
| Pad.TryWidthPrefixFails | src/pad.rs:39-42 | an attempt that fails on a prefix fails on the whole |
| Pad.ResolveWithCorrect | src/pad.rs:15-51 | `None` exactly for no values or mixed parity. Otherwise one entry per value, each the solution of its room `W - c[i]`, where `W` is the smallest width of the values' parity, from the maximum on, at which all rooms are solvable |
| Pad.ResolveFromWidth | src/pad.rs:24-50 | the width `resolve` settles on is that smallest one |
| Pad.SmallestWidthFrom | src/pad.rs:24-50 | the first working width from the start is the smallest working one |
| Pad.SmallerWidthFails | src/pad.rs:30-50 | every width of the right parity below it has a room the solver cannot fill |
| Pad.StartWidthEven | src/pad.rs:24-28 | the start width is at least the maximum, has the values' parity, and makes every room even |
| Pad.PadWith | src/pad.rs:53-68 | one line per text: the text, then the pad string of its room's solution at one common smallest width |
| Pad.Pad | src/pad.rs:53-68 | the same, with `solve_xy` as the room solver (the `expect` panic is a requires) |
| Pad.PadWithWitness | src/pad.rs:53-68 | the width `resolve` settles on witnesses the common width of `pad` |
| Pad.PaddedLines | src/pad.rs:67 | every text is followed by the pad string of its own room's solution |
| Pad.Mark | src/pad.rs:130-131 | the mark `(padN)` is at least six characters long |
| Pad.After | src/pad.rs:111-115 | the remainder after the mark is shorter than the line |
| Pad.CutAtMark | src/pad.rs:111-115 | `splitn(2, mark)` loses nothing, and the part before it holds no mark |
| Pad.MatchIndexFacts | src/pad.rs:106-117 | the matched indices are the lines holding the mark, in order; update `j` pairs matched line `j` with the text after its mark |
| Pad.UpdatesMatch | src/pad.rs:110-116 | every update names a matched line and the text after its mark |
| Pad.IndexRank | src/pad.rs:106-117 | the `j`-th matched line has rank `j` |
| Pad.RankIndex | src/pad.rs:106-117 | every line holding the mark is the matched line of its rank |
| Pad.StepPending | src/pad.rs:122-124 | the step keeps the number of lines |
| Pad.StepPadded | src/pad.rs:126-128 | the step keeps the number of padded parts |
| Pad.StepShrinks | src/pad.rs:99-132 | a step while a line holds the mark shortens the pending text, so `execute` terminates |
| Pad.RunStep | src/pad.rs:146-151 | while not done, the run is one step followed by the run from the new state, and the step's batch meets the pad function's precondition |
| Pad.RunAfterStep | src/pad.rs:147-149 | the state after a step continues the same run |
| Pad.RunStopsAtMissingMark | src/pad.rs:134-151 | the run stops at the first mark no line holds, whatever later marks exist |
| Pad.RunKeepsLength | src/pad.rs:146-151 | a run keeps the number of lines |
| Pad.UpdateAdvance | src/pad.rs:122-124 | applying update `j` to its line gives the next state |
| Pad.PendingSoFarAll | src/pad.rs:122-124 | no update leaves the lines as they were; all updates give `StepPending` |
| Pad.PaddedAdvance | src/pad.rs:126-128 | writing output `j` to matched line `j` gives the next state |
| Pad.PaddedSoFarAll | src/pad.rs:126-128 | no output leaves the parts as they were; the zipped outputs give `StepPadded` |
| Pad.Padder.constructor | src/pad.rs:85-97 | the lines of the text pending, an empty padded part for each, mark `(pad1)` |
| Pad.Padder.Step | src/pad.rs:99-132 | matched lines keep only the text after their mark; matched line `j` takes output `j` of the pad function; the index goes up by one (the `assert!` is a requires) |
| Pad.Padder.Collect | src/pad.rs:101-117 | the first pass returns the batch, the matched indices and the updates |
| Pad.Padder.ApplyUpdates | src/pad.rs:122-124 | the second pass gives `StepPending` and changes nothing else |
| Pad.Padder.WritePads | src/pad.rs:126-128 | the third pass gives `StepPadded` and changes nothing else |
| Pad.Padder.Finish | src/pad.rs:138-144 | empty for no lines; otherwise the lines `pending[i] + padded[i]`, which split back one per line when none holds a newline |
| Pad.Padder.Execute | src/pad.rs:146-151 | the result is the run's final lines, zipped and joined by newlines |
| Pad.PadWithFormat | src/pad.rs:154-156 | the `(padN)` engine run with `pad`; a text without `(pad1)` comes back as its lines joined |
| Pad.PadWithLength | src/pad.rs:158-166 | `k` copies of the padder: the truncated `k`, with `k*cw <= length+gap < (k+1)*cw` for a non-negative length and zero copies for a negative length that truncates to zero; or the rounded count saturated at zero |
| Pad.PadWithLengthFits | src/pad.rs:158-162 | with one plain character, the truncated copies are drawn within `length` and one copy more would not be |
| Pad.CopiesWidth | src/pad.rs:162 | `k` copies of a character are `k` widths plus `k - 1` gaps |
| Font.Blank | src/font.rs:88 | `RgbaImage::new(w, h)`: a well-formed bitmap of that size |
| Font.Crop | src/font.rs:160-161 | `crop_imm`: the rectangle clipped to the image, each pixel taken from its offset in the image |
| Font.RuneToIdx | src/font.rs:60-67 | `(0, 0, 0)` for the empty string; otherwise row and column below 16 that, with the group, spell the first code |
| Font.IdxToRune | src/font.rs:74-78 | one character: the index truncated to 16 bits, or a space for a surrogate |
| Font.RuneIdxRoundTrip | src/font.rs:60-78 | every character of the basic plane comes back from its own index |
| Font.IsGrayscale | src/font.rs:104-111 | true exactly when no pixel's red, green and blue differ |
| Font.GetBbox | src/font.rs:124-146 | the scan's result is `Bbox` of the image |
| Font.ImageBoxInv | src/font.rs:131-139 | the scan keeps its box around all ink seen so far, and each side of the box touches ink |
| Font.BboxTight | src/font.rs:124-146 | `None` exactly for an image without ink. Otherwise the box lies in the image and holds every inked pixel, and its first and last rows and columns hold ink |
| Font.TightColumns | src/font.rs:113-119 | the kept columns are ordered |
| Font.TightFont | src/font.rs:113-122 | the method's bitmap is `Tight` of the cell |
| Font.TightKeepsInk | src/font.rs:113-122 | the trimmed cell is 31 high. Without ink it is `SPACE_WIDTH` wide. With ink it is the box's width and keeps every inked pixel, and its first and last columns hold ink |
| Font.Obfuscated | src/font.rs:167-173 | same size as the glyph |
| Font.Obfuscate | src/font.rs:167-173 | the loop gives `Obfuscated` |
| Font.ObfuscateIdempotent | src/font.rs:167-173 | obfuscation keeps which pixels are inked and changes nothing a second time |
| Font.Bolded | src/font.rs:174-191 | two columns wider, same height |
| Font.BoldRow | src/font.rs:180-189 | one row of the loop gives that row of `Bolded` |
| Font.Bold | src/font.rs:174-191 | the loop gives `Bolded` |
| Font.BoldKeepsGlyph | src/font.rs:174-191 | the bold glyph begins with the glyph unchanged, then repeats its last column once and ends with a clear column: strokes are not thickened |
| Font.GroupSpec | src/font.rs:80-102 | a page, when there is one, is 512 by 512 |
| Font.Styled | src/font.rs:165-192 | styling keeps the coloured flag and a well-formed bitmap |
| Font.GlyphSpec | src/font.rs:148-198 | every glyph is a well-formed bitmap |
| Font.CellInsidePage | src/font.rs:157-160 | the 32 × 31 cell at `(col*32, row*32)` of a 512 × 512 page is never clipped: it is 32 wide, 31 high, and the page's pixels from that corner |
| Font.GlyphShape | src/font.rs:157-198 | every glyph is 31 rows high and at most 34 columns wide |
| Font.CutGlyph | src/font.rs:157-194 | the crop, trim and styling of `get_font` on a loaded page |
| Font.RuneFont.constructor | src/font.rs:52-58 | both caches empty |
| Font.RuneFont.GetGroup | src/font.rs:80-102 | the page `GroupSpec` gives; it is cached unless the file does not decode; the glyph cache is unchanged |
| Font.RuneFont.GetFont | src/font.rs:148-202 | the glyph `GlyphSpec` gives. It is cached under `(rune, fmt)`, no entry is changed or removed, and at most the space's entry is added besides |
| Font.RuneFont.Remember | src/font.rs:200 | storing a freshly made glyph keeps both caches valid |
| Render.CodeChar | src/render.rs:112 | the colour code of a word, `fmt & 0x7F`, as a character |
| Render.WordCode | src/render.rs:149-151 | a code character's word is its own colour code, and non-zero |
| Render.SetColorWord | src/render.rs:149-151 | `(cur & 0xFF80) \| ch` has colour code `ch`, keeps the style bits, and is a word the tokenizer can hold |
| Render.SetFlagWord | src/render.rs:146-148 | setting a style flag keeps the colour code |
| Render.CodeEffectWordOK | src/render.rs:144-151 | every code turns a word the tokenizer can hold into another |
| Render.StyleCodeEffect | src/render.rs:146-148 | `§l`, `§o` and `§k` set bold, italic and obfuscated, and keep every other bit |
| Render.ColorCodeEffect | src/render.rs:145-151 | `§r` clears the word; a colour character becomes the colour code and keeps the style bits |
| Render.GetColor | src/render.rs:109-120 | opaque white unless the word has a colour code that the options map; then the mapped colour |
| Render.PaletteMapped | src/render.rs:21-48 | every colour character the tokenizer accepts has a colour in the default table |
| Render.DefaultColorOf | src/render.rs:109-120 | with the default options, a word from the tokenizer draws in its table colour, or white without a code |
| Render.ApplyCode | src/render.rs:144-156 | the match on the code gives `CodeEffect` |
| Render.TokenizeLine | src/render.rs:130-162 | the character loop gives `TokLine` of the line |
| Render.SplitFormatAndText | src/render.rs:123-167 | the loops give `SplitSpec` of the input |
| Render.TokStepShape | src/render.rs:134-161 | an emitted character carries the format in force |
| Render.TokLineShape | src/render.rs:134-162 | one format per emitted character; each emitted string is one character of the line; every format is a word the tokenizer can hold |
| Render.SplitShape | src/render.rs:123-167 | one line per newline plus one, with a format per character. Every character is a one-character string other than a newline. Every format's colour code, if any, is in the default table |
| Render.TrailingSectionDropped | src/render.rs:140-163 | a final `§` emits nothing and leaves a code pending |
| Render.EscapedSection | src/render.rs:135-139 | `§§` emits one `§` in the format in force |
| Render.UnknownCode | src/render.rs:152-157 | `§` and a non-code character emit that character, and the `§` is swallowed |
| Render.FormatCode | src/render.rs:135-157 | `§` and a code emit nothing and set the format `CodeEffect` gives |
| Render.PlainLine | src/render.rs:158-161 | a line without `§` emits each character in the format it starts with, and passes that format on |
| Render.LineInheritsFormat | src/render.rs:124-165 | the format in force carries over from one line to the next |
| Render.GlyphWidths | src/render.rs:173-175 | one width per character that has a format (`zip`) |
| Render.PlacementsIndex | src/render.rs:228-237 | glyph `j` of a line is drawn at the cursor after the glyphs and gaps before it |
| Render.LineWidths | src/render.rs:214-216 | one width per line |
| Render.LineTopProduct | src/render.rs:224 | line `i` is drawn at `i * (31 + line_padding)` |
| Render.LineFits | src/render.rs:220-224 | every line drawn ends within the canvas height |
| Render.AdvanceBound | src/render.rs:228-237 | each glyph starts at a non-negative cursor and ends within the line's summed widths and gaps |
| Render.MaxOfIsMax | src/render.rs:214-218 | the fold `max()` is the largest width, and a width of one of the lines |
| Render.WidthsInCell | src/render.rs:174-175 | every glyph is at most a cell and two bold columns wide, and 31 high |
| Render.LineWidthNonNegative | src/render.rs:169-184 | with no negative gap, a line's width is not negative |
| Render.RowsExtend | src/render.rs:223-271 | one more line's glyphs extend the lines drawn so far |
| Render.WidestNonNegative | src/render.rs:214-218 | the canvas width is not negative |
| Render.GlyphInLine | src/render.rs:169-237 | every glyph of a line ends within `get_line_width` of that line |
| Render.GlyphsInsideCanvas | src/render.rs:212-237 | every glyph `render` draws lies wholly on the canvas: nothing is cut off at the right or the bottom |
| Render.TellRawSimulator.constructor | src/render.rs:64-66 | the simulator over any consistent glyph store and the options |
| Render.TellRawSimulator.GlyphAt | src/render.rs:228-230 | `get_font(c, f & 0xFF80)`: the glyph of the character with the colour bits cleared |
| Render.TellRawSimulator.SumWidths | src/render.rs:170-177 | the loop sums the glyph widths and finds the last format |
| Render.TellRawSimulator.AddWidth | src/render.rs:174-175 | one glyph's width added to the running sum |
| Render.TellRawSimulator.GetLineWidth | src/render.rs:169-184 | `LineWidth`: glyphs, the italic allowance when the last one is italic, and one gap fewer than characters |
| Render.TellRawSimulator.PlaceLine | src/render.rs:225-237 | the cursor loop places every glyph of the line |
| Render.TellRawSimulator.PlaceGlyph | src/render.rs:229-237 | glyph `i` at the cursor, then the cursor past it and one gap |
| Render.TellRawSimulator.MeasureLines | src/render.rs:214-218 | the widest line's width, or 0 for none |
| Render.TellRawSimulator.Widen | src/render.rs:214-217 | one more line compared into the maximum |
| Render.TellRawSimulator.PlaceLines | src/render.rs:223-271 | line `i` is placed at its own top |
| Render.TellRawSimulator.Render | src/render.rs:212-274 | the canvas `RenderSpec` gives: as wide as the widest line, `31*n + (n-1)*line_padding` high, and each glyph at its place in its colour; it needs a glyph only for each character drawn |
| Render.OtherPageDrawable | src/font.rs:154-198 | with page 0 undecodable and every other page missing, the text `中` (page 0x4E) can still be drawn: page 0 is needed only through the characters that use it |
| Render.PageZeroNeeded | src/font.rs:195-198 | with page 0 undecodable, `a` cannot be drawn: its fallback, the space, lives on page 0 too |
| Render.RenderText | src/render.rs:277-282 | a simulator over a fresh store, with the default options unless others are given |

## Left out

- Drawing onto the canvas (`draw`, `src/render.rs:69-106`) is left out, along with its alpha scaling in `f32`. The model records, for each glyph, where it is drawn, which glyph it is and in which colour; it does not record the pixels written.
- The italic shear (`shear_image`, `italic` and the re-pasting in `render`, `src/render.rs:186-210,239-269`) is left out. It works in floating point, and it changes only pixels, never the layout.
- Reading the glyph page files is left out. So are the PNG decoding and the nearest-neighbour resize. Each group's file is a parameter `pages`: missing, undecodable, or already a 512 by 512 bitmap. The root directory is not modelled.
- Bitmaps are values (rows of pixels). Neither library bitmaps nor their update in place are modelled.
- Integer width is only partly modelled. Format words are 32-bit, as in the source. Other `i32` and `u32` arithmetic is modelled as unbounded `int`; `i32` overflow only happens for widths far beyond any text.
- Render.TellRawSimulator.Render: requires non-negative paddings. With a negative padding, the source's `as u32` casts wrap; the model does not capture that. It also requires that every character drawn has a glyph, that is, its own page decodes or page 0 does; otherwise the source's fallback to the space recurses without end.
- `f64` arithmetic is not modelled as such. Floor, ceiling and rounding of a ratio of two integers are exact integer functions. For `i32` operands the `f64` results agree with them.
- Font.IdxToRune: requires the index to fit in 32 bits, where the source's multiplication would overflow.
- `rune_to_raw_idx` (`src/font.rs:69-72`) and the `FONT_WIDTHS` table (`src/align.rs:6-10`) are not modelled; nothing in the core calls them.
- Font.RuneFont.GetFont: requires the glyph's page, or the space's page, to decode. When neither decodes, the source's fallback to the space recurses without end.
- Align.SpacePadWidth: the drawn width of a pad matches the solver's target only when `SPACE_WIDTH` is 4, the font table's space width. `src/define.rs` is not part of this model, so the lemma states the difference instead of assuming the value.
- The `FontMaker` trait (`src/font.rs:35-43`) and `Font::width`, `Font::height` and `Font::clone` are not modelled separately. They only forward to the glyph's bitmap.
- The caches of `RuneFont` are `map`s rather than `HashMap`s. Clones of cached values are not modelled, since values cannot alias.
- Pad.Padder.Execute: requires that the run completes, that is, that each batch meets the pad function's precondition. A pad function that panics is modelled as a partial function.
- Utils.ApproximateSumOptimized: states optimality over the scanned range, not which of several equally good pairs is returned.
- The constants of `src/define.rs` are not fixed. That file is not part of this model. Every property is proved for any values meeting the lower bounds declared in `Define`.
- `lib.rs`, `main.rs`, `cmd_helper.rs` and the web front end are outside the core and are not modelled.
