/** The format tokenizer and the layout of the renderer: how `§` codes turn a
    text into lines of one-character strings with a format word each, which
    colour a format word draws in, how wide a line is, and where each glyph
    lands on the canvas. */
module Render {
  import opened Base
  import opened Text
  import opened Define
  import Font

  const FMT_OBFUSCATED: bv32 := 0x100
  const FMT_BOLD: bv32 := 0x200
  const FMT_ITALIC: bv32 := 0x400
  /** The colour code sits in the low seven bits of a format word. */
  const COLOR_BITS: bv32 := 0x7F
  /** The bits `get_font` is given: the format word without its colour. */
  const STYLE_BITS: bv32 := 0xFF80
  /** The bits a format word never uses: all but 0 to 6 and 8 to 10. */
  const UNUSED_BITS: bv32 := 0xFFFF_F880

  /** Glyph rows, and so the height of a text line. */
  const LINE_HEIGHT: nat := 31

  type Color = (Font.byte, Font.byte, Font.byte, Font.byte)

  const WHITE: Color := (255, 255, 255, 255)

  /** `SimulateOptions`: the gap between glyphs, the gap between lines and
      the colour of each code. */
  datatype SimulateOptions = SimulateOptions(fontHorizonPadding: int, linePadding: int, colorMapping: map<string, Color>)

  /** The colour table of `SimulateOptions::default`. */
  const DEFAULT_COLORS: map<string, Color> := map[
    "0" := (0, 0, 0, 255), "1" := (0, 0, 170, 255), "2" := (0, 170, 0, 255), "3" := (0, 170, 170, 255),
    "4" := (170, 0, 0, 255), "5" := (170, 0, 170, 255), "6" := (255, 170, 0, 255), "7" := (170, 170, 170, 255),
    "8" := (85, 85, 85, 255), "9" := (85, 85, 255, 255), "a" := (85, 255, 85, 255), "b" := (85, 255, 255, 255),
    "c" := (255, 85, 85, 255), "d" := (255, 85, 255, 255), "e" := (255, 255, 85, 255), "f" := (255, 255, 255, 255),
    "g" := (221, 214, 5, 255), "h" := (222, 214, 5, 255), "i" := (227, 212, 209, 255), "j" := (68, 58, 59, 255),
    "m" := (151, 22, 7, 255), "n" := (180, 104, 77, 255), "p" := (222, 177, 45, 255), "q" := (17, 160, 54, 255),
    "s" := (44, 186, 168, 255), "t" := (33, 73, 123, 255), "u" := (154, 92, 198, 255), "v" := (235, 114, 20, 255)]

  const DEFAULT_OPTIONS: SimulateOptions := SimulateOptions(CHAR_HORIZON_PADDING, 6, DEFAULT_COLORS)

  // ---------------------------------------------------------------------
  // Format words

  /** The characters that may follow `§` as a code: `0` to `9` and `a` to `u`. */
  predicate IsFormatCode(ch: char) {
    '0' <= ch <= '9' || 'a' <= ch <= 'u'
  }

  /** The codes that set a colour: `r`, `l`, `o` and `k` are matched first. */
  predicate PaletteCode(ch: char) {
    IsFormatCode(ch) && ch != 'r' && ch != 'l' && ch != 'o' && ch != 'k'
  }

  /** `ch as u32` for a character below 0x80. */
  function Word(ch: char): bv32
    requires ch as int < 0x80
  {
    (ch as int as bv7) as bv32
  }

  /** The character of a format word's colour code, `fmt & 0x7F`. */
  function CodeChar(fmt: bv32): char {
    ((fmt & COLOR_BITS) as int) as char
  }

  /** A format word the tokenizer can hold: no unused bit, and a colour code
      that is zero or a palette character. */
  predicate WordOK(fmt: bv32) {
    fmt & UNUSED_BITS == 0 && (fmt & COLOR_BITS == 0 || PaletteCode(CodeChar(fmt)))
  }

  /** A code character's word is its own colour code and nothing else. */
  lemma WordCode(ch: char)
    requires IsFormatCode(ch)
    ensures Word(ch) & UNUSED_BITS == 0 && Word(ch) & COLOR_BITS == Word(ch) && Word(ch) != 0
    ensures CodeChar(Word(ch)) == ch
  {
  }

  /** Replacing the colour code by a palette character's gives that
      character's code. */
  lemma SetColorCode(cur: bv32, ch: char)
    requires PaletteCode(ch)
    ensures var c := (cur & STYLE_BITS) | Word(ch); c & COLOR_BITS == Word(ch) && CodeChar(c) == ch
  {
    var w := Word(ch);
    WordCode(ch);
    assert w & COLOR_BITS == w && CodeChar(w) == ch;
    ColorBitsOf(cur, w);
  }

  /** Or-ing colour bits over the style bits leaves those colour bits, and
      so their code character. */
  lemma ColorBitsOf(cur: bv32, w: bv32)
    requires w & COLOR_BITS == w
    ensures ((cur & STYLE_BITS) | w) & COLOR_BITS == w && CodeChar((cur & STYLE_BITS) | w) == CodeChar(w)
  {
    assert ((cur & STYLE_BITS) | w) & COLOR_BITS == w & COLOR_BITS;
    SameCode((cur & STYLE_BITS) | w, w);
  }

  /** Replacing the colour code keeps the style bits and sets no unused one. */
  lemma SetColorStyle(cur: bv32, ch: char)
    requires PaletteCode(ch) && cur & UNUSED_BITS == 0
    ensures var c := (cur & STYLE_BITS) | Word(ch); c & !COLOR_BITS == cur & STYLE_BITS && c & UNUSED_BITS == 0
  {
    WordCode(ch);
  }

  /** Replacing the colour code by a palette character's keeps the style
      bits and yields a word the tokenizer can hold. */
  lemma SetColorWord(cur: bv32, ch: char)
    requires PaletteCode(ch)
    ensures var c := (cur & STYLE_BITS) | Word(ch);
      c & COLOR_BITS == Word(ch) && CodeChar(c) == ch &&
      (cur & UNUSED_BITS == 0 ==> c & !COLOR_BITS == cur & STYLE_BITS && WordOK(c))
  {
    SetColorCode(cur, ch);
    if cur & UNUSED_BITS == 0 {
      SetColorStyle(cur, ch);
    }
  }

  /** Words with the same colour code have the same code character. */
  lemma SameCode(x: bv32, y: bv32)
    requires x & COLOR_BITS == y & COLOR_BITS
    ensures CodeChar(x) == CodeChar(y)
  {
  }

  /** Setting a style flag sets that bit and keeps every other. */
  lemma SetFlagBits(cur: bv32, flag: bv32)
    requires flag == FMT_BOLD || flag == FMT_ITALIC || flag == FMT_OBFUSCATED
    ensures (cur | flag) & flag != 0 && (cur | flag) & !flag == cur & !flag
  {
  }

  /** Setting a style flag keeps the colour code, and yields a word the
      tokenizer can hold from one it can. */
  lemma SetFlagWord(cur: bv32, flag: bv32)
    requires flag == FMT_BOLD || flag == FMT_ITALIC || flag == FMT_OBFUSCATED
    ensures CodeChar(cur | flag) == CodeChar(cur) && (WordOK(cur) ==> WordOK(cur | flag))
  {
    assert (cur | flag) & COLOR_BITS == cur & COLOR_BITS;
    SameCode(cur | flag, cur);
    assert cur & UNUSED_BITS == 0 ==> (cur | flag) & UNUSED_BITS == 0;
  }

  /** The format that `§` and a code set, from the format in force. */
  function CodeEffect(cur: bv32, ch: char): bv32
    requires IsFormatCode(ch)
  {
    if ch == 'r' then 0
    else if ch == 'l' then cur | FMT_BOLD
    else if ch == 'o' then cur | FMT_ITALIC
    else if ch == 'k' then cur | FMT_OBFUSCATED
    else (cur & STYLE_BITS) | Word(ch)
  }

  /** Every code turns a word the tokenizer can hold into another. */
  lemma CodeEffectWordOK(cur: bv32, ch: char)
    requires IsFormatCode(ch) && WordOK(cur)
    ensures WordOK(CodeEffect(cur, ch))
  {
    if ch == 'l' {
      FlagWordOK(cur, ch, FMT_BOLD);
    } else if ch == 'o' {
      FlagWordOK(cur, ch, FMT_ITALIC);
    } else if ch == 'k' {
      FlagWordOK(cur, ch, FMT_OBFUSCATED);
    } else if ch != 'r' {
      PaletteWordOK(cur, ch);
    } else {
      assert CodeEffect(cur, ch) == 0;
    }
  }

  lemma FlagWordOK(cur: bv32, ch: char, flag: bv32)
    requires (ch == 'l' && flag == FMT_BOLD) || (ch == 'o' && flag == FMT_ITALIC) || (ch == 'k' && flag == FMT_OBFUSCATED)
    requires WordOK(cur)
    ensures WordOK(CodeEffect(cur, ch))
  {
    FlagEffect(cur, ch, flag);
    SetFlagWord(cur, flag);
  }

  lemma PaletteWordOK(cur: bv32, ch: char)
    requires PaletteCode(ch) && WordOK(cur)
    ensures WordOK(CodeEffect(cur, ch))
  {
    var c := (cur & STYLE_BITS) | Word(ch);
    SetColorWord(cur, ch);
    assert CodeEffect(cur, ch) == c;
  }

  lemma FlagEffect(cur: bv32, ch: char, flag: bv32)
    requires (ch == 'l' && flag == FMT_BOLD) || (ch == 'o' && flag == FMT_ITALIC) || (ch == 'k' && flag == FMT_OBFUSCATED)
    ensures CodeEffect(cur, ch) == cur | flag
  {
    if ch == 'l' {
    } else if ch == 'o' {
    } else {
    }
  }

  /** `§l`, `§o` and `§k` set bold, italic and obfuscated and keep every
      other bit. */
  lemma StyleCodeEffect(cur: bv32, ch: char, flag: bv32)
    requires (ch == 'l' && flag == FMT_BOLD) || (ch == 'o' && flag == FMT_ITALIC) || (ch == 'k' && flag == FMT_OBFUSCATED)
    ensures CodeEffect(cur, ch) & flag != 0 && CodeEffect(cur, ch) & !flag == cur & !flag
  {
    FlagEffect(cur, ch, flag);
    SetFlagBits(cur, flag);
  }

  /** `§r` clears the format; a colour character becomes the colour code,
      and keeps the style bits of a word with no unused bit. */
  lemma ColorCodeEffect(cur: bv32, ch: char)
    requires ch == 'r' || PaletteCode(ch)
    ensures ch == 'r' ==> CodeEffect(cur, ch) == 0
    ensures ch != 'r' ==> CodeChar(CodeEffect(cur, ch)) == ch
    ensures ch != 'r' && cur & UNUSED_BITS == 0 ==> CodeEffect(cur, ch) & !COLOR_BITS == cur & STYLE_BITS
  {
    if ch != 'r' {
      assert CodeEffect(cur, ch) == (cur & STYLE_BITS) | Word(ch);
      SetColorWord(cur, ch);
    }
  }

  // ---------------------------------------------------------------------
  // Colours

  /** `get_color`: opaque white unless the word has a colour code that the
      options map; then the mapped colour. */
  function GetColor(options: SimulateOptions, fmt: bv32): (c: Color)
    ensures fmt & COLOR_BITS == 0 ==> c == WHITE
    ensures fmt & COLOR_BITS != 0 && [CodeChar(fmt)] !in options.colorMapping ==> c == WHITE
    ensures fmt & COLOR_BITS != 0 && [CodeChar(fmt)] in options.colorMapping ==> c == options.colorMapping[[CodeChar(fmt)]]
  {
    if fmt != 0 then
      var code := CodeChar(fmt);
      if fmt & COLOR_BITS != 0 && [code] in options.colorMapping then options.colorMapping[[code]] else WHITE
    else WHITE
  }

  /** Every palette character has a colour in the default table, and `v`,
      though in the table, is none of them. */
  lemma PaletteMapped(ch: char)
    requires PaletteCode(ch)
    ensures [ch] in DEFAULT_COLORS && ch != 'v'
  {
  }

  /** With the default options, a format word the tokenizer can hold draws
      in the table's colour for its code when it has one, a code that is
      never `v`, and white when it has none. */
  lemma DefaultColorOf(fmt: bv32)
    requires WordOK(fmt)
    ensures fmt & COLOR_BITS == 0 ==> GetColor(DEFAULT_OPTIONS, fmt) == WHITE
    ensures fmt & COLOR_BITS != 0 ==>
      [CodeChar(fmt)] in DEFAULT_COLORS && CodeChar(fmt) != 'v' &&
      GetColor(DEFAULT_OPTIONS, fmt) == DEFAULT_COLORS[[CodeChar(fmt)]]
  {
    if fmt & COLOR_BITS != 0 {
      PaletteMapped(CodeChar(fmt));
    }
  }

  // ---------------------------------------------------------------------
  // The tokenizer

  /** The state `split_format_and_text` keeps between characters: the format
      in force and whether a `§` is waiting for its code. */
  datatype TokState = TokState(current: bv32, isFmt: bool)

  /** One character of the tokenizer: the new state, and the character with
      its format if one is emitted. */
  function TokStep(st: TokState, ch: char): (TokState, Option<(string, bv32)>)
  {
    if ch == SECTION then
      if st.isFmt then (TokState(st.current, false), Some(([ch], st.current)))
      else (TokState(st.current, true), None)
    else if st.isFmt then
      if IsFormatCode(ch) then (TokState(CodeEffect(st.current, ch), false), None)
      else (TokState(st.current, false), Some(([ch], st.current)))
    else (st, Some(([ch], st.current)))
  }

  /** The tokenizer's state after a line and what the line emitted. */
  datatype LineTokens = LineTokens(state: TokState, text: seq<string>, fmt: seq<bv32>)

  /** The tokenizer after one more character. */
  function TokExtend(lt: LineTokens, ch: char): LineTokens {
    var step := TokStep(lt.state, ch);
    match step.1
    case None => LineTokens(step.0, lt.text, lt.fmt)
    case Some(out) => LineTokens(step.0, lt.text + [out.0], lt.fmt + [out.1])
  }

  /** The tokenizer run over a line from state `st`. */
  function TokLine(st: TokState, line: string): LineTokens
    decreases |line|
  {
    if line == [] then LineTokens(st, [], [])
    else TokExtend(TokLine(st, line[..|line| - 1]), line[|line| - 1])
  }

  lemma TokLineSnoc(st: TokState, line: string, ch: char)
    ensures TokLine(st, line + [ch]) == TokExtend(TokLine(st, line), ch)
  {
    assert (line + [ch])[..|line|] == line;
  }

  /** The tokenizer over a sequence of lines: every line begins with no `§`
      pending, in the format the previous line left. Returns the texts, the
      formats and the format in force at the end. */
  function SplitLines(cur: bv32, lines: seq<string>): (seq<seq<string>>, seq<seq<bv32>>, bv32)
    decreases |lines|
  {
    if lines == [] then ([], [], cur)
    else
      var prev := SplitLines(cur, lines[..|lines| - 1]);
      var lt := TokLine(TokState(prev.2, false), lines[|lines| - 1]);
      (prev.0 + [lt.text], prev.1 + [lt.fmt], lt.state.current)
  }

  lemma SplitLinesSnoc(cur: bv32, lines: seq<string>, line: string)
    ensures var prev := SplitLines(cur, lines);
      var lt := TokLine(TokState(prev.2, false), line);
      SplitLines(cur, lines + [line]) == (prev.0 + [lt.text], prev.1 + [lt.fmt], lt.state.current)
  {
    assert (lines + [line])[..|lines|] == lines;
  }

  /** `split_format_and_text` as a function of its input. */
  function SplitSpec(mix: string): (seq<seq<string>>, seq<seq<bv32>>)
  {
    var r := SplitLines(0, SplitOn(mix, '\n'));
    (r.0, r.1)
  }

  /** The code handling of the character loop: the new format for `§` and a
      code character. */
  method ApplyCode(current0: bv32, ch: char) returns (current: bv32)
    requires IsFormatCode(ch)
    ensures current == CodeEffect(current0, ch)
  {
    current := current0;
    if ch == 'r' {
      current := 0;
    } else if ch == 'l' {
      current := current | FMT_BOLD;
    } else if ch == 'o' {
      current := current | FMT_ITALIC;
    } else if ch == 'k' {
      current := current | FMT_OBFUSCATED;
    } else {
      current := (current & STYLE_BITS) | Word(ch);
    }
  }

  /** One line of `split_format_and_text`: the character loop. */
  method TokenizeLine(current0: bv32, line: string) returns (text: seq<string>, fmt: seq<bv32>, current: bv32)
    ensures var lt := TokLine(TokState(current0, false), line);
      text == lt.text && fmt == lt.fmt && current == lt.state.current
  {
    current := current0;
    text, fmt := [], [];
    var isFmt := false;
    for i := 0 to |line|
      invariant TokLine(TokState(current0, false), line[..i]) == LineTokens(TokState(current, isFmt), text, fmt)
    {
      var ch := line[i];
      assert line[..i + 1] == line[..i] + [ch];
      TokLineSnoc(TokState(current0, false), line[..i], ch);
      if ch == SECTION {
        if isFmt {
          text := text + [[ch]];
          fmt := fmt + [current];
          isFmt := false;
        } else {
          isFmt := true;
        }
      } else if isFmt {
        if IsFormatCode(ch) {
          current := ApplyCode(current, ch);
        } else {
          text := text + [[ch]];
          fmt := fmt + [current];
        }
        isFmt := false;
      } else {
        text := text + [[ch]];
        fmt := fmt + [current];
      }
    }
    assert line[..|line|] == line;
  }

  /** `split_format_and_text`. */
  method SplitFormatAndText(mix: string) returns (outText: seq<seq<string>>, outFmt: seq<seq<bv32>>)
    ensures (outText, outFmt) == SplitSpec(mix)
  {
    var currentFmt: bv32 := 0;
    var lines := SplitOn(mix, '\n');
    outText, outFmt := [], [];
    for li := 0 to |lines|
      invariant SplitLines(0, lines[..li]) == (outText, outFmt, currentFmt)
    {
      assert lines[..li + 1] == lines[..li] + [lines[li]];
      SplitLinesSnoc(0, lines[..li], lines[li]);
      var text, fmt;
      text, fmt, currentFmt := TokenizeLine(currentFmt, lines[li]);
      outText := outText + [text];
      outFmt := outFmt + [fmt];
    }
    assert lines[..|lines|] == lines;
  }

  // ---------------------------------------------------------------------
  // What the tokenizer emits

  /** One step emits the character with the format in force, and keeps the
      format a word the tokenizer can hold. */
  lemma TokStepShape(st: TokState, ch: char)
    requires WordOK(st.current)
    ensures var step := TokStep(st, ch);
      && WordOK(step.0.current)
      && (step.1.Some? ==> step.1.value == ([ch], st.current))
  {
    if ch != SECTION && st.isFmt && IsFormatCode(ch) {
      CodeEffectWordOK(st.current, ch);
    }
  }

  /** A line emits one format per text entry, each entry one character of
      the line; the formats and the state it ends in are words the tokenizer
      can hold when it started with one. */
  lemma {:induction false} TokLineShape(st: TokState, line: string)
    requires WordOK(st.current)
    ensures var lt := TokLine(st, line); LineShape(lt.text, lt.fmt, line) && WordOK(lt.state.current)
    decreases |line|
  {
    if line != [] {
      var init := line[..|line| - 1];
      TokLineShape(st, init);
      var prev := TokLine(st, init);
      TokStepShape(prev.state, line[|line| - 1]);
      assert forall c :: c in init ==> c in line;
    }
  }

  /** What the tokenizer makes of a line: one format word per one-character
      string, each character taken from the line, and each word one the
      tokenizer can hold. */
  ghost predicate LineShape(text: seq<string>, fmt: seq<bv32>, line: string) {
    && |text| == |fmt| <= |line|
    && (forall j :: 0 <= j < |text| ==> |text[j]| == 1 && text[j][0] in line)
    && (forall j :: 0 <= j < |fmt| ==> WordOK(fmt[j]))
  }

  lemma {:induction false} SplitLinesShape(cur: bv32, lines: seq<string>)
    requires WordOK(cur)
    ensures var r := SplitLines(cur, lines);
      && |r.0| == |r.1| == |lines|
      && (forall i :: 0 <= i < |lines| ==> LineShape(r.0[i], r.1[i], lines[i]))
      && WordOK(r.2)
    decreases |lines|
  {
    if lines != [] {
      var init := lines[..|lines| - 1];
      SplitLinesShape(cur, init);
      TokLineShape(TokState(SplitLines(cur, init).2, false), lines[|lines| - 1]);
    }
  }

  lemma SplitShape(mix: string)
    ensures var (text, fmt) := SplitSpec(mix);
      && |text| == |fmt| == Count(mix, '\n') + 1
      && (forall i :: 0 <= i < |text| ==> |text[i]| == |fmt[i]|)
      && (forall i, j :: 0 <= i < |text| && 0 <= j < |text[i]| ==> |text[i][j]| == 1 && text[i][j] != "\n")
      && (forall i, j :: 0 <= i < |fmt| && 0 <= j < |fmt[i]| ==>
            fmt[i][j] & UNUSED_BITS == 0 &&
            (fmt[i][j] & COLOR_BITS != 0 ==> [CodeChar(fmt[i][j])] in DEFAULT_COLORS && CodeChar(fmt[i][j]) != 'v'))
  {
    var lines := SplitOn(mix, '\n');
    SplitCount(mix, '\n');
    SplitLinesShape(0, lines);
    var (text, fmt) := SplitSpec(mix);
    forall i, j | 0 <= i < |fmt| && 0 <= j < |fmt[i]| && fmt[i][j] & COLOR_BITS != 0
      ensures [CodeChar(fmt[i][j])] in DEFAULT_COLORS && CodeChar(fmt[i][j]) != 'v'
    {
      assert LineShape(text[i], fmt[i], lines[i]);
      DefaultColorOf(fmt[i][j]);
    }
    forall i, j | 0 <= i < |text| && 0 <= j < |text[i]|
      ensures text[i][j] != "\n"
    {
      assert text[i][j][0] in lines[i];
    }
  }

  /** A `§` ending a line, where no `§` was already pending, changes nothing
      the line emits nor the format it passes on: the pending `§` is dropped
      because the next line starts with none pending. */
  lemma TrailingSectionDropped(st: TokState, line: string)
    requires !TokLine(st, line).state.isFmt
    ensures var a, b := TokLine(st, line), TokLine(st, line + [SECTION]);
      b.text == a.text && b.fmt == a.fmt && b.state == TokState(a.state.current, true)
  {
    TokLineSnoc(st, line, SECTION);
  }

  /** The tokenizer over two more characters. */
  lemma TokLineTwo(st: TokState, u: string, c1: char, c2: char)
    ensures TokLine(st, u + [c1, c2]) == TokExtend(TokExtend(TokLine(st, u), c1), c2)
  {
    TokLineSnoc(st, u, c1);
    assert u + [c1, c2] == (u + [c1]) + [c2];
    TokLineSnoc(st, u + [c1], c2);
  }

  /** A `§` with none pending emits nothing and sets one pending. */
  lemma SectionStep(lt: LineTokens)
    requires !lt.state.isFmt
    ensures TokExtend(lt, SECTION) == LineTokens(TokState(lt.state.current, true), lt.text, lt.fmt)
  {
  }

  /** `§§` emits one `§` in the format in force and leaves the state as it was. */
  lemma EscapedSection(st: TokState, u: string)
    requires !TokLine(st, u).state.isFmt
    ensures var a := TokLine(st, u);
      TokLine(st, u + [SECTION, SECTION]) == LineTokens(a.state, a.text + [[SECTION]], a.fmt + [a.state.current])
  {
    TokLineTwo(st, u, SECTION, SECTION);
    SectionStep(TokLine(st, u));
  }

  /** `§` and a character that is no code emit that character in the format
      in force; the `§` itself is swallowed. */
  lemma UnknownCode(st: TokState, u: string, ch: char)
    requires !TokLine(st, u).state.isFmt
    requires ch != SECTION && !IsFormatCode(ch)
    ensures var a := TokLine(st, u);
      TokLine(st, u + [SECTION, ch]) == LineTokens(a.state, a.text + [[ch]], a.fmt + [a.state.current])
  {
    TokLineTwo(st, u, SECTION, ch);
    SectionStep(TokLine(st, u));
  }

  /** A code after a pending `§` emits nothing and sets the format
      `CodeEffect` gives. */
  lemma CodeStep(lt: LineTokens, ch: char)
    requires lt.state.isFmt && IsFormatCode(ch)
    ensures TokExtend(lt, ch) == LineTokens(TokState(CodeEffect(lt.state.current, ch), false), lt.text, lt.fmt)
  {
  }

  /** `§` and a code emit nothing and set the format `CodeEffect` gives. */
  lemma FormatCode(st: TokState, u: string, ch: char)
    requires !TokLine(st, u).state.isFmt
    requires IsFormatCode(ch)
    ensures var a := TokLine(st, u);
      TokLine(st, u + [SECTION, ch]) == LineTokens(TokState(CodeEffect(a.state.current, ch), false), a.text, a.fmt)
  {
    TokLineTwo(st, u, SECTION, ch);
    var a := TokLine(st, u);
    SectionStep(a);
    CodeStep(TokExtend(a, SECTION), ch);
  }

  /** A line without `§` emits each of its characters in the format it
      starts with, which it passes on unchanged. */
  lemma {:induction false} PlainLine(cur: bv32, line: string)
    requires SECTION !in line
    ensures TokLine(TokState(cur, false), line) ==
      LineTokens(TokState(cur, false), seq(|line|, j requires 0 <= j < |line| => [line[j]]), seq(|line|, _ => cur))
    decreases |line|
  {
    if line != [] {
      var init := line[..|line| - 1];
      assert forall c :: c in init ==> c in line;
      PlainLine(cur, init);
      var lt := TokLine(TokState(cur, false), line);
      assert lt.text == seq(|line|, j requires 0 <= j < |line| => [line[j]]);
      assert lt.fmt == seq(|line|, _ => cur);
    }
  }

  /** The format in force at the end of one line is the format of the next:
      a line without `§` after some lines is drawn wholly in the format
      those lines left. */
  lemma LineInheritsFormat(cur: bv32, lines: seq<string>, line: string)
    requires SECTION !in line
    ensures var prev := SplitLines(cur, lines);
      var r := SplitLines(cur, lines + [line]);
      r.1 == prev.1 + [seq(|line|, _ => prev.2)] && r.2 == prev.2
  {
    assert (lines + [line])[..|lines|] == lines;
    PlainLine(SplitLines(cur, lines).2, line);
  }

  // ---------------------------------------------------------------------
  // Widths and layout

  /** Every glyph of a line can be made: its own page decodes, or, for the
      fallback to the space, the space's page does. */
  ghost predicate LineDrawable(pages: nat -> Font.PageFile, line: seq<string>) {
    forall j :: 0 <= j < |line| ==> Font.GlyphDefined(pages, line[j])
  }

  ghost predicate LinesDrawable(pages: nat -> Font.PageFile, lines: seq<seq<string>>) {
    forall i :: 0 <= i < |lines| ==> LineDrawable(pages, lines[i])
  }

  /** The pages can draw `text`: the loaded ones are 512 by 512, and every
      character the tokenizer emits has a glyph. The space's page is needed
      only by a character whose own page does not decode; format codes are
      never drawn and need no page. */
  ghost predicate Drawable(pages: nat -> Font.PageFile, text: string) {
    Font.PagesScaled(pages) && LinesDrawable(pages, SplitSpec(text).0)
  }

  /** Page files where page 0 does not decode and every other page is
      missing, and so blank. */
  function PageZeroBroken(g: nat): Font.PageFile {
    if g == 0 then Font.Unreadable else Font.Missing
  }

  /** The lines a text of one character other than `§` and `'\n'` emits:
      the character alone. */
  lemma OneCharLines(ch: char)
    requires ch != SECTION && ch != '\n'
    ensures SplitSpec([ch]).0 == [[[ch]]]
  {
    assert SplitOn([ch], '\n') == [[ch]];
    PlainLine(0, [ch]);
    var lt := TokLine(TokState(0, false), [ch]);
    assert lt.text == [[ch]];
    SplitLinesSnoc(0, [], [ch]);
    assert [] + [[ch]] == [[ch]];
  }

  /** A one-character text can be drawn when its character has a glyph. */
  lemma OneCharDrawable(pages: nat -> Font.PageFile, ch: char)
    requires Font.PagesScaled(pages) && ch != SECTION && ch != '\n'
    requires Font.GlyphDefined(pages, [ch])
    ensures Drawable(pages, [ch])
  {
    OneCharLines(ch);
  }

  /** Page 0 is needed only through the characters that use it: with page 0
      undecodable, the one-character text `中` (page 0x4E) can be drawn. */
  lemma OtherPageDrawable()
    ensures Drawable(PageZeroBroken, "\U{4E2D}")
  {
    var idx := Font.RuneToIdx("\U{4E2D}");
    assert idx.0 == 0x4E;
    assert !PageZeroBroken(idx.0).Unreadable?;
    OneCharDrawable(PageZeroBroken, '\U{4E2D}');
  }

  /** `a` lives on page 0, and its fallback, the space, does too: with page 0
      undecodable it cannot be drawn. */
  lemma PageZeroNeeded()
    ensures !Drawable(PageZeroBroken, "a")
  {
    OneCharLines('a');
    assert Font.RuneToIdx("a").0 == 0;
    var lines := SplitSpec("a").0;
    assert lines[0][0] == "a";
    assert !Font.GlyphDefined(PageZeroBroken, lines[0][0]);
    assert !LineDrawable(PageZeroBroken, lines[0]);
  }

  /** The glyph `get_font` gives a character in a format: the format without
      its colour decides the glyph. */
  ghost function GlyphOf(pages: nat -> Font.PageFile, rune: string, f: bv32): Font.Glyph
    requires Font.PagesScaled(pages) && Font.GlyphDefined(pages, rune)
  {
    Font.GlyphSpec(pages, rune, f & STYLE_BITS)
  }

  /** The widths of the glyphs of a line, one for each character that has a
      format. */
  ghost function GlyphWidths(pages: nat -> Font.PageFile, line: seq<string>, fmt: seq<bv32>): (ws: seq<int>)
    requires Font.PagesScaled(pages) && LineDrawable(pages, line)
    ensures |ws| == Min(|line|, |fmt|)
  {
    seq(Min(|line|, |fmt|), j requires 0 <= j < Min(|line|, |fmt|) => GlyphOf(pages, line[j], fmt[j]).mat.width)
  }

  /** The sum of the first n widths. */
  function Sum(ws: seq<int>, n: nat): int
    requires n <= |ws|
  {
    if n == 0 then 0 else Sum(ws, n - 1) + ws[n - 1]
  }

  /** The cursor before glyph i: every earlier glyph and one gap after each. */
  function Advance(ws: seq<int>, padding: int, i: nat): int
    requires i <= |ws|
  {
    if i == 0 then 0 else Advance(ws, padding, i - 1) + ws[i - 1] + padding
  }

  /** The width `get_line_width` gives a line: its glyphs, the italic
      allowance when the last glyph is italic, and one gap fewer than there
      are characters. */
  ghost function LineWidth(pages: nat -> Font.PageFile, padding: int, line: seq<string>, fmt: seq<bv32>): int
    requires Font.PagesScaled(pages) && LineDrawable(pages, line)
  {
    var ws := GlyphWidths(pages, line, fmt);
    Sum(ws, |ws|) + (if LastFormat(fmt, |ws|) & FMT_ITALIC != 0 then ITALIC_CHAR_HORIZON_PADDING else 0)
      + Max(|line| - 1, 0) * padding
  }

  /** The format of character n - 1, or zero for no character. */
  function LastFormat(fmt: seq<bv32>, n: nat): bv32
    requires n <= |fmt|
  {
    if n == 0 then 0 else fmt[n - 1]
  }

  /** A glyph drawn on the canvas: where, which, and in what colour. */
  datatype Placement = Placement(x: int, y: int, glyph: Font.Glyph, color: Color)

  /** The canvas `render` makes, with the glyphs it draws on it, line by line. */
  datatype Canvas = Canvas(width: nat, height: nat, placements: seq<seq<Placement>>)

  /** Glyph j of a line drawn at height y, the line's glyph widths being ws. */
  ghost function PlacementAt(pages: nat -> Font.PageFile, options: SimulateOptions, line: seq<string>, fmt: seq<bv32>,
                             ws: seq<int>, y: int, j: nat): Placement
    requires Font.PagesScaled(pages) && LineDrawable(pages, line) && j < |line| && j < |fmt| && j < |ws|
  {
    Placement(Advance(ws, options.fontHorizonPadding, j), y, GlyphOf(pages, line[j], fmt[j]), GetColor(options, fmt[j]))
  }

  /** The first i glyphs of a line drawn at height y. */
  ghost function Placements(pages: nat -> Font.PageFile, options: SimulateOptions, line: seq<string>, fmt: seq<bv32>,
                            ws: seq<int>, y: int, i: nat): seq<Placement>
    requires Font.PagesScaled(pages) && LineDrawable(pages, line) && i <= |line| && i <= |fmt| && i <= |ws|
  {
    if i == 0 then [] else Placements(pages, options, line, fmt, ws, y, i - 1) + [PlacementAt(pages, options, line, fmt, ws, y, i - 1)]
  }

  /** All glyphs of a line drawn at height y. */
  ghost function LinePlacements(pages: nat -> Font.PageFile, options: SimulateOptions, line: seq<string>, fmt: seq<bv32>, y: int): seq<Placement>
    requires Font.PagesScaled(pages) && LineDrawable(pages, line)
  {
    Placements(pages, options, line, fmt, GlyphWidths(pages, line, fmt), y, Min(|line|, |fmt|))
  }

  lemma {:induction false} PlacementsIndex(pages: nat -> Font.PageFile, options: SimulateOptions, line: seq<string>, fmt: seq<bv32>,
                                           ws: seq<int>, y: int, i: nat)
    requires Font.PagesScaled(pages) && LineDrawable(pages, line) && i <= |line| && i <= |fmt| && i <= |ws|
    ensures |Placements(pages, options, line, fmt, ws, y, i)| == i
    ensures forall j :: 0 <= j < i ==> Placements(pages, options, line, fmt, ws, y, i)[j] == PlacementAt(pages, options, line, fmt, ws, y, j)
    decreases i
  {
    if i > 0 {
      PlacementsIndex(pages, options, line, fmt, ws, y, i - 1);
    }
  }

  /** The width of every line. */
  ghost function LineWidths(pages: nat -> Font.PageFile, padding: int, lines: seq<seq<string>>, fmts: seq<seq<bv32>>): (r: seq<int>)
    requires Font.PagesScaled(pages) && LinesDrawable(pages, lines)
    ensures |r| == Min(|lines|, |fmts|)
  {
    seq(Min(|lines|, |fmts|), i requires 0 <= i < Min(|lines|, |fmts|) => LineWidth(pages, padding, lines[i], fmts[i]))
  }

  /** The largest of the first n numbers, folded from the first; zero for
      none (`max().unwrap_or(0)`). */
  function MaxOf(xs: seq<int>, n: nat): int
    requires n <= |xs|
  {
    if n == 0 then 0
    else if n == 1 then xs[0]
    else Max(MaxOf(xs, n - 1), xs[n - 1])
  }

  /** The canvas height of n lines: 31 rows per line and one line gap
      between two lines. */
  function CanvasHeight(n: nat, linePadding: nat): nat
    requires n >= 1
  {
    n * LINE_HEIGHT + (n - 1) * linePadding
  }

  /** The y at which line i is drawn: every earlier line and one line gap
      after each. */
  function LineTop(i: nat, linePadding: nat): nat {
    if i == 0 then 0 else LineTop(i - 1, linePadding) + LINE_HEIGHT + linePadding
  }

  /** `render`'s `line_i * (31 + line_padding)` is that sum. */
  lemma {:induction false} LineTopProduct(i: nat, linePadding: nat)
    ensures LineTop(i, linePadding) == i * (LINE_HEIGHT + linePadding)
    decreases i
  {
    if i > 0 {
      LineTopProduct(i - 1, linePadding);
      assert i * (LINE_HEIGHT + linePadding) == (i - 1) * (LINE_HEIGHT + linePadding) + LINE_HEIGHT + linePadding;
    }
  }

  /** Every line drawn lies within the canvas height. */
  lemma LineFits(i: nat, n: nat, linePadding: nat)
    requires i < n
    ensures LineTop(i, linePadding) + LINE_HEIGHT <= CanvasHeight(n, linePadding)
  {
    LineTopProduct(i, linePadding);
    MulMono(i, n - 1, LINE_HEIGHT + linePadding);
    assert (n - 1) * (LINE_HEIGHT + linePadding) == (n - 1) * LINE_HEIGHT + (n - 1) * linePadding;
  }

  /** With no negative width and no negative gap, glyph j ends no further
      right than all n glyphs and their n - 1 gaps, and starts at or right
      of zero. */
  lemma {:induction false} AdvanceBound(ws: seq<int>, padding: int, j: nat, n: nat)
    requires j < n <= |ws| && padding >= 0
    requires forall k :: 0 <= k < |ws| ==> ws[k] >= 0
    ensures 0 <= Advance(ws, padding, j)
    ensures Advance(ws, padding, j) + ws[j] <= Sum(ws, n) + (n - 1) * padding
    decreases n
  {
    if j < n - 1 {
      AdvanceBound(ws, padding, j, n - 1);
      assert (n - 1) * padding == (n - 2) * padding + padding;
    } else if j > 0 {
      AdvanceBound(ws, padding, j - 1, j);
      assert j * padding == (j - 1) * padding + padding;
    }
  }

  lemma {:induction false} SumNonNegative(ws: seq<int>, n: nat)
    requires n <= |ws|
    requires forall k :: 0 <= k < |ws| ==> ws[k] >= 0
    ensures Sum(ws, n) >= 0
    decreases n
  {
    if n > 0 {
      SumNonNegative(ws, n - 1);
    }
  }

  /** The fold is the maximum: no earlier number is larger, and it is one
      of them. */
  lemma {:induction false} MaxOfIsMax(xs: seq<int>, n: nat)
    requires 1 <= n <= |xs|
    ensures forall i :: 0 <= i < n ==> xs[i] <= MaxOf(xs, n)
    ensures exists k :: 0 <= k < n && xs[k] == MaxOf(xs, n)
    decreases n
  {
    if n > 1 {
      MaxOfIsMax(xs, n - 1);
      var k :| 0 <= k < n - 1 && xs[k] == MaxOf(xs, n - 1);
      if xs[n - 1] <= MaxOf(xs, n - 1) {
        assert xs[k] == MaxOf(xs, n);
      } else {
        assert xs[n - 1] == MaxOf(xs, n);
      }
    } else {
      assert xs[0] == MaxOf(xs, n);
    }
  }

  /** A glyph is never wider than a cell and the two bold columns, nor
      narrower than nothing. */
  lemma WidthsInCell(pages: nat -> Font.PageFile, line: seq<string>, fmt: seq<bv32>)
    requires Font.PagesScaled(pages) && LineDrawable(pages, line)
    ensures var ws := GlyphWidths(pages, line, fmt);
      forall k :: 0 <= k < |ws| ==> 0 <= ws[k] <= Font.CELL_SIZE + 2 && GlyphOf(pages, line[k], fmt[k]).mat.height == LINE_HEIGHT
  {
    var ws := GlyphWidths(pages, line, fmt);
    forall k | 0 <= k < |ws|
      ensures 0 <= ws[k] <= Font.CELL_SIZE + 2 && GlyphOf(pages, line[k], fmt[k]).mat.height == LINE_HEIGHT
    {
      Font.GlyphShape(pages, line[k], fmt[k] & STYLE_BITS);
    }
  }

  lemma LineWidthNonNegative(pages: nat -> Font.PageFile, padding: int, line: seq<string>, fmt: seq<bv32>)
    requires Font.PagesScaled(pages) && LineDrawable(pages, line) && padding >= 0
    ensures LineWidth(pages, padding, line, fmt) >= 0
  {
    var ws := GlyphWidths(pages, line, fmt);
    WidthsInCell(pages, line, fmt);
    SumNonNegative(ws, |ws|);
    assert Max(|line| - 1, 0) * padding >= 0;
  }

  /** The glyphs of line i, drawn at its top. */
  ghost function LineRow(pages: nat -> Font.PageFile, options: SimulateOptions, lines: seq<seq<string>>, fmts: seq<seq<bv32>>, i: nat): seq<Placement>
    requires Font.PagesScaled(pages) && LinesDrawable(pages, lines) && options.linePadding >= 0 && i < |lines| && i < |fmts|
  {
    LinePlacements(pages, options, lines[i], fmts[i], LineTop(i, options.linePadding))
  }

  /** One more line's glyphs after the rows of the lines before it. */
  lemma RowsExtend(pages: nat -> Font.PageFile, options: SimulateOptions, lines: seq<seq<string>>, fmts: seq<seq<bv32>>,
                   rows: seq<seq<Placement>>, row: seq<Placement>)
    requires Font.PagesScaled(pages) && LinesDrawable(pages, lines) && options.linePadding >= 0 && |rows| < |lines| && |rows| < |fmts|
    requires forall i :: 0 <= i < |rows| ==> rows[i] == LineRow(pages, options, lines, fmts, i)
    requires row == LineRow(pages, options, lines, fmts, |rows|)
    ensures forall i :: 0 <= i <= |rows| ==> (rows + [row])[i] == LineRow(pages, options, lines, fmts, i)
  {
    forall i | 0 <= i <= |rows|
      ensures (rows + [row])[i] == LineRow(pages, options, lines, fmts, i)
    {
      if i < |rows| {
        assert (rows + [row])[i] == rows[i];
      }
    }
  }

  /** With no negative gap, the widest of one or more lines has no
      negative width. */
  lemma WidestNonNegative(pages: nat -> Font.PageFile, padding: int, lines: seq<seq<string>>, fmts: seq<seq<bv32>>)
    requires Font.PagesScaled(pages) && LinesDrawable(pages, lines) && padding >= 0 && |lines| == |fmts| >= 1
    ensures var widths := LineWidths(pages, padding, lines, fmts); MaxOf(widths, |widths|) >= 0
  {
    var widths := LineWidths(pages, padding, lines, fmts);
    LineWidthNonNegative(pages, padding, lines[0], fmts[0]);
    assert widths[0] == LineWidth(pages, padding, lines[0], fmts[0]);
    MaxOfIsMax(widths, |widths|);
  }

  /** `render` without its caches: the canvas as wide as the widest line
      and as high as its lines, and where each glyph is drawn. */
  ghost function RenderSpec(pages: nat -> Font.PageFile, options: SimulateOptions, text: string): Canvas
    requires Drawable(pages, text)
    requires options.fontHorizonPadding >= 0 && options.linePadding >= 0
  {
    var (lines, fmts) := SplitSpec(text);
    SplitShape(text);
    var widths := LineWidths(pages, options.fontHorizonPadding, lines, fmts);
    WidestNonNegative(pages, options.fontHorizonPadding, lines, fmts);
    Canvas(MaxOf(widths, |widths|),
           CanvasHeight(|lines|, options.linePadding),
           seq(|lines|, i requires 0 <= i < |lines| => LineRow(pages, options, lines, fmts, i)))
  }

  /** A glyph of a line ends within the line's width and within the height
      of the canvas. */
  lemma GlyphInLine(pages: nat -> Font.PageFile, options: SimulateOptions, line: seq<string>, fmt: seq<bv32>, y: int, j: nat)
    requires Font.PagesScaled(pages) && LineDrawable(pages, line) && options.fontHorizonPadding >= 0
    requires j < |line| && j < |fmt|
    ensures var p := PlacementAt(pages, options, line, fmt, GlyphWidths(pages, line, fmt), y, j);
      0 <= p.x && p.x + p.glyph.mat.width <= LineWidth(pages, options.fontHorizonPadding, line, fmt) &&
      p.y == y && p.glyph.mat.height == LINE_HEIGHT
  {
    var pad := options.fontHorizonPadding;
    var ws := GlyphWidths(pages, line, fmt);
    var n := |ws|;
    WidthsInCell(pages, line, fmt);
    AdvanceBound(ws, pad, j, n);
    MulMono(n - 1, Max(|line| - 1, 0), pad);
  }

  /** Every glyph `render` draws lies wholly on the canvas: nothing is cut
      off at the right or the bottom. */
  lemma GlyphsInsideCanvas(pages: nat -> Font.PageFile, options: SimulateOptions, text: string)
    requires Drawable(pages, text)
    requires options.fontHorizonPadding >= 0 && options.linePadding >= 0
    ensures var c := RenderSpec(pages, options, text);
      forall i, j :: 0 <= i < |c.placements| && 0 <= j < |c.placements[i]| ==>
        var p := c.placements[i][j];
        0 <= p.x && p.x + p.glyph.mat.width <= c.width && 0 <= p.y && p.y + p.glyph.mat.height <= c.height
  {
    var c := RenderSpec(pages, options, text);
    var (lines, fmts) := SplitSpec(text);
    SplitShape(text);
    var widths := LineWidths(pages, options.fontHorizonPadding, lines, fmts);
    MaxOfIsMax(widths, |widths|);
    forall i, j | 0 <= i < |c.placements| && 0 <= j < |c.placements[i]|
      ensures var p := c.placements[i][j];
        0 <= p.x && p.x + p.glyph.mat.width <= c.width && 0 <= p.y && p.y + p.glyph.mat.height <= c.height
    {
      var y := LineTop(i, options.linePadding);
      var n := Min(|lines[i]|, |fmts[i]|);
      assert c.placements[i] == LineRow(pages, options, lines, fmts, i);
      PlacementsIndex(pages, options, lines[i], fmts[i], GlyphWidths(pages, lines[i], fmts[i]), y, n);
      GlyphInLine(pages, options, lines[i], fmts[i], y, j);
      assert widths[i] == LineWidth(pages, options.fontHorizonPadding, lines[i], fmts[i]);
      LineFits(i, |lines|, options.linePadding);
    }
  }

  /** `TellRawSimulator`: the glyph store and the options. */
  class TellRawSimulator {
    const font: Font.RuneFont
    const options: SimulateOptions

    /** The caches are consistent with the pages. */
    ghost predicate Valid()
      reads this, font
    {
      font.Valid()
    }

    constructor (font: Font.RuneFont, options: SimulateOptions)
      requires font.Valid()
      ensures Valid() && this.font == font && this.options == options
    {
      this.font := font;
      this.options := options;
    }

    /** The glyph of character i of a line, from the store. */
    method GlyphAt(line: seq<string>, fmt: seq<bv32>, i: nat) returns (glyph: Font.Glyph)
      requires Valid() && LineDrawable(font.pages, line) && i < |line| && i < |fmt|
      modifies font
      ensures Valid() && glyph == GlyphOf(font.pages, line[i], fmt[i])
    {
      glyph := font.GetFont(line[i], fmt[i] & STYLE_BITS);
    }

    /** The loop of `get_line_width`: the glyph widths summed, and the
        format of the last glyph looked up. */
    method SumWidths(line: seq<string>, fmt: seq<bv32>) returns (total: int, lastFmt: bv32)
      requires Valid() && LineDrawable(font.pages, line)
      modifies font
      ensures Valid()
      ensures total == Sum(GlyphWidths(font.pages, line, fmt), Min(|line|, |fmt|))
      ensures lastFmt == LastFormat(fmt, Min(|line|, |fmt|))
    {
      ghost var ws := GlyphWidths(font.pages, line, fmt);
      total := 0;
      lastFmt := 0;
      for i := 0 to Min(|line|, |fmt|)
        invariant font.Valid()
        invariant total == Sum(ws, i)
        invariant lastFmt == LastFormat(fmt, i)
      {
        total := AddWidth(line, fmt, ws, i, total);
        lastFmt := fmt[i];
      }
    }

    /** One step of the sum: the width of glyph i added. */
    method AddWidth(line: seq<string>, fmt: seq<bv32>, ghost ws: seq<int>, i: nat, total0: int) returns (total: int)
      requires Valid() && LineDrawable(font.pages, line) && i < |line| && i < |fmt| && ws == GlyphWidths(font.pages, line, fmt)
      requires total0 == Sum(ws, i)
      modifies font
      ensures Valid() && total == Sum(ws, i + 1)
    {
      var glyph := GlyphAt(line, fmt, i);
      assert ws[i] == glyph.mat.width;
      total := total0 + glyph.mat.width;
    }

    /** `get_line_width`. */
    method GetLineWidth(line: seq<string>, fmt: seq<bv32>) returns (width: int)
      requires Valid() && LineDrawable(font.pages, line)
      modifies font
      ensures Valid() && width == LineWidth(font.pages, options.fontHorizonPadding, line, fmt)
    {
      var total, lastFmt := SumWidths(line, fmt);
      if lastFmt & FMT_ITALIC != 0 {
        total := total + ITALIC_CHAR_HORIZON_PADDING;
      }
      width := total + Max(|line| - 1, 0) * options.fontHorizonPadding;
    }

    /** The cursor loop of `render` for one line: each glyph at the cursor,
        the cursor then moved past it and one gap. */
    method PlaceLine(line: seq<string>, fmt: seq<bv32>, startY: int) returns (row: seq<Placement>)
      requires Valid() && LineDrawable(font.pages, line)
      modifies font
      ensures Valid() && row == LinePlacements(font.pages, options, line, fmt, startY)
    {
      ghost var ws := GlyphWidths(font.pages, line, fmt);
      var startX := 0;
      row := [];
      for i := 0 to Min(|line|, |fmt|)
        invariant font.Valid()
        invariant startX == Advance(ws, options.fontHorizonPadding, i)
        invariant row == Placements(font.pages, options, line, fmt, ws, startY, i)
      {
        row, startX := PlaceGlyph(line, fmt, ws, i, startX, startY, row);
      }
    }

    /** One step of the cursor loop: glyph i drawn at the cursor. */
    method PlaceGlyph(line: seq<string>, fmt: seq<bv32>, ghost ws: seq<int>, i: nat, startX: int, startY: int,
                      row0: seq<Placement>) returns (row: seq<Placement>, nextX: int)
      requires Valid() && LineDrawable(font.pages, line) && i < |line| && i < |fmt| && ws == GlyphWidths(font.pages, line, fmt)
      requires startX == Advance(ws, options.fontHorizonPadding, i)
      requires row0 == Placements(font.pages, options, line, fmt, ws, startY, i)
      modifies font
      ensures Valid()
      ensures nextX == Advance(ws, options.fontHorizonPadding, i + 1)
      ensures row == Placements(font.pages, options, line, fmt, ws, startY, i + 1)
    {
      var patch := GlyphAt(line, fmt, i);
      assert ws[i] == patch.mat.width;
      row := row0 + [Placement(startX, startY, patch, GetColor(options, fmt[i]))];
      nextX := startX + patch.mat.width + options.fontHorizonPadding;
    }

    /** The widths computed by `render`: the widest line's, with the
        maximum over the lines folded from the first. */
    method MeasureLines(lines: seq<seq<string>>, fmts: seq<seq<bv32>>) returns (maxWidth: int)
      requires Valid() && LinesDrawable(font.pages, lines) && |lines| == |fmts|
      modifies font
      ensures Valid() && maxWidth == MaxOf(LineWidths(font.pages, options.fontHorizonPadding, lines, fmts), |lines|)
    {
      ghost var widths := LineWidths(font.pages, options.fontHorizonPadding, lines, fmts);
      maxWidth := 0;
      for i := 0 to |lines|
        invariant font.Valid()
        invariant maxWidth == MaxOf(widths, i)
      {
        maxWidth := Widen(lines, fmts, widths, i, maxWidth);
      }
    }

    /** One step of the maximum: line i measured and compared. */
    method Widen(lines: seq<seq<string>>, fmts: seq<seq<bv32>>, ghost widths: seq<int>, i: nat, maxWidth0: int) returns (maxWidth: int)
      requires Valid() && LinesDrawable(font.pages, lines) && i < |lines| == |fmts| && widths == LineWidths(font.pages, options.fontHorizonPadding, lines, fmts)
      requires maxWidth0 == MaxOf(widths, i)
      modifies font
      ensures Valid() && maxWidth == MaxOf(widths, i + 1)
    {
      var w := GetLineWidth(lines[i], fmts[i]);
      maxWidth := if i == 0 then w else Max(maxWidth0, w);
    }

    /** The line loop of `render`: each line's glyphs drawn at its top. */
    method PlaceLines(lines: seq<seq<string>>, fmts: seq<seq<bv32>>) returns (placements: seq<seq<Placement>>)
      requires Valid() && LinesDrawable(font.pages, lines) && |lines| == |fmts| && options.linePadding >= 0
      modifies font
      ensures Valid() && |placements| == |lines|
      ensures forall i :: 0 <= i < |lines| ==> placements[i] == LineRow(font.pages, options, lines, fmts, i)
    {
      placements := [];
      for li := 0 to |lines|
        invariant font.Valid() && |placements| == li
        invariant forall i :: 0 <= i < li ==> placements[i] == LineRow(font.pages, options, lines, fmts, i)
      {
        var startY := li * (LINE_HEIGHT + options.linePadding);
        LineTopProduct(li, options.linePadding);
        var row := PlaceLine(lines[li], fmts[li], startY);
        RowsExtend(font.pages, options, lines, fmts, placements, row);
        placements := placements + [row];
      }
    }

    /** `render`, with drawing replaced by the list of glyphs drawn. */
    method Render(text: string) returns (canvas: Canvas)
      requires Valid() && Drawable(font.pages, text) && options.fontHorizonPadding >= 0 && options.linePadding >= 0
      modifies font
      ensures Valid() && canvas == RenderSpec(font.pages, options, text)
    {
      var lines, fmts := SplitFormatAndText(text);
      SplitShape(text);
      var maxWidth := MeasureLines(lines, fmts);
      WidestNonNegative(font.pages, options.fontHorizonPadding, lines, fmts);
      var height := CanvasHeight(|lines|, options.linePadding);
      var placements := PlaceLines(lines, fmts);
      canvas := Canvas(maxWidth, height, placements);
    }
  }

  /** The `render` function: a simulator over a fresh glyph store, with the
      default options unless others are given. */
  method RenderText(pages: nat -> Font.PageFile, text: string, options: Option<SimulateOptions>) returns (canvas: Canvas)
    requires Drawable(pages, text)
    requires options.Some? ==> options.value.fontHorizonPadding >= 0 && options.value.linePadding >= 0
    ensures canvas == RenderSpec(pages, if options.Some? then options.value else DEFAULT_OPTIONS, text)
  {
    var font := new Font.RuneFont(pages);
    var simulator := new TellRawSimulator(font, if options.Some? then options.value else DEFAULT_OPTIONS);
    canvas := simulator.Render(text);
  }
}
