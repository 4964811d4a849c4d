/** The per-codepoint pixel width table of the game font. */
module FontWidthTable {

  /** Measured width of the ASCII code `i`. */
  function AsciiWidth(i: int): (w: int)
    requires 0 <= i < 128
  {
    if 48 <= i <= 57 || 65 <= i <= 90 || 97 <= i <= 122 then 6
    else match i
      case 32 => 4
      case 33 => 2
      case 34 => 5
      case 35 => 6
      case 36 => 6
      case 37 => 6
      case 38 => 6
      case 39 => 2
      case 40 => 4
      case 41 => 4
      case 42 => 5
      case 43 => 6
      case 44 => 2
      case 45 => 6
      case 46 => 2
      case 47 => 6
      case 58 => 2
      case 59 => 2
      case 60 => 5
      case 61 => 6
      case 62 => 5
      case 63 => 6
      case 64 => 7
      case 91 => 4
      case 92 => 6
      case 93 => 4
      case 94 => 6
      case 95 => 6
      case 96 => 3
      case 123 => 4
      case 124 => 2
      case 125 => 4
      case 126 => 7
      case _ => 6
  }

  /** The width `FontWidths::get_width` gives a codepoint: the table for
      ASCII, 6 for everything else. */
  function Width(code: nat): (w: int)
    ensures 2 <= w <= 7
    ensures code >= 128 ==> w == 6
    ensures (code < 32 || code == 127) ==> w == 6
  {
    if code < 128 then AsciiWidth(code) else 6
  }

  /** The widths of the characters the rest of the model names. */
  lemma NamedWidths()
    ensures Width(' ' as int) == 4
    ensures forall c :: c in "!',.:;|" ==> Width(c as int) == 2
    ensures Width('@' as int) == 7 && Width('~' as int) == 7
    ensures forall n: nat :: ('0' as int <= n <= '9' as int || 'A' as int <= n <= 'Z' as int
                            || 'a' as int <= n <= 'z' as int) ==> Width(n) == 6
  {
  }

  /** The table object of the source: a map filled once for the codes 0..127. */
  class FontWidths {
    var widths: map<nat, int>

    ghost predicate Valid()
      reads this
    {
      widths == map i: nat | i < 128 :: AsciiWidth(i)
    }

    constructor ()
      ensures Valid()
    {
      var table: map<nat, int> := map[];
      var i: nat := 0;
      while i < 128
        invariant i <= 128
        invariant table == map j: nat | j < i :: AsciiWidth(j)
      {
        table := table[i := AsciiWidth(i)];
        i := i + 1;
      }
      widths := table;
    }

    /** Lookup with the default 6 for codes outside the table. */
    function GetWidth(code: nat): (w: int)
      reads this
      requires Valid()
      ensures w == Width(code)
    {
      if code in widths then widths[code] else 6
    }
  }
}
