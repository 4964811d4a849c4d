/** Exact padding of several lines to one width, and the `(padN)` template
    engine that pads the fields of a multi-line text column by column. */
module Pad {
  import opened Base
  import opened Text
  import opened Define
  import Utils
  import Align
  import FontWidthTable

  // ---------------------------------------------------------------------
  // check_same_parity and resolve
  // ---------------------------------------------------------------------

  /** Every value of `c` has low bit `p` (`ci & 1` is `ci % 2` on two's
      complement integers, for either sign). */
  function AllParity(c: seq<int>, p: int): (r: bool)
    ensures r <==> forall i :: 0 <= i < |c| ==> c[i] % 2 == p
  {
    c == [] || (c[0] % 2 == p && AllParity(c[1..], p))
  }

  /** `check_same_parity`: true on no values, else true iff all values
      share the low bit of the first. */
  function CheckSameParity(c: seq<int>): (r: bool)
    ensures r <==> forall i, j :: 0 <= i < |c| && 0 <= j < |c| ==> c[i] % 2 == c[j] % 2
  {
    c == [] || AllParity(c, c[0] % 2)
  }

  /** The largest value. */
  function MaxOf(c: seq<int>): (m: int)
    requires c != []
    ensures forall i :: 0 <= i < |c| ==> c[i] <= m
    ensures exists i :: 0 <= i < |c| && c[i] == m
  {
    if |c| == 1 then c[0]
    else
      var rest := MaxOf(c[1..]);
      assert forall i :: 1 <= i < |c| ==> c[i] == c[1..][i - 1];
      Max(c[0], rest)
  }

  /** The drawn width of `"§l "`, one bold space. */
  function BoldSpaceWidth(): int
  {
    Align.LineWidth([SECTION, 'l', ' '])
  }

  lemma BoldSpaceWidthValue()
    ensures BoldSpaceWidth() == 4 + BOLD_PAD
  {
    Align.BoldLineWidth([' ']);
    Align.PlainLineWidth([' ']);
    FontWidthTable.NamedWidths();
    assert [SECTION, 'l'] + [' '] == [SECTION, 'l', ' '];
    assert [' '][..0] == [];
  }

  /** The exact solver for one room `d`: plain and bold space counts. */
  function SolveRoom(d: int): Option<(int, int)>
  {
    HalvesNonZero();
    Utils.SolveXY(CHAR_HORIZON_PADDING, BoldSpaceWidth() + CHAR_HORIZON_PADDING, d)
  }

  lemma HalvesNonZero()
    ensures RustDiv(CHAR_HORIZON_PADDING, 2) == HALF_GAP >= 1
    ensures RustDiv(BoldSpaceWidth() + CHAR_HORIZON_PADDING, 2) > HALF_GAP
  {
    BoldSpaceWidthValue();
  }

  /** Half the glyph gap, as the solver halves it. */
  const HALF_GAP: int := CHAR_HORIZON_PADDING / 2

  /** From this room on, every room of even size has an exact solution. */
  const LARGE_ROOM: int := 2 * (HALF_GAP * HALF_GAP)

  /** A room solver of the kind `resolve` uses: every even room of at least
      `2 * HALF_GAP^2` has a solution. */
  ghost predicate LargeRoomsSolvable(solve: int -> Option<(int, int)>)
  {
    forall d :: d >= LARGE_ROOM && d % 2 == 0 ==> solve(d).Some?
  }

  /** The exact solver of `pad` is such a solver. */
  lemma SolveRoomSolvesLargeRooms()
    ensures LargeRoomsSolvable(SolveRoom)
  {
    HalvesNonZero();
    forall d | d >= LARGE_ROOM && d % 2 == 0 ensures SolveRoom(d).Some? {
      Utils.SolveXYLargeTarget(CHAR_HORIZON_PADDING, BoldSpaceWidth() + CHAR_HORIZON_PADDING, d);
    }
  }

  /** One attempt of `resolve` at the common width `w`: the solutions for
      every `w - c[i]`, or `None` at the first room without one. */
  function TryWidth(solve: int -> Option<(int, int)>, c: seq<int>, w: int): Option<seq<(int, int)>>
  {
    if c == [] then Some([])
    else match TryWidth(solve, c[..|c| - 1], w)
      case None => None
      case Some(res) =>
        match solve(w - c[|c| - 1])
        case None => None
        case Some(p) => Some(res + [p])
  }

  lemma {:induction false} TryWidthCorrect(solve: int -> Option<(int, int)>, c: seq<int>, w: int)
    ensures TryWidth(solve, c, w).Some? <==> forall i :: 0 <= i < |c| ==> solve(w - c[i]).Some?
    ensures TryWidth(solve, c, w).Some? ==>
      var res := TryWidth(solve, c, w).value;
      |res| == |c| && forall i :: 0 <= i < |c| ==> Some(res[i]) == solve(w - c[i])
  {
    if c != [] {
      var init := c[..|c| - 1];
      TryWidthCorrect(solve, init, w);
      assert forall i :: 0 <= i < |init| ==> init[i] == c[i];
    }
  }

  /** One more room extends a successful attempt by its solution, or fails. */
  lemma TryWidthSnoc(solve: int -> Option<(int, int)>, c: seq<int>, i: nat, w: int, res: seq<(int, int)>)
    requires i < |c| && TryWidth(solve, c[..i], w) == Some(res)
    ensures TryWidth(solve, c[..i + 1], w) == if solve(w - c[i]).Some? then Some(res + [solve(w - c[i]).value]) else None
  {
    assert c[..i + 1][..i] == c[..i];
  }

  /** Once every room is large enough, the attempt succeeds. */
  lemma LargeWidthSucceeds(solve: int -> Option<(int, int)>, c: seq<int>, w: int)
    requires LargeRoomsSolvable(solve)
    requires c != [] && w - MaxOf(c) >= LARGE_ROOM
    requires EvenRooms(c, w)
    ensures TryWidth(solve, c, w).Some?
  {
    TryWidthCorrect(solve, c, w);
  }

  /** The bound below which `resolve` keeps raising the width. */
  function WidthBound(c: seq<int>): int
    requires c != []
  {
    MaxOf(c) + LARGE_ROOM
  }

  /** The retry loop of `resolve` from width `w`: raise by 2 until every
      room is solvable; returns the width and the solutions. */
  function ResolveFrom(solve: int -> Option<(int, int)>, c: seq<int>, w: int): (int, seq<(int, int)>)
    requires LargeRoomsSolvable(solve)
    requires c != [] && w >= MaxOf(c)
    requires EvenRooms(c, w)
    decreases WidthBound(c) - w
  {
    match TryWidth(solve, c, w)
    case Some(res) => (w, res)
    case None =>
      if w - MaxOf(c) >= LARGE_ROOM then
        LargeWidthSucceeds(solve, c, w);
        assert false;
        (w, [])
      else
        EvenRoomsShift(c, w);
        ResolveFrom(solve, c, w + 2)
  }

  /** Every room `w - c[i]` is even. */
  predicate EvenRooms(c: seq<int>, w: int)
  {
    forall i :: 0 <= i < |c| ==> (w - c[i]) % 2 == 0
  }

  /** Raising the width by two keeps every room even. */
  lemma EvenRoomsShift(c: seq<int>, w: int)
    requires EvenRooms(c, w)
    ensures EvenRooms(c, w + 2)
  {
    forall i | 0 <= i < |c| ensures (w + 2 - c[i]) % 2 == 0 {
      var d := w - c[i];
      assert d % 2 == 0;
      assert d == 2 * (d / 2);
      assert w + 2 - c[i] == 2 * (d / 2 + 1);
    }
  }

  lemma {:induction false} ResolveFromCorrect(solve: int -> Option<(int, int)>, c: seq<int>, w: int)
    requires LargeRoomsSolvable(solve)
    requires c != [] && w >= MaxOf(c)
    requires EvenRooms(c, w)
    ensures var (W, res) := ResolveFrom(solve, c, w);
            && w <= W && (W - w) % 2 == 0
            && TryWidth(solve, c, W) == Some(res)
            && forall w' :: w <= w' < W && (w' - w) % 2 == 0 ==> TryWidth(solve, c, w').None?
    decreases WidthBound(c) - w
  {
    if TryWidth(solve, c, w).None? {
      ResolveFromRetries(solve, c, w);
      ResolveFromCorrect(solve, c, w + 2);
      NoneBelowShift(solve, c, w, ResolveFrom(solve, c, w + 2).0);
    }
  }

  /** A width that works is where `resolve` stops. */
  lemma ResolveFromHit(solve: int -> Option<(int, int)>, c: seq<int>, w: int)
    requires LargeRoomsSolvable(solve)
    requires c != [] && w >= MaxOf(c)
    requires EvenRooms(c, w)
    requires TryWidth(solve, c, w).Some?
    ensures ResolveFrom(solve, c, w) == (w, TryWidth(solve, c, w).value)
  {
  }

  /** A width that fails is below the bound, and `resolve` goes on at `w + 2`. */
  lemma ResolveFromRetries(solve: int -> Option<(int, int)>, c: seq<int>, w: int)
    requires LargeRoomsSolvable(solve)
    requires c != [] && w >= MaxOf(c)
    requires EvenRooms(c, w)
    requires TryWidth(solve, c, w).None?
    ensures 0 <= WidthBound(c) - (w + 2) < WidthBound(c) - w
    ensures w + 2 >= MaxOf(c) && EvenRooms(c, w + 2)
    ensures ResolveFrom(solve, c, w) == ResolveFrom(solve, c, w + 2)
  {
    if w - MaxOf(c) >= LARGE_ROOM {
      LargeWidthSucceeds(solve, c, w);
      assert false;
    }
    EvenRoomsShift(c, w);
    var i :| 0 <= i < |c| && c[i] == MaxOf(c);
    assert (w - c[i]) % 2 == 0;
    EvenBelowEven(w - MaxOf(c), LARGE_ROOM);
  }

  /** An even number below an even bound is at least two below it. */
  lemma EvenBelowEven(d: int, bound: int)
    requires d % 2 == 0 && bound % 2 == 0 && d < bound
    ensures d + 2 <= bound
  {
  }

  /** A failed width `w` extends the failures from `w + 2` on down to `w`. */
  lemma NoneBelowShift(solve: int -> Option<(int, int)>, c: seq<int>, w: int, W: int)
    requires TryWidth(solve, c, w).None?
    requires w + 2 <= W && (W - (w + 2)) % 2 == 0
    requires forall w' :: w + 2 <= w' < W && (w' - (w + 2)) % 2 == 0 ==> TryWidth(solve, c, w').None?
    ensures w <= W && (W - w) % 2 == 0
    ensures forall w' :: w <= w' < W && (w' - w) % 2 == 0 ==> TryWidth(solve, c, w').None?
  {
    EvenShiftUp(W - (w + 2));
    forall w' | w <= w' < W && (w' - w) % 2 == 0
      ensures TryWidth(solve, c, w').None?
    {
      if w' != w {
        EvenShiftDown(w' - w);
      }
    }
  }

  lemma EvenShiftDown(d: int)
    requires d > 0 && d % 2 == 0
    ensures d >= 2 && (d - 2) % 2 == 0
  {
  }

  lemma EvenShiftUp(d: int)
    requires d % 2 == 0
    ensures (d + 2) % 2 == 0
  {
  }

  /** The first width `resolve` tries: the largest value, raised by one
      when its parity differs from that of the first value. */
  function StartWidth(c: seq<int>): int
    requires c != []
  {
    var m := MaxOf(c);
    if m % 2 != c[0] % 2 then m + 1 else m
  }

  /** `resolve(c)` with the room solver `solve`. */
  function ResolveWith(solve: int -> Option<(int, int)>, c: seq<int>): Option<seq<(int, int)>>
    requires LargeRoomsSolvable(solve)
  {
    if c == [] then None
    else if !CheckSameParity(c) then None
    else
      StartWidthEven(c);
      Some(ResolveFrom(solve, c, StartWidth(c)).1)
  }

  /** `resolve(c)`. */
  function ResolveSpec(c: seq<int>): Option<seq<(int, int)>>
  {
    SolveRoomSolvesLargeRooms();
    ResolveWith(SolveRoom, c)
  }

  /** `resolve(c)`, as the source runs it. */
  method Resolve(c: seq<int>) returns (r: Option<seq<(int, int)>>)
    ensures r == ResolveSpec(c)
  {
    SolveRoomSolvesLargeRooms();
    r := ResolveLoop(SolveRoom, c);
  }

  /** The loops of `resolve` with the room solver `solve`: a retry loop over
      the width with an inner loop that stops at the first room without a
      solution. */
  method ResolveLoop(solve: int -> Option<(int, int)>, c: seq<int>) returns (r: Option<seq<(int, int)>>)
    requires LargeRoomsSolvable(solve)
    ensures r == ResolveWith(solve, c)
  {
    if |c| == 0 {
      return None;
    }
    if !CheckSameParity(c) {
      return None;
    }
    var parity := c[0] % 2;
    var width := MaxOf(c);
    if width % 2 != parity {
      width := width + 1;
    }
    assert width == StartWidth(c);
    StartWidthEven(c);
    var res := Retry(solve, c, width);
    return Some(res);
  }

  /** The outer loop of `resolve`: try widths upwards in steps of two until
      every room has a solution. */
  method Retry(solve: int -> Option<(int, int)>, c: seq<int>, start: int) returns (res: seq<(int, int)>)
    requires LargeRoomsSolvable(solve) && c != []
    requires start >= MaxOf(c) && EvenRooms(c, start)
    ensures res == ResolveFrom(solve, c, start).1
  {
    var width := start;
    while true
      invariant width >= MaxOf(c) && EvenRooms(c, width)
      invariant ResolveFrom(solve, c, width) == ResolveFrom(solve, c, start)
      decreases WidthBound(c) - width
    {
      var attempt := Attempt(solve, c, width);
      if attempt.Some? {
        ResolveFromHit(solve, c, width);
        return attempt.value;
      }
      ResolveFromRetries(solve, c, width);
      width := width + 2;
    }
  }

  /** The inner loop of `resolve`: solve the rooms in order at one width,
      stopping at the first room without a solution. */
  method Attempt(solve: int -> Option<(int, int)>, c: seq<int>, width: int) returns (r: Option<seq<(int, int)>>)
    ensures r == TryWidth(solve, c, width)
  {
    var res: seq<(int, int)> := [];
    for i := 0 to |c|
      invariant TryWidth(solve, c[..i], width) == Some(res)
    {
      TryWidthSnoc(solve, c, i, width, res);
      var sol := solve(width - c[i]);
      if sol.None? {
        TryWidthPrefixFails(solve, c, i + 1, width);
        return None;
      }
      res := res + [sol.value];
    }
    assert c[..|c|] == c;
    return Some(res);
  }

  lemma {:induction false} TryWidthPrefixFails(solve: int -> Option<(int, int)>, c: seq<int>, n: nat, w: int)
    requires n <= |c| && TryWidth(solve, c[..n], w).None?
    ensures TryWidth(solve, c, w).None?
    decreases |c| - n
  {
    if n < |c| {
      assert c[..n + 1][..n] == c[..n];
      TryWidthPrefixFails(solve, c, n + 1, w);
    } else {
      assert c[..n] == c;
    }
  }

  /** `W` is the smallest width of the values' parity, from the largest
      value on, at which every room `W - c[i]` has a solution. */
  ghost predicate SmallestWidth(solve: int -> Option<(int, int)>, c: seq<int>, W: int)
    requires c != []
  {
    && W >= MaxOf(c) && W % 2 == c[0] % 2
    && (forall i :: 0 <= i < |c| ==> solve(W - c[i]).Some?)
    && forall w' :: MaxOf(c) <= w' < W && w' % 2 == c[0] % 2 ==>
         exists i :: 0 <= i < |c| && solve(w' - c[i]).None?
  }

  /** `resolve` fails exactly on no values or mixed parity; otherwise there
      is one common width `W`, the smallest one that works, such that every
      entry is the solution of its room `W - c[i]`. */
  lemma ResolveWithCorrect(solve: int -> Option<(int, int)>, c: seq<int>)
    requires LargeRoomsSolvable(solve)
    ensures ResolveWith(solve, c).None? <==> c == [] || !CheckSameParity(c)
    ensures ResolveWith(solve, c).Some? ==>
      var res := ResolveWith(solve, c).value;
      |res| == |c| &&
      exists W :: SmallestWidth(solve, c, W) && forall i :: 0 <= i < |c| ==> Some(res[i]) == solve(W - c[i])
  {
    if c != [] && CheckSameParity(c) {
      var W, res := ResolveFromWidth(solve, c);
      assert ResolveWith(solve, c).value == res;
    }
  }

  /** The width `resolve` settles on is the smallest that works. */
  lemma ResolveFromWidth(solve: int -> Option<(int, int)>, c: seq<int>) returns (W: int, res: seq<(int, int)>)
    requires LargeRoomsSolvable(solve) && c != [] && CheckSameParity(c)
    ensures StartWidth(c) >= MaxOf(c) && EvenRooms(c, StartWidth(c))
    ensures (W, res) == ResolveFrom(solve, c, StartWidth(c))
    ensures |res| == |c| && SmallestWidth(solve, c, W)
    ensures forall i :: 0 <= i < |c| ==> Some(res[i]) == solve(W - c[i])
  {
    var s := StartWidth(c);
    StartWidthEven(c);
    ResolveFromCorrect(solve, c, s);
    var p := ResolveFrom(solve, c, s);
    W, res := p.0, p.1;
    assert TryWidth(solve, c, W) == Some(res);
    TryWidthCorrect(solve, c, W);
    SmallestWidthFrom(solve, c, W);
  }

  /** The first width from the start that works is the smallest one. */
  lemma SmallestWidthFrom(solve: int -> Option<(int, int)>, c: seq<int>, W: int)
    requires c != [] && CheckSameParity(c)
    requires StartWidth(c) <= W && (W - StartWidth(c)) % 2 == 0
    requires forall i :: 0 <= i < |c| ==> solve(W - c[i]).Some?
    requires forall v :: StartWidth(c) <= v < W && (v - StartWidth(c)) % 2 == 0 ==> TryWidth(solve, c, v).None?
    ensures SmallestWidth(solve, c, W)
  {
    StartWidthEven(c);
    ParityDiff(W, StartWidth(c));
    forall w' | MaxOf(c) <= w' < W && w' % 2 == c[0] % 2
      ensures exists i :: 0 <= i < |c| && solve(w' - c[i]).None?
    {
      SmallerWidthFails(solve, c, W, w');
    }
  }

  /** Every width of the right parity below the one found has a room the
      solver cannot fill. */
  lemma SmallerWidthFails(solve: int -> Option<(int, int)>, c: seq<int>, W: int, w': int)
    requires c != [] && CheckSameParity(c)
    requires forall v :: StartWidth(c) <= v < W && (v - StartWidth(c)) % 2 == 0 ==> TryWidth(solve, c, v).None?
    requires MaxOf(c) <= w' < W && w' % 2 == c[0] % 2
    ensures exists i :: 0 <= i < |c| && solve(w' - c[i]).None?
  {
    StartWidthEven(c);
    ParityDiff(w', StartWidth(c));
    assert w' >= StartWidth(c);
    TryWidthCorrect(solve, c, w');
  }

  /** Two integers differ by an even amount iff they have the same parity. */
  lemma ParityDiff(a: int, b: int)
    ensures (a - b) % 2 == 0 <==> a % 2 == b % 2
  {
    assert a == 2 * (a / 2) + a % 2;
    assert b == 2 * (b / 2) + b % 2;
    assert a - b == 2 * (a / 2 - b / 2) + (a % 2 - b % 2);
  }

  /** The first width has the parity of the values, so every room is even. */
  lemma StartWidthEven(c: seq<int>)
    requires c != [] && CheckSameParity(c)
    ensures StartWidth(c) >= MaxOf(c) && StartWidth(c) % 2 == c[0] % 2
    ensures EvenRooms(c, StartWidth(c))
  {
    var s, m := StartWidth(c), MaxOf(c);
    ParityDiff(m + 1, m);
    assert s % 2 == c[0] % 2;
    forall i | 0 <= i < |c| ensures (s - c[i]) % 2 == 0 {
      assert c[i] % 2 == c[0] % 2;
      ParityDiff(s, c[i]);
    }
  }

  // ---------------------------------------------------------------------
  // pad
  // ---------------------------------------------------------------------

  /** `§r`, then `ns` plain spaces if `ns > 0`, then `§l`, `nb` spaces, `§r`
      if `nb > 0`. */
  function PadString(ns: int, nb: int): string
  {
    [SECTION, 'r'] + (if ns > 0 then Spaces(ns) else [])
      + (if nb > 0 then [SECTION, 'l'] + Spaces(nb) + [SECTION, 'r'] else [])
  }

  function Widths(texts: seq<string>): (w: seq<int>)
    requires forall k :: 0 <= k < |texts| ==> '\n' !in texts[k]
    ensures |w| == |texts| && forall k :: 0 <= k < |texts| ==> w[k] == Align.LineWidth(texts[k])
  {
    seq(|texts|, k requires 0 <= k < |texts| => Align.LineWidth(texts[k]))
  }

  /** The demand of `pad`: lines without newlines whose widths share a
      parity (otherwise the source panics, also on no lines). */
  predicate PadDefined(texts: seq<string>)
  {
    texts != [] && (forall k :: 0 <= k < |texts| ==> '\n' !in texts[k]) && CheckSameParity(Widths(texts))
  }

  /** `W` is the smallest common width that works, and line `i` of `r` is
      `texts[i]` followed by the pad string of the solution of its room
      `W - width(texts[i])`. */
  ghost predicate PaddedTo(solve: int -> Option<(int, int)>, r: seq<string>, texts: seq<string>, W: int)
    requires |r| == |texts| && texts != [] && forall k :: 0 <= k < |texts| ==> '\n' !in texts[k]
  {
    PaddedWith(solve, r, texts, Widths(texts), W)
  }

  /** `PaddedTo` with the widths of the texts given as `cs`. */
  ghost predicate PaddedWith(solve: int -> Option<(int, int)>, r: seq<string>, texts: seq<string>, cs: seq<int>, W: int)
    requires |r| == |texts| == |cs| && texts != []
  {
    && SmallestWidth(solve, cs, W)
    && forall i :: 0 <= i < |texts| ==> PaddedLine(solve, r[i], texts[i], W - cs[i])
  }

  /** `line` is `text` followed by the pad string of the solution of the
      room `room`. */
  ghost predicate PaddedLine(solve: int -> Option<(int, int)>, line: string, text: string, room: int)
  {
    solve(room).Some? && line == text + PadString(solve(room).value.0, solve(room).value.1)
  }

  /** `pad(texts)` with the room solver `solve`. */
  function PadWith(solve: int -> Option<(int, int)>, texts: seq<string>): (r: seq<string>)
    requires LargeRoomsSolvable(solve) && PadDefined(texts)
    ensures |r| == |texts|
    ensures exists W :: PaddedTo(solve, r, texts, W)
  {
    var cs := Widths(texts);
    ResolveWithCorrect(solve, cs);
    var res := ResolveWith(solve, cs).value;
    var r := AppendPads(texts, res);
    PadWithWitness(solve, texts, cs, res, r);
    r
  }

  /** Every text followed by the pad string of its solution. */
  function AppendPads(texts: seq<string>, res: seq<(int, int)>): (r: seq<string>)
    requires |res| == |texts|
    ensures |r| == |texts| && forall i :: 0 <= i < |texts| ==> r[i] == texts[i] + PadString(res[i].0, res[i].1)
  {
    seq(|texts|, i requires 0 <= i < |texts| => texts[i] + PadString(res[i].0, res[i].1))
  }

  lemma PadWithWitness(solve: int -> Option<(int, int)>, texts: seq<string>, cs: seq<int>, res: seq<(int, int)>, r: seq<string>)
    requires texts != [] && (forall k :: 0 <= k < |texts| ==> '\n' !in texts[k]) && |res| == |texts| == |r|
    requires cs == Widths(texts)
    requires exists W :: SmallestWidth(solve, cs, W) && forall i :: 0 <= i < |cs| ==> Some(res[i]) == solve(W - cs[i])
    requires forall i :: 0 <= i < |texts| ==> r[i] == texts[i] + PadString(res[i].0, res[i].1)
    ensures exists W :: PaddedTo(solve, r, texts, W)
  {
    var W :| SmallestWidth(solve, cs, W) && forall i :: 0 <= i < |cs| ==> Some(res[i]) == solve(W - cs[i]);
    PaddedAt(solve, texts, cs, res, r, W);
  }

  lemma PaddedAt(solve: int -> Option<(int, int)>, texts: seq<string>, cs: seq<int>, res: seq<(int, int)>, r: seq<string>, W: int)
    requires texts != [] && (forall k :: 0 <= k < |texts| ==> '\n' !in texts[k]) && |res| == |texts| == |r|
    requires cs == Widths(texts)
    requires SmallestWidth(solve, cs, W) && forall i :: 0 <= i < |cs| ==> Some(res[i]) == solve(W - cs[i])
    requires forall i :: 0 <= i < |texts| ==> r[i] == texts[i] + PadString(res[i].0, res[i].1)
    ensures PaddedTo(solve, r, texts, W)
  {
    PaddedLines(solve, texts, cs, res, r, W);
    assert PaddedWith(solve, r, texts, cs, W);
  }

  lemma PaddedLines(solve: int -> Option<(int, int)>, texts: seq<string>, cs: seq<int>, res: seq<(int, int)>, r: seq<string>, W: int)
    requires |res| == |texts| == |r| == |cs|
    requires forall i :: 0 <= i < |cs| ==> Some(res[i]) == solve(W - cs[i])
    requires forall i :: 0 <= i < |texts| ==> r[i] == texts[i] + PadString(res[i].0, res[i].1)
    ensures forall i :: 0 <= i < |texts| ==> PaddedLine(solve, r[i], texts[i], W - cs[i])
  {
    forall i | 0 <= i < |texts| ensures PaddedLine(solve, r[i], texts[i], W - cs[i]) {
      assert Some(res[i]) == solve(W - cs[i]);
    }
  }

  /** `pad(texts)`: every text followed by its pad string, one common width
      `W`, the smallest that works, for all rooms `W - width(texts[i])`. */
  function Pad(texts: seq<string>): (r: seq<string>)
    requires PadDefined(texts)
    ensures |r| == |texts|
    ensures exists W :: PaddedTo(SolveRoom, r, texts, W)
  {
    SolveRoomSolvesLargeRooms();
    PadWith(SolveRoom, texts)
  }

  // ---------------------------------------------------------------------
  // Padder
  // ---------------------------------------------------------------------

  /** `(padN)`. */
  function Mark(n: nat): (m: string)
    ensures |m| >= 6
  {
    "(pad" + NatToString(n) + ")"
  }

  /** The text before and after the first occurrence of `mark`. */
  function Before(p: string, mark: string): string
    requires Contains(p, mark)
  {
    p[..Find(p, mark).value]
  }

  function After(p: string, mark: string): (r: string)
    requires Contains(p, mark) && mark != []
    ensures |r| < |p|
  {
    p[Find(p, mark).value + |mark|..]
  }

  /** Cutting at the first mark loses nothing, and the part before it holds
      no mark. */
  lemma CutAtMark(p: string, mark: string)
    requires Contains(p, mark) && mark != []
    ensures p == Before(p, mark) + mark + After(p, mark)
    ensures !Contains(Before(p, mark) + mark[..|mark| - 1], mark)
  {
    var k := Find(p, mark).value;
    assert p[k..k + |mark|] == mark;
    assert p == p[..k] + p[k..k + |mark|] + p[k + |mark|..];
    var q := Before(p, mark) + mark[..|mark| - 1];
    assert q == p[..k + |mark| - 1];
    forall j | 0 <= j ensures !MatchAt(q, mark, j) {
      if MatchAt(q, mark, j) {
        assert j + |mark| <= |q| && j < k;
        assert q[j..j + |mark|] == p[j..j + |mark|];
        assert MatchAt(p, mark, j);
      }
    }
  }

  predicate AllDoneSpec(pending: seq<string>, mark: string)
  {
    forall k :: 0 <= k < |pending| ==> !Contains(pending[k], mark)
  }

  /** Indices of the lines holding `mark`, in order. */
  function MatchIndex(pending: seq<string>, mark: string): seq<nat>
  {
    if pending == [] then []
    else MatchIndex(pending[..|pending| - 1], mark) + (if Contains(pending[|pending| - 1], mark) then [|pending| - 1] else [])
  }

  /** For each such line, what was padded so far plus the text before the mark. */
  function MatchList(padded: seq<string>, pending: seq<string>, mark: string): seq<string>
    requires |padded| == |pending|
  {
    if pending == [] then []
    else
      var n := |pending| - 1;
      MatchList(padded[..n], pending[..n], mark) + (if Contains(pending[n], mark) then [padded[n] + Before(pending[n], mark)] else [])
  }

  /** For each such line, its index and the text after the mark. */
  function Updates(pending: seq<string>, mark: string): seq<(nat, string)>
    requires mark != []
  {
    if pending == [] then []
    else
      var n := |pending| - 1;
      Updates(pending[..n], mark) + (if Contains(pending[n], mark) then [(n, After(pending[n], mark))] else [])
  }

  /** How many lines before line `i` hold the mark: the position of line
      `i` among the matched lines. */
  function Rank(pending: seq<string>, mark: string, i: nat): nat
    requires i <= |pending|
  {
    |MatchIndex(pending[..i], mark)|
  }

  lemma MatchIndexFacts(pending: seq<string>, mark: string)
    requires mark != []
    ensures var idx := MatchIndex(pending, mark);
      && |Updates(pending, mark)| == |idx|
      && (forall j :: 0 <= j < |idx| ==>
            && idx[j] < |pending| && Contains(pending[idx[j]], mark) && Rank(pending, mark, idx[j]) == j
            && Updates(pending, mark)[j] == (idx[j], After(pending[idx[j]], mark)))
      && (forall i :: 0 <= i < |pending| && Contains(pending[i], mark) ==>
            Rank(pending, mark, i) < |idx| && idx[Rank(pending, mark, i)] == i)
  {
    UpdatesMatch(pending, mark);
    IndexRank(pending, mark);
    RankIndex(pending, mark);
  }

  /** The matched indices are lines holding the mark, and the updates pair
      them with the text after the mark. */
  lemma {:induction false} UpdatesMatch(pending: seq<string>, mark: string)
    requires mark != []
    ensures var idx := MatchIndex(pending, mark);
      && |Updates(pending, mark)| == |idx|
      && forall j :: 0 <= j < |idx| ==>
           && idx[j] < |pending| && Contains(pending[idx[j]], mark)
           && Updates(pending, mark)[j] == (idx[j], After(pending[idx[j]], mark))
  {
    if pending != [] {
      var n := |pending| - 1;
      var init := pending[..n];
      UpdatesMatch(init, mark);
      forall j | 0 <= j < |MatchIndex(init, mark)| ensures pending[MatchIndex(init, mark)[j]] == init[MatchIndex(init, mark)[j]] {
      }
    }
  }

  /** Ranks within a prefix that does not reach the last line. */
  lemma RankPrefix(pending: seq<string>, mark: string, i: nat)
    requires pending != [] && i <= |pending| - 1
    ensures var n := |pending| - 1;
      Rank(pending, mark, i) == if i < n then Rank(pending[..n], mark, i) else |MatchIndex(pending[..n], mark)|
  {
    var n := |pending| - 1;
    assert pending[..i] == pending[..n][..i];
    if i == n { assert pending[..n][..n] == pending[..n]; }
  }

  /** The `j`-th matched line has rank `j`. */
  lemma {:induction false} IndexRank(pending: seq<string>, mark: string)
    ensures var idx := MatchIndex(pending, mark);
      forall j :: 0 <= j < |idx| ==> idx[j] < |pending| && Rank(pending, mark, idx[j]) == j
  {
    if pending != [] {
      var n := |pending| - 1;
      var init := pending[..n];
      IndexRank(init, mark);
      var idx := MatchIndex(pending, mark);
      assert idx == MatchIndex(init, mark) + (if Contains(pending[n], mark) then [n] else []);
      forall j | 0 <= j < |idx| ensures idx[j] < |pending| && Rank(pending, mark, idx[j]) == j {
        if j < |MatchIndex(init, mark)| {
          assert idx[j] == MatchIndex(init, mark)[j] < n;
        } else {
          assert idx[j] == n;
        }
        RankPrefix(pending, mark, idx[j]);
      }
    }
  }

  /** A line holding the mark is the matched line of its rank. */
  lemma {:induction false} RankIndex(pending: seq<string>, mark: string)
    ensures var idx := MatchIndex(pending, mark);
      forall i :: 0 <= i < |pending| && Contains(pending[i], mark) ==>
        Rank(pending, mark, i) < |idx| && idx[Rank(pending, mark, i)] == i
  {
    if pending != [] {
      var n := |pending| - 1;
      var init := pending[..n];
      RankIndex(init, mark);
      var idx := MatchIndex(pending, mark);
      forall i | 0 <= i < |pending| && Contains(pending[i], mark)
        ensures Rank(pending, mark, i) < |idx| && idx[Rank(pending, mark, i)] == i
      {
        RankPrefix(pending, mark, i);
        if i < n {
          assert init[i] == pending[i];
        }
      }
    }
  }

  lemma {:induction false} MatchListLength(padded: seq<string>, pending: seq<string>, mark: string)
    requires |padded| == |pending|
    ensures |MatchList(padded, pending, mark)| == |MatchIndex(pending, mark)|
  {
    if pending != [] {
      MatchListLength(padded[..|pending| - 1], pending[..|pending| - 1], mark);
    }
  }

  /** Each matched line loses everything up to and including its first mark. */
  function StepPending(pending: seq<string>, mark: string): (r: seq<string>)
    requires mark != []
    ensures |r| == |pending|
  {
    seq(|pending|, i requires 0 <= i < |pending| =>
      if Contains(pending[i], mark) then After(pending[i], mark) else pending[i])
  }

  /** The `j`-th matched line takes the `j`-th output of the pad function, as
      far as there are outputs; all other lines keep what they had. */
  function StepPadded(padded: seq<string>, pending: seq<string>, mark: string, out: seq<string>): (r: seq<string>)
    requires |padded| == |pending|
    ensures |r| == |padded|
  {
    seq(|padded|, i requires 0 <= i < |padded| =>
      if Contains(pending[i], mark) && Rank(pending, mark, i) < |out| then out[Rank(pending, mark, i)] else padded[i])
  }

  /** The sum of the lengths of the lines. */
  function TotalLength(lines: seq<string>): nat
  {
    if lines == [] then 0 else TotalLength(lines[..|lines| - 1]) + |lines[|lines| - 1]|
  }

  lemma {:induction false} TotalLengthShrinks(a: seq<string>, b: seq<string>)
    requires |a| == |b| && forall i :: 0 <= i < |a| ==> |a[i]| <= |b[i]|
    ensures TotalLength(a) <= TotalLength(b)
    ensures (exists i :: 0 <= i < |a| && |a[i]| < |b[i]|) ==> TotalLength(a) < TotalLength(b)
  {
    if a != [] {
      var n := |a| - 1;
      TotalLengthShrinks(a[..n], b[..n]);
      if exists i :: 0 <= i < |a| && |a[i]| < |b[i]| {
        var i :| 0 <= i < |a| && |a[i]| < |b[i]|;
        if i < n {
          assert a[..n][i] == a[i] && b[..n][i] == b[i];
        }
      }
    }
  }

  /** A step while some line holds the mark shortens the pending text. */
  lemma StepShrinks(pending: seq<string>, mark: string)
    requires mark != [] && !AllDoneSpec(pending, mark)
    ensures TotalLength(StepPending(pending, mark)) < TotalLength(pending)
  {
    var k :| 0 <= k < |pending| && Contains(pending[k], mark);
    TotalLengthShrinks(StepPending(pending, mark), pending);
  }

  /** The whole run of `execute` from a state, on values: steps until no line
      holds the current mark. `None` where the pad function would be called
      outside its precondition (the source panics there). */
  ghost function Run(padFn: seq<string> --> seq<string>, pending: seq<string>, padded: seq<string>, n: nat): Option<(seq<string>, seq<string>)>
    requires |pending| == |padded|
    decreases TotalLength(pending)
  {
    var mark := Mark(n);
    if AllDoneSpec(pending, mark) then Some((pending, padded))
    else if !padFn.requires(MatchList(padded, pending, mark)) then None
    else
      StepShrinks(pending, mark);
      Run(padFn, StepPending(pending, mark), StepPadded(padded, pending, mark, padFn(MatchList(padded, pending, mark))), n + 1)
  }

  /** While some line holds the mark, the run is one step followed by the
      run from the stepped state; the step is within the pad function's
      precondition when the run succeeds. */
  lemma RunStep(padFn: seq<string> --> seq<string>, pending: seq<string>, padded: seq<string>, n: nat)
    requires |pending| == |padded| && !AllDoneSpec(pending, Mark(n)) && Run(padFn, pending, padded, n).Some?
    ensures var mark := Mark(n);
      && padFn.requires(MatchList(padded, pending, mark))
      && TotalLength(StepPending(pending, mark)) < TotalLength(pending)
      && Run(padFn, pending, padded, n)
         == Run(padFn, StepPending(pending, mark), StepPadded(padded, pending, mark, padFn(MatchList(padded, pending, mark))), n + 1)
  {
    StepShrinks(pending, Mark(n));
  }

  /** The state after one step continues the same run, and is shorter. */
  lemma RunAfterStep(padFn: seq<string> --> seq<string>, pending: seq<string>, padded: seq<string>, n: nat,
                     pending': seq<string>, padded': seq<string>, n': nat)
    requires |pending| == |padded| && !AllDoneSpec(pending, Mark(n)) && Run(padFn, pending, padded, n).Some?
    requires padFn.requires(MatchList(padded, pending, Mark(n)))
    requires pending' == StepPending(pending, Mark(n)) && n' == n + 1
    requires padded' == StepPadded(padded, pending, Mark(n), padFn(MatchList(padded, pending, Mark(n))))
    ensures |pending'| == |padded'| && TotalLength(pending') < TotalLength(pending)
    ensures Run(padFn, pending', padded', n') == Run(padFn, pending, padded, n)
  {
    RunStep(padFn, pending, padded, n);
  }

  /** The run stops at the first missing mark, whatever later marks exist. */
  lemma RunStopsAtMissingMark(padFn: seq<string> --> seq<string>, pending: seq<string>, padded: seq<string>, n: nat)
    requires |pending| == |padded| && AllDoneSpec(pending, Mark(n))
    ensures Run(padFn, pending, padded, n) == Some((pending, padded))
  {
  }

  /** Line `i` of the output: its remaining text, then its padded part. */
  function Zip(pending: seq<string>, padded: seq<string>): (r: seq<string>)
    requires |pending| == |padded|
    ensures |r| == |pending| && forall i :: 0 <= i < |r| ==> r[i] == pending[i] + padded[i]
  {
    seq(|pending|, i requires 0 <= i < |pending| => pending[i] + padded[i])
  }

  /** The first pass of `step` over one more line. */
  lemma CollectStep(padded: seq<string>, pending: seq<string>, mark: string, i: nat)
    requires |padded| == |pending| && i < |pending| && mark != []
    ensures MatchIndex(pending[..i + 1], mark)
      == MatchIndex(pending[..i], mark) + (if Contains(pending[i], mark) then [i] else [])
    ensures MatchList(padded[..i + 1], pending[..i + 1], mark)
      == MatchList(padded[..i], pending[..i], mark) + (if Contains(pending[i], mark) then [padded[i] + Before(pending[i], mark)] else [])
    ensures Updates(pending[..i + 1], mark)
      == Updates(pending[..i], mark) + (if Contains(pending[i], mark) then [(i, After(pending[i], mark))] else [])
  {
    assert pending[..i + 1][..i] == pending[..i] && padded[..i + 1][..i] == padded[..i];
  }

  /** The pending lines once the first `j` updates are applied. */
  ghost function PendingSoFar(pending: seq<string>, mark: string, j: int): seq<string>
    requires mark != []
  {
    seq(|pending|, i requires 0 <= i < |pending| =>
      if Contains(pending[i], mark) && Rank(pending, mark, i) < j then After(pending[i], mark) else pending[i])
  }

  /** Applying update `j` to line `MatchIndex[j]` gives the next state. */
  lemma UpdateAdvance(pending: seq<string>, mark: string, j: nat)
    requires mark != [] && j < |Updates(pending, mark)|
    ensures var (i, r) := Updates(pending, mark)[j];
      i < |pending| && PendingSoFar(pending, mark, j)[i := r] == PendingSoFar(pending, mark, j + 1)
  {
    MatchIndexFacts(pending, mark);
    var idx := MatchIndex(pending, mark);
    var i := idx[j];
    var a, b := PendingSoFar(pending, mark, j)[i := After(pending[i], mark)], PendingSoFar(pending, mark, j + 1);
    forall k | 0 <= k < |pending| ensures a[k] == b[k] {
      if Contains(pending[k], mark) && Rank(pending, mark, k) == j {
        assert idx[Rank(pending, mark, k)] == k;
      }
    }
  }

  /** With no update applied the lines are as they were; with all of them
      applied they are `StepPending`. */
  lemma PendingSoFarAll(pending: seq<string>, mark: string)
    requires mark != []
    ensures PendingSoFar(pending, mark, 0) == pending
    ensures PendingSoFar(pending, mark, |Updates(pending, mark)|) == StepPending(pending, mark)
  {
    MatchIndexFacts(pending, mark);
  }

  /** The padded parts once the first `j` outputs are written. */
  ghost function PaddedSoFar(padded: seq<string>, pending: seq<string>, mark: string, out: seq<string>, j: int): seq<string>
    requires |padded| == |pending| && j <= |out|
  {
    seq(|padded|, i requires 0 <= i < |padded| =>
      if Contains(pending[i], mark) && Rank(pending, mark, i) < j then out[Rank(pending, mark, i)] else padded[i])
  }

  /** Writing output `j` to line `MatchIndex[j]` gives the next state. */
  lemma PaddedAdvance(padded: seq<string>, pending: seq<string>, mark: string, out: seq<string>, j: nat)
    requires |padded| == |pending| && mark != []
    requires j < |out| && j < |MatchIndex(pending, mark)|
    ensures var i := MatchIndex(pending, mark)[j];
      i < |padded| && PaddedSoFar(padded, pending, mark, out, j)[i := out[j]] == PaddedSoFar(padded, pending, mark, out, j + 1)
  {
    MatchIndexFacts(pending, mark);
    var idx := MatchIndex(pending, mark);
    var i := idx[j];
    var a, b := PaddedSoFar(padded, pending, mark, out, j)[i := out[j]], PaddedSoFar(padded, pending, mark, out, j + 1);
    forall k | 0 <= k < |padded| ensures a[k] == b[k] {
      if Contains(pending[k], mark) && Rank(pending, mark, k) == j {
        assert idx[Rank(pending, mark, k)] == k;
      }
    }
  }

  /** With no output written the parts are as they were; with as many as
      there are matched lines and outputs they are `StepPadded`. */
  lemma PaddedSoFarAll(padded: seq<string>, pending: seq<string>, mark: string, out: seq<string>)
    requires |padded| == |pending| && mark != []
    ensures PaddedSoFar(padded, pending, mark, out, 0) == padded
    ensures var n := Min(|MatchIndex(pending, mark)|, |out|);
      PaddedSoFar(padded, pending, mark, out, n) == StepPadded(padded, pending, mark, out)
  {
    MatchIndexFacts(pending, mark);
  }

  /** The `(padN)` engine of the source: lines still to pad, the padded part
      of every line, the number of the current mark and the pad function. */
  class Padder {
    var pendingLines: seq<string>
    var padded: seq<string>
    var padI: nat
    var padMark: string
    const padFn: seq<string> --> seq<string>

    ghost predicate Valid()
      reads this
    {
      |pendingLines| == |padded| && padI >= 1 && padMark == Mark(padI)
    }

    /** `Padder::new`: the lines of the text, nothing padded, mark `(pad1)`. */
    constructor (textLines: string, padFn: seq<string> --> seq<string>)
      ensures Valid()
      ensures pendingLines == Lines(textLines)
      ensures |padded| == |Lines(textLines)| && forall k :: 0 <= k < |padded| ==> padded[k] == []
      ensures padI == 1 && this.padFn == padFn
    {
      var lines := Lines(textLines);
      pendingLines := lines;
      padded := seq(|lines|, _ => []);
      padI := 1;
      padMark := Mark(1);
      this.padFn := padFn;
    }

    /** `all_done`: no pending line holds the current mark. */
    predicate AllDone()
      reads this
    {
      AllDoneSpec(pendingLines, padMark)
    }

    /** `step`: pads the current column. Only lines holding the current mark
        change: their pending text becomes the text after the first mark and
        their padded part becomes the pad function's output for what was
        padded so far plus the text before the mark; the mark number grows
        by one. */
    method Step()
      requires Valid() && !AllDone()
      requires padFn.requires(MatchList(padded, pendingLines, padMark))
      modifies this
      ensures Valid()
      ensures pendingLines == StepPending(old(pendingLines), old(padMark))
      ensures padded == StepPadded(old(padded), old(pendingLines), old(padMark), padFn(MatchList(old(padded), old(pendingLines), old(padMark))))
      ensures padI == old(padI) + 1
    {
      var mark := padMark;
      ghost var p0 := pendingLines;
      var matchList, matchIndex, updates := Collect(mark);
      var out := padFn(matchList);
      ApplyUpdates(mark, updates);
      WritePads(p0, mark, matchIndex, out);
      padI := padI + 1;
      padMark := Mark(padI);
    }

    /** The first pass of `step`: for each line holding `mark`, in order, its
        index, what was padded so far plus the text before the mark, and the
        text after the mark. */
    method Collect(mark: string) returns (matchList: seq<string>, matchIndex: seq<nat>, updates: seq<(nat, string)>)
      requires |pendingLines| == |padded| && mark != []
      ensures matchList == MatchList(padded, pendingLines, mark)
      ensures matchIndex == MatchIndex(pendingLines, mark)
      ensures updates == Updates(pendingLines, mark)
    {
      matchList, matchIndex, updates := [], [], [];
      for i := 0 to |padded|
        invariant matchIndex == MatchIndex(pendingLines[..i], mark)
        invariant matchList == MatchList(padded[..i], pendingLines[..i], mark)
        invariant updates == Updates(pendingLines[..i], mark)
      {
        CollectStep(padded, pendingLines, mark, i);
        var c, p := padded[i], pendingLines[i];
        if !Contains(p, mark) {
          continue;
        }
        matchIndex := matchIndex + [i];
        // the mark occurs, so cutting at its first occurrence gives two parts
        var k := Find(p, mark).value;
        var t, r := p[..k], p[k + |mark|..];
        matchList := matchList + [c + t];
        updates := updates + [(i, r)];
      }
      assert pendingLines[..|pendingLines|] == pendingLines && padded[..|padded|] == padded;
    }

    /** The second pass of `step`: every matched line keeps only the text
        after its first mark. */
    method ApplyUpdates(mark: string, updates: seq<(nat, string)>)
      requires mark != [] && updates == Updates(pendingLines, mark)
      modifies this
      ensures pendingLines == StepPending(old(pendingLines), mark)
      ensures padded == old(padded) && padI == old(padI) && padMark == old(padMark)
    {
      ghost var p0 := pendingLines;
      PendingSoFarAll(p0, mark);
      for j := 0 to |updates|
        invariant padded == old(padded) && padI == old(padI) && padMark == old(padMark)
        invariant pendingLines == PendingSoFar(p0, mark, j)
      {
        UpdateAdvance(p0, mark, j);
        var (i, r) := updates[j];
        pendingLines := pendingLines[i := r];
      }
    }

    /** The third pass of `step`: the `j`-th matched line of `p0` takes the
        `j`-th output, as far as there are outputs. */
    method WritePads(ghost p0: seq<string>, mark: string, matchIndex: seq<nat>, out: seq<string>)
      requires |padded| == |p0| && mark != [] && matchIndex == MatchIndex(p0, mark)
      modifies this
      ensures padded == StepPadded(old(padded), p0, mark, out)
      ensures pendingLines == old(pendingLines) && padI == old(padI) && padMark == old(padMark)
    {
      ghost var c0 := padded;
      PaddedSoFarAll(c0, p0, mark, out);
      var n := Min(|matchIndex|, |out|);
      for j := 0 to n
        invariant pendingLines == old(pendingLines) && padI == old(padI) && padMark == old(padMark)
        invariant padded == PaddedSoFar(c0, p0, mark, out, j)
      {
        PaddedAdvance(c0, p0, mark, out, j);
        padded := padded[matchIndex[j] := out[j]];
      }
    }

    /** `finish`: the lines `pending[i] + padded[i]` joined by newlines; they
        come back one per line, in order, when none holds a newline. */
    function Finish(): (r: string)
      reads this
      requires Valid()
      ensures pendingLines == [] ==> r == []
      ensures pendingLines != [] && (forall i :: 0 <= i < |pendingLines| ==> '\n' !in pendingLines[i] + padded[i])
              ==> SplitOn(r, '\n') == Zip(pendingLines, padded)
    {
      var lines := Zip(pendingLines, padded);
      if pendingLines != [] && (forall i :: 0 <= i < |pendingLines| ==> '\n' !in pendingLines[i] + padded[i]) then
        SplitJoin(lines, '\n');
        Join(lines, '\n')
      else
        Join(lines, '\n')
    }

    /** The run from the current state succeeds. */
    ghost predicate Completes()
      reads this
      requires Valid()
    {
      Run(padFn, pendingLines, padded, padI).Some?
    }

    /** `execute`: step until no line holds the current mark, then finish. */
    method Execute() returns (r: string)
      requires Valid() && Completes()
      modifies this
      ensures var (pending, pads) := Run(padFn, old(pendingLines), old(padded), old(padI)).value;
              |pending| == |pads| && r == Join(Zip(pending, pads), '\n')
    {
      ghost var final := Run(padFn, pendingLines, padded, padI);
      while !AllDone()
        invariant Valid() && Run(padFn, pendingLines, padded, padI) == final
        decreases TotalLength(pendingLines)
      {
        ghost var p, c, n := pendingLines, padded, padI;
        RunStep(padFn, p, c, n);
        Step();
        RunAfterStep(padFn, p, c, n, pendingLines, padded, padI);
      }
      r := Finish();
    }
  }

  lemma {:induction false} RunKeepsLength(padFn: seq<string> --> seq<string>, pending: seq<string>, padded: seq<string>, n: nat)
    requires |pending| == |padded| && Run(padFn, pending, padded, n).Some?
    ensures |Run(padFn, pending, padded, n).value.0| == |pending| == |Run(padFn, pending, padded, n).value.1|
    decreases TotalLength(pending)
  {
    var mark := Mark(n);
    if !AllDoneSpec(pending, mark) {
      StepShrinks(pending, mark);
      RunKeepsLength(padFn, StepPending(pending, mark), StepPadded(padded, pending, mark, padFn(MatchList(padded, pending, mark))), n + 1);
    }
  }

  /** The demand of `pad_with_format`: every column batch it pads is one
      `pad` accepts. */
  ghost predicate PadWithFormatDefined(text: string)
  {
    Run(Pad, Lines(text), seq(|Lines(text)|, _ => []), 1).Some?
  }

  /** `pad_with_format(text)`: run the `(padN)` engine with `pad`. */
  method PadWithFormat(text: string) returns (r: string)
    requires PadWithFormatDefined(text)
    ensures var (pending, pads) := Run(Pad, Lines(text), seq(|Lines(text)|, _ => []), 1).value;
            |pending| == |pads| && r == Join(Zip(pending, pads), '\n')
    ensures (forall k :: 0 <= k < |Lines(text)| ==> !Contains(Lines(text)[k], Mark(1))) ==> r == Join(Lines(text), '\n')
  {
    var padder := new Padder(text, Pad);
    assert padder.padded == seq(|Lines(text)|, _ => []);
    r := padder.Execute();
    var z := Zip(Lines(text), seq(|Lines(text)|, _ => []));
    assert forall k :: 0 <= k < |z| ==> z[k] == Lines(text)[k];
    assert z == Lines(text);
  }

  // ---------------------------------------------------------------------
  // pad_with_length
  // ---------------------------------------------------------------------

  /** `pad_with_length(length, padder, round)`: as many copies of `padder`
      as fit in `length` glyph widths (each copy counted with one gap, and
      the length given one extra gap), truncated or rounded. The source casts
      the truncated count to an unsigned size, so it must not be negative;
      the rounded count saturates at zero. */
  function PadWithLength(length: int, padder: string, round: bool): (r: string)
    requires round || RustDiv(length + CHAR_HORIZON_PADDING, Align.CharWidth(padder, false) + CHAR_HORIZON_PADDING) >= 0
    ensures var len, cw := length + CHAR_HORIZON_PADDING, Align.CharWidth(padder, false) + CHAR_HORIZON_PADDING;
            exists k: nat :: r == Repeat(padder, k)
              && (!round && len >= 0 ==> k * cw <= len < k * cw + cw)
              && (!round && len < 0 ==> k == 0)
              && (round ==> k == Max(RoundDiv(len, cw), 0))
  {
    var len := length + CHAR_HORIZON_PADDING;
    var cw := Align.CharWidth(padder, false) + CHAR_HORIZON_PADDING;
    if !round then
      var k := RustDiv(len, cw);
      Repeat(padder, k)
    else
      Repeat(padder, Max(RoundDiv(len, cw), 0))
  }

  lemma {:induction false} RepeatOneChar(ch: char, k: nat)
    ensures Repeat([ch], k) == seq(k, _ => ch)
  {
    if k > 0 {
      RepeatOneChar(ch, k - 1);
    }
  }

  /** With a one-character padder, the truncated copies are drawn within
      `length`, and one copy more would not be. */
  lemma PadWithLengthFits(length: int, ch: char)
    requires ch != SECTION && ch != '\n' && length >= 0
    ensures var r := PadWithLength(length, [ch], false);
            '\n' !in r && Align.LineWidth(r) <= length
            && Align.LineWidth(r + [ch]) > length
  {
    var cw := Align.CharWidth([ch], false) + CHAR_HORIZON_PADDING;
    var k := RustDiv(length + CHAR_HORIZON_PADDING, cw);
    assert PadWithLength(length, [ch], false) == Repeat([ch], k);
    RepeatSnoc(ch, k);
    CopiesFit(length, ch, k);
  }

  lemma RepeatSnoc(ch: char, k: nat)
    ensures Repeat([ch], k) + [ch] == Repeat([ch], k + 1)
  {
    RepeatOneChar(ch, k);
    RepeatOneChar(ch, k + 1);
  }

  /** `k` copies fit in `length` and `k + 1` do not, for the truncated `k`. */
  lemma CopiesFit(length: int, ch: char, k: int)
    requires ch != SECTION && ch != '\n' && length >= 0
    requires k == RustDiv(length + CHAR_HORIZON_PADDING, Align.CharWidth([ch], false) + CHAR_HORIZON_PADDING)
    ensures k >= 0 && '\n' !in Repeat([ch], k)
    ensures Align.LineWidth(Repeat([ch], k)) <= length && Align.LineWidth(Repeat([ch], k + 1)) > length
  {
    var cw := Align.CharWidth([ch], false) + CHAR_HORIZON_PADDING;
    CopiesWidth(ch, k);
    CopiesWidth(ch, k + 1);
    FitsArithmetic(length, CHAR_HORIZON_PADDING, cw, k,
      Align.LineWidth(Repeat([ch], k)), Align.LineWidth(Repeat([ch], k + 1)));
  }

  /** The width arithmetic behind `PadWithLengthFits`, with the widths of
      `k` and `k + 1` copies given as `w0` and `w1`. */
  lemma FitsArithmetic(length: int, gap: int, cw: int, k: int, w0: int, w1: int)
    requires length >= 0 && cw > 0 && k >= 0
    requires k * cw <= length + gap < k * cw + cw
    requires w0 + gap == (if k == 0 then gap else k * cw)
    requires w1 + gap == (k + 1) * cw
    ensures w0 <= length && w1 > length
  {
    assert (k + 1) * cw == k * cw + cw;
  }

  /** `k` copies of a plain character are `k` widths plus `k - 1` gaps. */
  lemma CopiesWidth(ch: char, k: nat)
    requires ch != SECTION && ch != '\n'
    ensures '\n' !in Repeat([ch], k)
    ensures Align.LineWidth(Repeat([ch], k)) + CHAR_HORIZON_PADDING
      == (if k == 0 then CHAR_HORIZON_PADDING else k * (Align.CharWidth([ch], false) + CHAR_HORIZON_PADDING))
  {
    var s := Repeat([ch], k);
    RepeatOneChar(ch, k);
    assert SECTION !in s && '\n' !in s;
    Align.PlainLineWidth(s);
    SumWidthsSame(s, ch);
    CopiesArithmetic(k, Align.CharWidth([ch], false), Align.SumWidths(s, false), Align.LineWidth(s));
  }

  lemma CopiesArithmetic(k: nat, w: int, sum: int, lw: int)
    requires sum == k * w && lw == sum + Max(k - 1, 0) * CHAR_HORIZON_PADDING
    ensures lw + CHAR_HORIZON_PADDING == (if k == 0 then CHAR_HORIZON_PADDING else k * (w + CHAR_HORIZON_PADDING))
  {
    if k > 0 {
      assert (k - 1) * CHAR_HORIZON_PADDING + CHAR_HORIZON_PADDING == k * CHAR_HORIZON_PADDING;
      assert k * (w + CHAR_HORIZON_PADDING) == k * w + k * CHAR_HORIZON_PADDING;
    }
  }

  lemma {:induction false} SumWidthsSame(s: string, ch: char)
    requires forall i :: 0 <= i < |s| ==> s[i] == ch
    ensures Align.SumWidths(s, false) == |s| * Align.CharWidth([ch], false)
  {
    if s != [] {
      SumWidthsSame(s[..|s| - 1], ch);
      assert |s| * Align.CharWidth([ch], false) == (|s| - 1) * Align.CharWidth([ch], false) + Align.CharWidth([ch], false);
    }
  }
}
