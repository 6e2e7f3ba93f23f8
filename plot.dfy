/** The Braille-pattern sparkline: readings are chunked into two-reading
    columns, each column is drawn as a bar of dots `size` cells high, one
    Unicode Braille cell (U+2800..U+28FF) holding up to four dots of each
    of two neighbouring bars. */
module Plot {

  /** math.MaxFloat64, (2^53 - 1) * 2^971. */
  const MaxFloat64: real := 179769313486231570814527423731704356798070567525844996598917476803157260780028538760589558632766878171540458953514382464234321326889464182768467546703537516986049910576551282076245490090389328944075868508455133942304583236903222948165808559332123348274797826204144723168738177180919299881250404026184124858368.0

  /** math.SmallestNonzeroFloat64, 2^-1074. */
  const SmallestNonzeroFloat64: real := 1.0 / 202402253307310618352495346718917307049556649764142118356901358027430339567995346891960383701437124495187077864316811911389808737385793476867013399940738509921517424276566361364466907742093216341239767678472745068562007483424692698618103355649159556340810056512358769552333414615230502532186327508646006263307707741093494784.0

  // ---------------------------------------------------------------------
  // The glyph table

  /** bps: row a is the left bar's fill, column b the right bar's fill. */
  const Bps: seq<seq<char>> := [
    ['\U{2800}', '\U{2880}', '\U{28A0}', '\U{28B0}', '\U{28B8}'],
    ['\U{2840}', '\U{28C0}', '\U{28E0}', '\U{28F0}', '\U{28F8}'],
    ['\U{2844}', '\U{28C4}', '\U{28E4}', '\U{28F4}', '\U{28FC}'],
    ['\U{2846}', '\U{28C6}', '\U{28E6}', '\U{28F6}', '\U{28FE}'],
    ['\U{2847}', '\U{28C7}', '\U{28E7}', '\U{28F7}', '\U{28FF}']
  ]

  /** Braille dot bits of the left column, bottom to top (dots 7, 3, 2, 1),
      and of the right column (dots 8, 6, 5, 4). */
  const LeftDots: seq<int> := [0x40, 0x04, 0x02, 0x01]
  const RightDots: seq<int> := [0x80, 0x20, 0x10, 0x08]

  /** The bits of the lowest `k` dots of a column. */
  function FillBits(dots: seq<int>, k: nat): int
    requires k <= |dots|
  {
    if k == 0 then 0 else FillBits(dots, k - 1) + dots[k - 1]
  }

  /** bps[a][b]: the Braille cell whose left column has its lowest `a` dots
      raised and whose right column has its lowest `b` dots raised. */
  function Glyph(a: nat, b: nat): (g: char)
    requires a <= 4 && b <= 4
    ensures 0x2800 <= g as int <= 0x28FF
    ensures g as int == 0x2800 + FillBits(LeftDots, a) + FillBits(RightDots, b)
  {
    Bps[a][b]
  }

  /** Distinct fills give distinct glyphs: the cell shows both fills. */
  lemma GlyphInjective(a: nat, b: nat, c: nat, d: nat)
    requires a <= 4 && b <= 4 && c <= 4 && d <= 4
    requires Glyph(a, b) == Glyph(c, d)
    ensures a == c && b == d
  {
    LeftBits(a);
    LeftBits(c);
    RightBits(b);
    RightBits(d);
  }

  /** The left-column bits of each fill. */
  lemma LeftBits(a: nat)
    requires a <= 4
    ensures a == 0 ==> FillBits(LeftDots, a) == 0
    ensures a == 1 ==> FillBits(LeftDots, a) == 0x40
    ensures a == 2 ==> FillBits(LeftDots, a) == 0x44
    ensures a == 3 ==> FillBits(LeftDots, a) == 0x46
    ensures a == 4 ==> FillBits(LeftDots, a) == 0x47
  {
  }

  /** The right-column bits of each fill. */
  lemma RightBits(b: nat)
    requires b <= 4
    ensures b == 0 ==> FillBits(RightDots, b) == 0
    ensures b == 1 ==> FillBits(RightDots, b) == 0x80
    ensures b == 2 ==> FillBits(RightDots, b) == 0xA0
    ensures b == 3 ==> FillBits(RightDots, b) == 0xB0
    ensures b == 4 ==> FillBits(RightDots, b) == 0xB8
  {
  }

  // ---------------------------------------------------------------------
  // The grid

  /** The fill, from 0 to 4 dots, of one bar of height `v` dots in the cell
      `i` rows above the bottom row: each row takes four dots. */
  function Level(v: int, i: nat): (l: int)
    ensures 0 <= l <= 4
  {
    Min(4, Max(0, v - 4 * i))
  }

  function Max(x: int, y: int): int { if x >= y then x else y }
  function Min(x: int, y: int): int { if x <= y then x else y }

  /** A bar fills from the bottom: a cell above a partly filled one is
      empty, and the fill never grows going up. */
  lemma LevelMonotone(v: int, i: nat)
    ensures Level(v, i + 1) <= Level(v, i)
    ensures Level(v, i) < 4 ==> Level(v, i + 1) == 0
  {
  }

  /** Total dots of a bar over `size` cells. */
  function ColumnDots(v: int, size: nat): int
  {
    if size == 0 then 0 else ColumnDots(v, size - 1) + Level(v, size - 1)
  }

  /** A bar of `size` cells shows exactly its height in dots, cut off at
      zero below and at 4 * size above. */
  lemma {:induction false} ColumnDotsClamped(v: int, size: nat)
    ensures ColumnDots(v, size) == Min(4 * size, Max(0, v))
  {
    if size > 0 {
      ColumnDotsClamped(v, size - 1);
    }
  }

  /** The cell in grid row `r` (row 0 at the top) of the column drawn for
      the pair `p`. */
  function Cell(size: nat, p: (int, int), r: nat): (g: char)
    requires r < size
    ensures 0x2800 <= g as int <= 0x28FF && g != '\n'
  {
    Glyph(Level(p.0, size - 1 - r), Level(p.1, size - 1 - r))
  }

  /** Row `r` of the grid: one glyph per pair, then a newline. */
  function Line(size: nat, ps: seq<(int, int)>, r: nat): string
    requires r < size
  {
    seq(|ps|, c requires 0 <= c < |ps| => Cell(size, ps[c], r)) + "\n"
  }

  /** The first `k` rows of the grid, top first. */
  function Lines(size: nat, ps: seq<(int, int)>, k: nat): string
    requires k <= size
  {
    if k == 0 then "" else Lines(size, ps, k - 1) + Line(size, ps, k - 1)
  }

  /** The whole grid: `size` lines of one glyph per pair and a newline. */
  function Grid(size: nat, ps: seq<(int, int)>): (g: string)
    ensures |g| == size * (|ps| + 1)
  {
    LinesLength(size, ps, size);
    Lines(size, ps, size)
  }

  lemma {:induction false} LinesLength(size: nat, ps: seq<(int, int)>, k: nat)
    requires k <= size
    ensures |Lines(size, ps, k)| == k * (|ps| + 1)
  {
    if k > 0 {
      LinesLength(size, ps, k - 1);
    }
  }

  /** The first k rows are k lines of |ps| glyphs, each followed by a
      newline; the glyph in row r, column c is Cell(size, ps[c], r). */
  lemma {:induction false} LinesAt(size: nat, ps: seq<(int, int)>, k: nat, r: nat, c: nat)
    requires k <= size && r < k && c <= |ps|
    ensures r * (|ps| + 1) + c < |Lines(size, ps, k)|
    ensures Lines(size, ps, k)[r * (|ps| + 1) + c] == if c == |ps| then '\n' else Cell(size, ps[c], r)
  {
    var w := |ps| + 1;
    LinesLength(size, ps, k - 1);
    var prev := Lines(size, ps, k - 1);
    assert Lines(size, ps, k) == prev + Line(size, ps, k - 1);
    LineAt(size, ps, k - 1, c);
    if r < k - 1 {
      RowBound(r, k - 1, w, c);
      LinesAt(size, ps, k - 1, r, c);
    } else {
      assert r * w == |prev|;
    }
  }

  /** Row `r` holds its glyphs, then a newline. */
  lemma LineAt(size: nat, ps: seq<(int, int)>, r: nat, c: nat)
    requires r < size && c <= |ps|
    ensures |Line(size, ps, r)| == |ps| + 1
    ensures Line(size, ps, r)[c] == if c == |ps| then '\n' else Cell(size, ps[c], r)
  {
  }

  lemma RowBound(r: nat, k: nat, w: nat, c: nat)
    requires r < k && c < w
    ensures r * w + c < k * w
  {
    assert (r + 1) * w <= k * w;
  }

  /** No glyph is a newline, so the grid has exactly `size` lines. */
  lemma GlyphNotNewline(a: nat, b: nat)
    requires a <= 4 && b <= 4
    ensures Glyph(a, b) != '\n'
  {
  }

  /** render: fills a size x |ps| grid column by column, walking each column
      from the bottom row up while taking four dots off each bar per row,
      then joins the rows, each followed by a newline. */
  method Render(size: nat, ps: seq<(int, int)>) returns (s: string)
    ensures s == Grid(size, ps)
  {
    var plot := new char[size, |ps|];
    var c := 0;
    while c < |ps|
      invariant 0 <= c <= |ps|
      invariant forall r, cc :: 0 <= r < size && 0 <= cc < c ==> plot[r, cc] == Cell(size, ps[cc], r)
    {
      FillColumn(plot, size, ps, c);
      c := c + 1;
    }
    s := "";
    var r := 0;
    while r < size
      invariant 0 <= r <= size
      invariant s == Lines(size, ps, r)
      invariant forall rr, cc :: 0 <= rr < size && 0 <= cc < |ps| ==> plot[rr, cc] == Cell(size, ps[cc], rr)
    {
      var line := JoinRow(plot, size, ps, r);
      s := s + line;
      r := r + 1;
    }
  }

  /** The inner loop of render for column `c`. */
  method FillColumn(plot: array2<char>, size: nat, ps: seq<(int, int)>, c: nat)
    requires plot.Length0 == size && plot.Length1 == |ps| && c < |ps|
    modifies plot
    ensures forall r, cc :: 0 <= r < size && 0 <= cc < |ps| ==>
              plot[r, cc] == if cc == c then Cell(size, ps[c], r) else old(plot[r, cc])
  {
    var fst, snd := ps[c].0, ps[c].1;
    var r := size - 1;
    while r >= 0
      invariant -1 <= r < size
      invariant fst == ps[c].0 - 4 * (size - 1 - r) && snd == ps[c].1 - 4 * (size - 1 - r)
      invariant forall rr, cc :: 0 <= rr < size && 0 <= cc < |ps| ==>
                  plot[rr, cc] == if cc == c && rr > r then Cell(size, ps[c], rr) else old(plot[rr, cc])
    {
      var currFst, currSnd := Max(0, fst), Max(0, snd);
      currFst, currSnd := Min(4, currFst), Min(4, currSnd);
      plot[r, c] := Bps[currFst][currSnd];
      r, fst, snd := r - 1, fst - 4, snd - 4;
    }
  }

  /** strings.Join of row `r` plus the newline. */
  method JoinRow(plot: array2<char>, size: nat, ps: seq<(int, int)>, r: nat) returns (line: string)
    requires plot.Length0 == size && plot.Length1 == |ps| && r < size
    requires forall rr, cc :: 0 <= rr < size && 0 <= cc < |ps| ==> plot[rr, cc] == Cell(size, ps[cc], rr)
    ensures line == Line(size, ps, r)
  {
    line := "";
    var c := 0;
    while c < |ps|
      invariant 0 <= c <= |ps|
      invariant |line| == c
      invariant forall cc :: 0 <= cc < c ==> line[cc] == Cell(size, ps[cc], r)
    {
      line := line + [plot[r, c]];
      c := c + 1;
    }
    line := line + "\n";
  }

  // ---------------------------------------------------------------------
  // Columns of two readings

  /** pairs: pads an odd-length input with one 0, then cuts it into
      chunks of two. The empty input gives one empty chunk. */
  function Pairs(xs: seq<real>): (ps: seq<seq<real>>)
    ensures ps != []
    ensures xs == [] ==> ps == [[]]
    decreases |xs|
  {
    var ys := if |xs| % 2 != 0 then xs + [0.0] else xs;
    if |ys| <= 2 then [ys] else [ys[..2]] + Pairs(ys[2..])
  }

  function Flatten(ps: seq<seq<real>>): seq<real>
  {
    if ps == [] then [] else ps[0] + Flatten(ps[1..])
  }

  /** For non-empty input: ceil(n / 2) chunks, each of exactly two readings,
      which laid end to end give back the input followed by one 0 when n is
      odd. */
  lemma {:induction false} PairsChunks(xs: seq<real>)
    requires xs != []
    ensures |Pairs(xs)| == (|xs| + 1) / 2
    ensures forall i :: 0 <= i < |Pairs(xs)| ==> |Pairs(xs)[i]| == 2
    ensures Flatten(Pairs(xs)) == xs + (if |xs| % 2 != 0 then [0.0] else [])
    decreases |xs|
  {
    var ys := if |xs| % 2 != 0 then xs + [0.0] else xs;
    if |ys| <= 2 {
      assert Flatten(Pairs(xs)) == ys + Flatten([]);
    } else {
      var rest := ys[2..];
      PairsChunks(rest);
      assert rest + [] == rest;
      assert Pairs(xs) == [ys[..2]] + Pairs(rest);
      assert Flatten(Pairs(xs)) == ys[..2] + Flatten(Pairs(rest));
      assert ys == ys[..2] + rest;
    }
  }

  // ---------------------------------------------------------------------
  // Bounds

  /** The minimum as minMax accumulates it, starting from MaxFloat64: never
      above that start nor above any reading, and either the start or one
      of the readings. */
  function MinFrom(xs: seq<real>): (lo: real)
    ensures lo <= MaxFloat64
    ensures forall i :: 0 <= i < |xs| ==> lo <= xs[i]
    ensures lo == MaxFloat64 || lo in xs
  {
    if xs == [] then MaxFloat64
    else
      var m, x := MinFrom(xs[..|xs| - 1]), xs[|xs| - 1];
      assert forall y :: y in xs[..|xs| - 1] ==> y in xs;
      if x < m then x else m
  }

  /** The maximum as minMax accumulates it, starting from
      SmallestNonzeroFloat64: never below that start nor below any reading,
      and either the start or one of the readings. */
  function MaxFrom(xs: seq<real>): (hi: real)
    ensures hi >= SmallestNonzeroFloat64
    ensures forall i :: 0 <= i < |xs| ==> hi >= xs[i]
    ensures hi == SmallestNonzeroFloat64 || hi in xs
  {
    if xs == [] then SmallestNonzeroFloat64
    else
      var m, x := MaxFrom(xs[..|xs| - 1]), xs[|xs| - 1];
      assert forall y :: y in xs[..|xs| - 1] ==> y in xs;
      if x > m then x else m
  }

  /** For data of finite doubles the minimum is one of the readings. */
  lemma MinIsReading(xs: seq<real>)
    requires exists i :: 0 <= i < |xs| && xs[i] <= MaxFloat64
    ensures MinFrom(xs) in xs
  {
    var i :| 0 <= i < |xs| && xs[i] <= MaxFloat64;
    if MinFrom(xs) == MaxFloat64 {
      assert xs[i] == MaxFloat64;
    }
  }

  /** For readings none of which is positive the maximum is the tiny
      positive start value, which is not one of the readings. */
  lemma NonPositiveMaxIsStart(xs: seq<real>)
    requires forall i :: 0 <= i < |xs| ==> xs[i] <= 0.0
    ensures MaxFrom(xs) == SmallestNonzeroFloat64 && MaxFrom(xs) !in xs
  {
  }

  /** minMax: one pass keeping the running minimum and maximum. */
  method MinMax(xs: seq<real>) returns (lo: real, hi: real)
    ensures lo == MinFrom(xs) && hi == MaxFrom(xs)
  {
    lo, hi := MaxFloat64, SmallestNonzeroFloat64;
    var i := 0;
    while i < |xs|
      invariant 0 <= i <= |xs|
      invariant lo == MinFrom(xs[..i]) && hi == MaxFrom(xs[..i])
    {
      var x := xs[i];
      assert xs[..i + 1][..i] == xs[..i];
      if x < lo {
        lo := x;
      }
      if x > hi {
        hi := x;
      }
      i := i + 1;
    }
    assert xs[..|xs|] == xs;
  }

  // ---------------------------------------------------------------------
  // The whole plot

  /** SimplePlot: "" for no data; otherwise the maximum on its own line,
      the grid, and the minimum. `quantize` stands for the floating-point
      steps that turn the chunks into whole dot counts (shift, scale,
      rounding), and `format` for printing with two decimals. */
  method SimplePlot(size: nat, data: seq<real>,
                    quantize: (real, real, nat, seq<seq<real>>) -> seq<(int, int)>,
                    format: real -> string)
    returns (vis: string)
    ensures data == [] ==> vis == ""
    ensures data != [] ==>
              vis == format(MaxFrom(data)) + "\n"
                     + Grid(size, quantize(MinFrom(data), MaxFrom(data), size, Pairs(data)))
                     + format(MinFrom(data))
  {
    if |data| == 0 {
      return "";
    }
    var lo, hi := MinMax(data);
    var ps := Pairs(data);
    var qs := quantize(lo, hi, size, ps);
    var grid := Render(size, qs);
    vis := format(hi) + "\n" + grid + format(lo);
  }
}
