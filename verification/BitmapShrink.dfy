/** Area-averaging reduction of a 24-bit bitmap (kitty_image.c), in exact arithmetic. */
module BitmapShrink {
  import opened CText

  /** Bytes per scan line, kept in a 16-bit word: `(dx+1)*3&0xfffc`. */
  function Stride(dx: nat): nat {
    ((dx + 1) * 3 % 0x1_0000) / 4 * 4
  }

  /** The widest bitmap whose stride is not cut off by the 16-bit word. */
  const MAX_WIDTH := 21844

  lemma StrideHoldsARow(dx: nat)
    ensures Stride(dx) >= 3 * dx <==> dx <= MAX_WIDTH
    ensures dx <= MAX_WIDTH ==> Stride(dx) % 4 == 0 && Stride(dx) < 3 * dx + 4
  {
  }

  /** A bitmap as a value: `l` bytes a row, three bytes a pixel. */
  datatype Image = Image(x: nat, y: nat, l: nat, b: seq<byte>) {
    predicate Valid() {
      3 * x <= l && |b| == l * y
    }

    function At(py: nat, px: nat, ch: nat): byte
      requires Valid() && py < y && px < x && ch < 3
    {
      b[Offset(py, px) + ch]
    }

    /** Where the three bytes of a pixel start. */
    function Offset(py: nat, px: nat): (u: nat)
      requires Valid() && py < y && px < x
      ensures u + 3 <= |b|
    {
      RowFits(py);
      py * l + 3 * px
    }

    lemma RowFits(py: nat)
      requires Valid() && py < y
      ensures 0 <= py * l && py * l + l <= |b|
    {
      assert (py + 1) * l <= y * l;
    }
  }

  class WorkBitmap {
    var x: nat
    var y: nat
    var l: nat
    var b: array<byte>

    constructor ()
      ensures x == y == l == 0 && b.Length == 0
    {
      x, y, l, b := 0, 0, 0, new byte[0];
    }

    function Value(): Image
      reads this, b
    {
      Image(x, y, l, b[..])
    }

    /** The bitmap is as large as asked, but its rows fit only up to the greatest width. */
    method CreateWorkingBitmap(dx: nat, dy: nat)
      requires dx < 0x1_0000 && dy < 0x1_0000 && Stride(dx) * dy <= 0x7FFF_FFFF
      modifies this
      ensures x == dx && y == dy && fresh(b)
      ensures l == Stride(dx) && b.Length == l * dy
      ensures Value().Valid() <==> dx <= MAX_WIDTH
    {
      x, y := dx, dy;
      l := Stride(dx);
      StrideHoldsARow(dx);
      b := new byte[l * dy];
    }
  }

  // ---------------------------------------------------------------- the specification

  function Min(p: int, q: int): int { if p < q then p else q }
  function Max(p: int, q: int): int { if p > q then p else q }

  /** Both axes are cut in `small * big` units: source pixel `p` is `small` units long and
      destination cell `c` is `big` units long. This is the length they share. */
  function Overlap(p: nat, c: nat, small: nat, big: nat): nat {
    Max(0, Min((p + 1) * small, (c + 1) * big) - Max(p * small, c * big))
  }

  /** The fraction of source pixel `p` that lies in destination cell `c`. */
  function Share(p: nat, c: nat, small: nat, big: nat): real
    requires small > 0
  {
    Overlap(p, c, small, big) as real / small as real
  }

  function Contribution(a: Image, bw: nat, bh: nat, r: nat, c: nat, ch: nat, y: nat, x: nat): real
    requires a.Valid() && 0 < bw && 0 < bh && ch < 3 && y < a.y && x < a.x
  {
    Weighted(a.At(y, x, ch) as real, Share(x, c, bw, a.x), Share(y, r, bh, a.y))
  }

  function Times(p: real, q: real): real {
    p * q
  }

  function Weighted(v: real, wx: real, wy: real): (r: real)
    ensures v == 0.0 || wx == 0.0 || wy == 0.0 ==> r == 0.0
  {
    v * (wx * wy)
  }

  /** What the first `n` pixels of source row `y` give to cell `(r, c)`. */
  function RowSum(a: Image, bw: nat, bh: nat, r: nat, c: nat, ch: nat, y: nat, n: nat): real
    requires a.Valid() && 0 < bw && 0 < bh && ch < 3 && y < a.y && n <= a.x
  {
    if n == 0 then 0.0
    else RowSum(a, bw, bh, r, c, ch, y, n - 1) + Contribution(a, bw, bh, r, c, ch, y, n - 1)
  }

  /** What the first `m` source rows give to cell `(r, c)`. */
  function AreaSum(a: Image, bw: nat, bh: nat, r: nat, c: nat, ch: nat, m: nat): real
    requires a.Valid() && 0 < bw && 0 < bh && ch < 3 && m <= a.y
  {
    if m == 0 then 0.0
    else AreaSum(a, bw, bh, r, c, ch, m - 1) + RowSum(a, bw, bh, r, c, ch, m - 1, a.x)
  }

  /** The scale factor `k` of the source. */
  function Scale(ax: nat, ay: nat, bw: nat, bh: nat): real
    requires 0 < ax && 0 < ay
  {
    assert ax * ay > 0;
    (bw * bh) as real / (ax * ay) as real
  }

  /** The averaged value of a cell, before rounding. */
  function Average(a: Image, bw: nat, bh: nat, r: nat, c: nat, ch: nat): real
    requires a.Valid() && 0 < a.x && 0 < a.y && 0 < bw && 0 < bh && ch < 3
  {
    Times(AreaSum(a, bw, bh, r, c, ch, a.y), Scale(a.x, a.y, bw, bh))
  }

  // ---------------------------------------------------------------- weights

  function Clamp(v: int, hi: nat): nat {
    Max(0, Min(v, hi))
  }

  function OverlapSum(n: nat, c: nat, small: nat, big: nat): nat {
    if n == 0 then 0 else OverlapSum(n - 1, c, small, big) + Overlap(n - 1, c, small, big)
  }

  /** The first `n` pixels cover exactly the part of cell `c` that lies before `n * small`. */
  lemma {:induction false} OverlapSumIsCovered(n: nat, c: nat, small: nat, big: nat)
    ensures OverlapSum(n, c, small, big) == Clamp(n * small - c * big, big)
  {
    assert (c + 1) * big == c * big + big;
    if n == 0 {
      assert 0 <= c * big;
      assert 0 * small == 0;
    } else {
      OverlapSumIsCovered(n - 1, c, small, big);
      assert n * small == (n - 1) * small + small;
    }
  }

  lemma OverlapIsSymmetric(p: nat, c: nat, small: nat, big: nat)
    ensures Overlap(p, c, small, big) == Overlap(c, p, big, small)
  {
  }

  function ShareSum(n: nat, c: nat, small: nat, big: nat): real
    requires small > 0
  {
    if n == 0 then 0.0 else ShareSum(n - 1, c, small, big) + Share(n - 1, c, small, big)
  }

  function SpreadSum(p: nat, n: nat, small: nat, big: nat): real
    requires small > 0
  {
    if n == 0 then 0.0 else SpreadSum(p, n - 1, small, big) + Share(p, n - 1, small, big)
  }

  lemma {:induction false} ShareSumIsOverlapSum(n: nat, c: nat, small: nat, big: nat)
    requires small > 0
    ensures ShareSum(n, c, small, big) == OverlapSum(n, c, small, big) as real / small as real
  {
    if n > 0 {
      ShareSumIsOverlapSum(n - 1, c, small, big);
      AddFractions(OverlapSum(n - 1, c, small, big) as real, Overlap(n - 1, c, small, big) as real, small as real);
    }
  }

  lemma {:induction false} SpreadSumIsOverlapSum(p: nat, n: nat, small: nat, big: nat)
    requires small > 0
    ensures SpreadSum(p, n, small, big) == OverlapSum(n, p, big, small) as real / small as real
  {
    if n > 0 {
      SpreadSumIsOverlapSum(p, n - 1, small, big);
      OverlapIsSymmetric(p, n - 1, small, big);
      AddFractions(OverlapSum(n - 1, p, big, small) as real, Overlap(n - 1, p, big, small) as real, small as real);
    }
  }

  lemma WholeFraction(d: nat)
    requires 0 < d
    ensures d as real / d as real == 1.0
    ensures 0.0 / d as real == 0.0
  {
  }

  lemma AddFractions(u: real, v: real, d: real)
    requires d > 0.0
    ensures u / d + v / d == (u + v) / d
  {
  }

  lemma ScaleUp(p: nat, small: nat, big: nat)
    requires p < big
    ensures p * small + small <= big * small
  {
    assert (p + 1) * small <= big * small;
  }

  /** Every destination cell receives `big / small` source pixels in all. */
  lemma CellWeight(c: nat, small: nat, big: nat)
    requires 0 < small && c < small
    ensures ShareSum(big, c, small, big) == big as real / small as real
  {
    OverlapSumIsCovered(big, c, small, big);
    ScaleUp(c, big, small);
    ShareSumIsOverlapSum(big, c, small, big);
  }

  /** Every source pixel is given away completely. */
  lemma PixelWeight(p: nat, small: nat, big: nat)
    requires 0 < small && p < big
    ensures SpreadSum(p, small, small, big) == 1.0
  {
    OverlapSumIsCovered(small, p, big, small);
    ScaleUp(p, small, big);
    assert OverlapSum(small, p, big, small) == small;
    SpreadSumIsOverlapSum(p, small, small, big);
    WholeFraction(small);
  }

  // ---------------------------------------------------------------- one axis of the single pass

  /** `n` is the modular counter of one axis before source pixel `p` is added: `p` starts in
      cell `c`, `n` units after that cell's start. */
  predicate Tracks(n: nat, p: nat, c: nat, small: nat, big: nat) {
    0 < small <= big && n < big && p * small == c * big + n
  }

  lemma Successor(p: nat, small: nat)
    ensures (p + 1) * small == p * small + small
  {
  }

  lemma MulLe(p: nat, q: nat, m: nat)
    requires p <= q
    ensures p * m <= q * m
  {
  }

  /** What one source pixel overlaps, read off the counter: at most two cells. */
  lemma OverlapsOfPixel(n: nat, p: nat, c: nat, small: nat, big: nat, other: nat)
    requires Tracks(n, p, c, small, big)
    ensures n + small <= big ==> Overlap(p, c, small, big) == small && Overlap(p, c + 1, small, big) == 0
    ensures n + small > big ==> Overlap(p, c, small, big) == big - n && Overlap(p, c + 1, small, big) == n + small - big
    ensures other != c && other != c + 1 ==> Overlap(p, other, small, big) == 0
  {
    Successor(p, small);
    Successor(c, big);
    Successor(c + 1, big);
    Successor(other, big);
    if other < c {
      MulLe(other + 1, c, big);
    } else if other > c + 1 {
      MulLe(c + 2, other, big);
    }
  }

  lemma SharesOfPixel(n: nat, p: nat, c: nat, small: nat, big: nat, other: nat)
    requires Tracks(n, p, c, small, big)
    ensures n + small <= big ==> Share(p, c, small, big) == 1.0 && Share(p, c + 1, small, big) == 0.0
    ensures n + small > big ==>
      && Share(p, c + 1, small, big) == (n + small - big) as real / small as real
      && Share(p, c, small, big) == 1.0 - Share(p, c + 1, small, big)
    ensures other != c && other != c + 1 ==> Share(p, other, small, big) == 0.0
  {
    OverlapsOfPixel(n, p, c, small, big, other);
    if n + small > big {
      AddFractions((big - n) as real, (n + small - big) as real, small as real);
    }
    WholeFraction(small);
  }

  /** The counter after one more source pixel, and the cell it is then in. */
  lemma CounterStep(n: nat, p: nat, c: nat, small: nat, big: nat)
    requires Tracks(n, p, c, small, big) && p < big
    ensures c < small
    ensures n + small > big ==> c + 1 < small
    ensures if n + small >= big then Tracks(n + small - big, p + 1, c + 1, small, big)
            else Tracks(n + small, p + 1, c, small, big)
  {
    Successor(p, small);
    Successor(c, big);
    MulLe(p + 1, big, small);
    if c >= small {
      MulLe(small, c, big);
      assert false;
    }
    if n + small > big && c + 1 == small {
      assert false;
    }
  }

  /** After all `big` pixels the counter is back at the start of the cell after the last. */
  lemma CounterEnd(n: nat, c: nat, small: nat, big: nat)
    requires Tracks(n, big, c, small, big)
    ensures c == small && n == 0
  {
    if c < small {
      MulLe(c + 1, small, big);
      Successor(c, big);
      assert false;
    }
    if c > small {
      MulLe(small + 1, c, big);
      Successor(small, big);
      assert false;
    }
  }

  // ---------------------------------------------------------------- the accumulator's index

  function Quot(t: nat, d: nat): (q: nat)
    requires 0 < d
    ensures q * d <= t < q * d + d
  {
    t / d
  }

  lemma QuotIsUnique(t: nat, d: nat, q: nat)
    requires 0 < d && q * d <= t < q * d + d
    ensures Quot(t, d) == q
  {
    var p := Quot(t, d);
    if p < q {
      Successor(p, d);
      MulLe(p + 1, q, d);
    } else if q < p {
      Successor(q, d);
      MulLe(q + 1, p, d);
    }
  }

  function Row(t: nat, bw: nat): nat
    requires 0 < bw
  {
    Quot(t, 3 * bw)
  }

  function Col(t: nat, bw: nat): (c: nat)
    requires 0 < bw
    ensures c < bw
  {
    (t - Quot(t, 3 * bw) * (3 * bw)) / 3
  }

  function Chan(t: nat, bw: nat): (ch: nat)
    requires 0 < bw
    ensures ch < 3
  {
    (t - Quot(t, 3 * bw) * (3 * bw)) % 3
  }

  lemma IndexParts(t: nat, bw: nat)
    requires 0 < bw
    ensures t == Row(t, bw) * (3 * bw) + 3 * Col(t, bw) + Chan(t, bw)
  {
  }

  lemma IndexOf(r: nat, c: nat, ch: nat, bw: nat, t: nat)
    requires c < bw && ch < 3 && t == r * (3 * bw) + 3 * c + ch
    ensures Row(t, bw) == r && Col(t, bw) == c && Chan(t, bw) == ch
  {
    QuotIsUnique(t, 3 * bw, r);
  }

  /** What cell index `t` holds after `y` full rows and `x` pixels of the next. */
  ghost function Progress(a: Image, bw: nat, bh: nat, t: nat, y: nat, x: nat): real
    requires a.Valid() && 0 < bw && 0 < bh && y < a.y && x <= a.x
  {
    AreaSum(a, bw, bh, Row(t, bw), Col(t, bw), Chan(t, bw), y)
      + RowSum(a, bw, bh, Row(t, bw), Col(t, bw), Chan(t, bw), y, x)
  }

  /** The byte of the pixel at `u` that falls on index `t` when its first `n` channels land on `j..j+n`. */
  function Hit(bits: seq<byte>, u: nat, t: nat, j: nat, n: nat): real
    requires n <= 3 && u + 3 <= |bits|
  {
    if j <= t < j + n then bits[u + t - j] as real else 0.0
  }

  /** Four weighted copies of a pixel: at `j`, at its right-hand neighbour, and one row below each. */
  function Give(bits: seq<byte>, u: nat, t: nat, j: nat, df: nat, n: nat,
                sx0: real, sx1: real, sy0: real, sy1: real): real
    requires n <= 3 && u + 3 <= |bits|
  {
    Weighted(Hit(bits, u, t, j, n), sx0, sy0) + Weighted(Hit(bits, u, t, j + 3, n), sx1, sy0)
      + Weighted(Hit(bits, u, t, j + df, n), sx0, sy1) + Weighted(Hit(bits, u, t, j + df + 3, n), sx1, sy1)
  }

  lemma HitIsCell(bits: seq<byte>, u: nat, t: nat, r: nat, c: nat, bw: nat, j: nat)
    requires u + 3 <= |bits| && c < bw && j == r * (3 * bw) + 3 * c
    ensures Hit(bits, u, t, j, 3) ==
            if Row(t, bw) == r && Col(t, bw) == c then bits[u + Chan(t, bw)] as real else 0.0
  {
    IndexParts(t, bw);
    if j <= t < j + 3 {
      IndexOf(r, c, t - j, bw, t);
    }
  }

  /** The four copies with the shares of the pixel's own cell and its neighbours are exactly
      the pixel's contribution, whatever cell `t` is. */
  lemma GiveIsContribution(a: Image, bw: nat, bh: nat, t: nat, y: nat, x: nat,
                           r: nat, c: nat, nx: nat, ny: nat, j: nat)
    requires a.Valid() && y < a.y && x < a.x && j == r * (3 * bw) + 3 * c
    requires Tracks(nx, x, c, bw, a.x) && Tracks(ny, y, r, bh, a.y)
    ensures
      var sx0, sx1 := Share(x, c, bw, a.x), Share(x, c + 1, bw, a.x);
      var sy0, sy1 := Share(y, r, bh, a.y), Share(y, r + 1, bh, a.y);
      Give(a.b, a.Offset(y, x), t, j, 3 * bw, 3, sx0, sx1, sy0, sy1)
        == Contribution(a, bw, bh, Row(t, bw), Col(t, bw), Chan(t, bw), y, x)
  {
    assert 0 < bw && 0 < bh;
    hide Share, Row, Col, Chan, Tracks, Give, Weighted;
    var tr, tc := Row(t, bw), Col(t, bw);
    CounterStep(nx, x, c, bw, a.x);
    SharesOfPixel(nx, x, c, bw, a.x, tc);
    SharesOfPixel(ny, y, r, bh, a.y, tr);
    GiveIsWeighted(a.b, a.Offset(y, x), t, r, c, bw, j,
                   Share(x, c, bw, a.x), Share(x, c + 1, bw, a.x), Share(y, r, bh, a.y), Share(y, r + 1, bh, a.y),
                   Share(x, tc, bw, a.x), Share(y, tr, bh, a.y));
  }

  lemma GiveIsWeighted(bits: seq<byte>, u: nat, t: nat, r: nat, c: nat, bw: nat, j: nat,
                       sx0: real, sx1: real, sy0: real, sy1: real, sx: real, sy: real)
    requires u + 3 <= |bits| && c < bw && (c + 1 < bw || sx1 == 0.0) && j == r * (3 * bw) + 3 * c
    requires sx == if Col(t, bw) == c then sx0 else if Col(t, bw) == c + 1 then sx1 else 0.0
    requires sy == if Row(t, bw) == r then sy0 else if Row(t, bw) == r + 1 then sy1 else 0.0
    ensures Give(bits, u, t, j, 3 * bw, 3, sx0, sx1, sy0, sy1)
            == Weighted(bits[u + Chan(t, bw)] as real, sx, sy)
  {
    hide Row, Col, Chan, Hit;
    var df := 3 * bw;
    HitsAround(bits, u, t, r, c, bw, j);
    PickCell(Row(t, bw), Col(t, bw), r, c, bits[u + Chan(t, bw)] as real,
             Hit(bits, u, t, j, 3), Hit(bits, u, t, j + 3, 3),
             Hit(bits, u, t, j + df, 3), Hit(bits, u, t, j + df + 3, 3),
             sx0, sx1, sy0, sy1, sx, sy);
  }

  lemma HitsAround(bits: seq<byte>, u: nat, t: nat, r: nat, c: nat, bw: nat, j: nat)
    requires u + 3 <= |bits| && c < bw && j == r * (3 * bw) + 3 * c
    ensures
      var df, tr, tc, v := 3 * bw, Row(t, bw), Col(t, bw), bits[u + Chan(t, bw)] as real;
      && Hit(bits, u, t, j, 3) == (if tr == r && tc == c then v else 0.0)
      && Hit(bits, u, t, j + df, 3) == (if tr == r + 1 && tc == c then v else 0.0)
      && (c + 1 < bw ==> Hit(bits, u, t, j + 3, 3) == if tr == r && tc == c + 1 then v else 0.0)
      && (c + 1 < bw ==> Hit(bits, u, t, j + df + 3, 3) == if tr == r + 1 && tc == c + 1 then v else 0.0)
  {
    Successor(r, 3 * bw);
    HitIsCell(bits, u, t, r, c, bw, j);
    HitIsCell(bits, u, t, r + 1, c, bw, j + 3 * bw);
    if c + 1 < bw {
      HitIsCell(bits, u, t, r, c + 1, bw, j + 3);
      HitIsCell(bits, u, t, r + 1, c + 1, bw, j + 3 * bw + 3);
    }
  }

  /** At most one of four hits is at cell `(tr, tc)`, and it carries that cell's weight. */
  lemma PickCell(tr: nat, tc: nat, r: nat, c: nat, v: real, h0: real, h1: real, h2: real, h3: real,
                 sx0: real, sx1: real, sy0: real, sy1: real, sx: real, sy: real)
    requires h0 == if tr == r && tc == c then v else 0.0
    requires h2 == if tr == r + 1 && tc == c then v else 0.0
    requires sx1 == 0.0 || (h1 == if tr == r && tc == c + 1 then v else 0.0)
    requires sx1 == 0.0 || (h3 == if tr == r + 1 && tc == c + 1 then v else 0.0)
    requires sx == if tc == c then sx0 else if tc == c + 1 then sx1 else 0.0
    requires sy == if tr == r then sy0 else if tr == r + 1 then sy1 else 0.0
    ensures Weighted(h0, sx0, sy0) + Weighted(h1, sx1, sy0) + Weighted(h2, sx0, sy1) + Weighted(h3, sx1, sy1)
            == Weighted(v, sx, sy)
  {
    if sx1 == 0.0 {
      assert sx1 * sy0 == 0.0 && sx1 * sy1 == 0.0;
    }
  }

  // ---------------------------------------------------------------- the single pass

  function Only(t: nat, k: nat, w: real): real {
    if t == k then w else 0.0
  }

  /** Channel `n` of a pixel adds its four weighted copies and nothing else. */
  lemma GiveStep(bits: seq<byte>, u: nat, t: nat, j: nat, df: nat, n: nat, sx0: real, sx1: real, sy0: real, sy1: real)
    requires n < 3 && u + 3 <= |bits|
    ensures
      var v := bits[u + n] as real;
      Give(bits, u, t, j, df, n + 1, sx0, sx1, sy0, sy1) == Give(bits, u, t, j, df, n, sx0, sx1, sy0, sy1)
        + Only(t, j + n, Weighted(v, sx0, sy0)) + Only(t, j + n + 3, Weighted(v, sx1, sy0))
        + Only(t, j + n + df, Weighted(v, sx0, sy1)) + Only(t, j + n + df + 3, Weighted(v, sx1, sy1))
  {
  }

  lemma GiveStepRows(bits: seq<byte>, u: nat, t: nat, j: nat, df: nat, n: nat, sy0: real, sy1: real)
    requires n < 3 && u + 3 <= |bits|
    ensures Give(bits, u, t, j, df, n + 1, 1.0, 0.0, sy0, sy1) == Give(bits, u, t, j, df, n, 1.0, 0.0, sy0, sy1)
            + Only(t, j + n, Weighted(bits[u + n] as real, 1.0, sy0))
            + Only(t, j + n + df, Weighted(bits[u + n] as real, 1.0, sy1))
  {
    GiveStep(bits, u, t, j, df, n, 1.0, 0.0, sy0, sy1);
    hide Give;
  }

  lemma GiveStepColumns(bits: seq<byte>, u: nat, t: nat, j: nat, df: nat, n: nat, sx0: real, sx1: real)
    requires n < 3 && u + 3 <= |bits|
    ensures Give(bits, u, t, j, df, n + 1, sx0, sx1, 1.0, 0.0) == Give(bits, u, t, j, df, n, sx0, sx1, 1.0, 0.0)
            + Only(t, j + n, Weighted(bits[u + n] as real, sx0, 1.0))
            + Only(t, j + n + 3, Weighted(bits[u + n] as real, sx1, 1.0))
  {
    GiveStep(bits, u, t, j, df, n, sx0, sx1, 1.0, 0.0);
    hide Give;
  }

  method Bump(f: array<real>, k: nat, w: real)
    requires k < f.Length
    modifies f
    ensures forall t: nat | t < f.Length :: f[t] == old(f[t]) + Only(t, k, w)
  {
    f[k] := f[k] + w;
  }

  /** Both axes straddle: the pixel is shared between four cells. */
  method AddToFourCells(f: array<real>, j: nat, df: nat, src: array<byte>, ux: nat,
                        qx0: real, qx1: real, qy0: real, qy1: real)
    requires df >= 6 && j + df + 6 <= f.Length && ux + 3 <= src.Length
    modifies f
    ensures forall t: nat | t < f.Length :: f[t] == old(f[t]) + Give(src[..], ux, t, j, df, 3, qx0, qx1, qy0, qy1)
  {
    hide Only, Weighted;
    ghost var bits := src[..];
    var i := 0;
    while i < 3
      invariant 0 <= i <= 3 && bits == src[..]
      invariant forall t: nat | t < f.Length :: f[t] == old(f[t]) + Give(bits, ux, t, j, df, i, qx0, qx1, qy0, qy1)
    {
      var v := src[ux + i] as real;
      label Channel:
      Bump(f, j + i, Weighted(v, qx0, qy0));
      Bump(f, j + i + 3, Weighted(v, qx1, qy0));
      Bump(f, j + i + df, Weighted(v, qx0, qy1));
      Bump(f, j + i + df + 3, Weighted(v, qx1, qy1));
      forall t: nat | t < f.Length
        ensures f[t] == old(f[t]) + Give(bits, ux, t, j, df, i + 1, qx0, qx1, qy0, qy1)
      {
        assert old@Channel(f[t]) == old(f[t]) + Give(bits, ux, t, j, df, i, qx0, qx1, qy0, qy1);
        GiveStep(bits, ux, t, j, df, i, qx0, qx1, qy0, qy1);
      }
      i := i + 1;
    }
  }

  /** Only the vertical axis straddles. */
  method AddToTwoRows(f: array<real>, j: nat, df: nat, src: array<byte>, ux: nat, qy0: real, qy1: real)
    requires j + df + 3 <= f.Length && ux + 3 <= src.Length
    modifies f
    ensures forall t: nat | t < f.Length :: f[t] == old(f[t]) + Give(src[..], ux, t, j, df, 3, 1.0, 0.0, qy0, qy1)
  {
    ghost var bits := src[..];
    var i := 0;
    while i < 3
      invariant 0 <= i <= 3 && bits == src[..]
      invariant forall t: nat | t < f.Length :: f[t] == old(f[t]) + Give(bits, ux, t, j, df, i, 1.0, 0.0, qy0, qy1)
    {
      hide Give, Only, Weighted;
      var v := src[ux + i] as real;
      var w0, w1 := Weighted(v, 1.0, qy0), Weighted(v, 1.0, qy1);
      label Channel:
      Bump(f, j + i, w0);
      Bump(f, j + df + i, w1);
      forall t: nat | t < f.Length
        ensures f[t] == old(f[t]) + Give(bits, ux, t, j, df, i + 1, 1.0, 0.0, qy0, qy1)
      {
        assert old@Channel(f[t]) == old(f[t]) + Give(bits, ux, t, j, df, i, 1.0, 0.0, qy0, qy1);
        GiveStepRows(bits, ux, t, j, df, i, qy0, qy1);
      }
      i := i + 1;
    }
  }

  /** Only the horizontal axis straddles. */
  method AddToTwoColumns(f: array<real>, j: nat, df: nat, src: array<byte>, ux: nat, qx0: real, qx1: real)
    requires j + 6 <= f.Length && ux + 3 <= src.Length
    modifies f
    ensures forall t: nat | t < f.Length :: f[t] == old(f[t]) + Give(src[..], ux, t, j, df, 3, qx0, qx1, 1.0, 0.0)
  {
    ghost var bits := src[..];
    var i := 0;
    while i < 3
      invariant 0 <= i <= 3 && bits == src[..]
      invariant forall t: nat | t < f.Length :: f[t] == old(f[t]) + Give(bits, ux, t, j, df, i, qx0, qx1, 1.0, 0.0)
    {
      hide Give, Only, Weighted;
      var v := src[ux + i] as real;
      var w0, w1 := Weighted(v, qx0, 1.0), Weighted(v, qx1, 1.0);
      label Channel:
      Bump(f, j + i, w0);
      Bump(f, j + i + 3, w1);
      forall t: nat | t < f.Length
        ensures f[t] == old(f[t]) + Give(bits, ux, t, j, df, i + 1, qx0, qx1, 1.0, 0.0)
      {
        assert old@Channel(f[t]) == old(f[t]) + Give(bits, ux, t, j, df, i, qx0, qx1, 1.0, 0.0);
        GiveStepColumns(bits, ux, t, j, df, i, qx0, qx1);
      }
      i := i + 1;
    }
  }

  /** The pixel lies in one cell. */
  method AddToOneCell(f: array<real>, j: nat, df: nat, src: array<byte>, ux: nat)
    requires j + 3 <= f.Length && ux + 3 <= src.Length
    modifies f
    ensures forall t: nat | t < f.Length :: f[t] == old(f[t]) + Give(src[..], ux, t, j, df, 3, 1.0, 0.0, 1.0, 0.0)
  {
    ghost var bits := src[..];
    var i := 0;
    while i < 3
      invariant 0 <= i <= 3 && bits == src[..]
      invariant forall t: nat | t < f.Length :: f[t] == old(f[t]) + Give(bits, ux, t, j, df, i, 1.0, 0.0, 1.0, 0.0)
    {
      hide Give;
      var v := src[ux + i] as real;
      label Channel:
      Bump(f, j + i, v);
      forall t: nat | t < f.Length
        ensures f[t] == old(f[t]) + Give(bits, ux, t, j, df, i + 1, 1.0, 0.0, 1.0, 0.0)
      {
        assert old@Channel(f[t]) == old(f[t]) + Give(bits, ux, t, j, df, i, 1.0, 0.0, 1.0, 0.0);
        GiveStep(bits, ux, t, j, df, i, 1.0, 0.0, 1.0, 0.0);
      }
      i := i + 1;
    }
  }

  ghost predicate Holds(s: seq<real>, a: Image, bw: nat, bh: nat, y: nat, x: nat)
    requires a.Valid() && 0 < bw && 0 < bh && y < a.y && x <= a.x
  {
    forall t: nat | t < |s| :: s[t] == Progress(a, bw, bh, t, y, x)
  }

  /** Giving a pixel's four shares to the accumulator takes it one pixel further. */
  lemma PixelDone(a: Image, bw: nat, bh: nat, y: nat, x: nat, r: nat, c: nat, nx: nat, ny: nat, j: nat,
                  before: seq<real>, after: seq<real>, sx0: real, sx1: real, sy0: real, sy1: real)
    requires a.Valid() && y < a.y && x < a.x && j == r * (3 * bw) + 3 * c
    requires Tracks(nx, x, c, bw, a.x) && Tracks(ny, y, r, bh, a.y)
    requires sx0 == Share(x, c, bw, a.x) && sx1 == Share(x, c + 1, bw, a.x)
    requires sy0 == Share(y, r, bh, a.y) && sy1 == Share(y, r + 1, bh, a.y)
    requires |before| == |after| && Holds(before, a, bw, bh, y, x)
    requires forall t: nat | t < |after| ::
               after[t] == before[t] + Give(a.b, a.Offset(y, x), t, j, 3 * bw, 3, sx0, sx1, sy0, sy1)
    ensures Holds(after, a, bw, bh, y, x + 1)
  {
    forall t: nat | t < |after|
      ensures after[t] == Progress(a, bw, bh, t, y, x + 1)
    {
      GiveIsContribution(a, bw, bh, t, y, x, r, c, nx, ny, j);
      hide Share, Give, Tracks, Row, Col, Chan, Contribution;
      assert before[t] == Progress(a, bw, bh, t, y, x);
    }
  }

  /** The last cell of a row ends inside the accumulator. */
  lemma CellInside(r: nat, c: nat, j: nat, bw: nat, bh: nat, nf: nat)
    requires r < bh && c < bw && j == r * (3 * bw) + 3 * c && nf == 3 * bw * bh
    ensures j + 3 <= nf
    ensures c + 1 < bw ==> j + 6 <= nf
    ensures r + 1 < bh ==> j + 3 * bw + 3 <= nf
    ensures r + 1 < bh && c + 1 < bw ==> j + 3 * bw + 6 <= nf
  {
    var df := 3 * bw;
    assert nf == bh * df;
    Successor(r, df);
    MulLe(r + 1, bh, df);
    if r + 1 < bh {
      Successor(r + 1, df);
      MulLe(r + 2, bh, df);
    }
  }

  /** One source row whose pixels straddle two destination rows; `ny` has this row added already. */
  method SpreadSplitRow(f: array<real>, a: WorkBitmap, bw: nat, bh: nat, uy: nat, ny: nat, j0: nat,
    ghost y: nat, ghost r: nat, ghost my: nat) returns (j: nat)
    requires 0 < bw <= a.x <= MAX_WIDTH && 0 < bh <= a.y
    requires a.Value().Valid() && f.Length == 3 * bw * bh
    requires y < a.y && uy == y * a.l && j0 == r * (3 * bw)
    requires a.y < ny && ny == my + bh && Tracks(my, y, r, bh, a.y)
    requires Holds(f[..], a.Value(), bw, bh, y, 0)
    modifies f
    ensures j == j0 + 3 * bw && Holds(f[..], a.Value(), bw, bh, y, a.x)
  {
    ghost var img := a.Value();
    var qy1 := (ny - a.y) as real / bh as real;
    var qy0 := 1.0 - qy1;
    var df := 3 * bw;
    var ux: nat, nx: nat, x: nat := uy, 0, 0;
    ghost var c: nat := 0;
    j := j0;
    CounterStep(my, y, r, bh, a.y);
    SharesOfPixel(my, y, r, bh, a.y, r);
    while x < a.x
      invariant x <= a.x && a.Value() == img
      invariant Tracks(nx, x, c, bw, a.x) && j == j0 + 3 * c && ux == uy + 3 * x
      invariant Holds(f[..], img, bw, bh, y, x)
    {
      hide Tracks, Holds, Share, Give;
      ghost var before, mx, jx := f[..], nx, j;
      CounterStep(nx, x, c, bw, a.x);
      SharesOfPixel(nx, x, c, bw, a.x, c);
      CellInside(r, c, j, bw, bh, f.Length);
      assert ux == img.Offset(y, x);
      nx := nx + bw;
      assert nx < 0x1_0000;
      if nx > a.x {
        var qx1 := (nx - a.x) as real / bw as real;
        var qx0 := 1.0 - qx1;
        AddToFourCells(f, j, df, a.b, ux, qx0, qx1, qy0, qy1);
        PixelDone(img, bw, bh, y, x, r, c, mx, my, jx, before, f[..], qx0, qx1, qy0, qy1);
        j := j + 3;
      } else {
        AddToTwoRows(f, j, df, a.b, ux, qy0, qy1);
        PixelDone(img, bw, bh, y, x, r, c, mx, my, jx, before, f[..], 1.0, 0.0, qy0, qy1);
      }
      ux := ux + 3;
      if nx >= a.x {
        nx := nx - a.x;
        c := c + 1;
      }
      if nx == 0 {
        j := j + 3;
      }
      x := x + 1;
    }
    CounterEnd(nx, c, bw, a.x);
  }

  /** One source row whose pixels lie in one destination row. */
  method SpreadWholeRow(f: array<real>, a: WorkBitmap, bw: nat, bh: nat, uy: nat, ny: nat, j0: nat,
    ghost y: nat, ghost r: nat, ghost my: nat) returns (j: nat)
    requires 0 < bw <= a.x <= MAX_WIDTH && 0 < bh <= a.y
    requires a.Value().Valid() && f.Length == 3 * bw * bh
    requires y < a.y && uy == y * a.l && j0 == r * (3 * bw)
    requires ny <= a.y && ny == my + bh && Tracks(my, y, r, bh, a.y)
    requires Holds(f[..], a.Value(), bw, bh, y, 0)
    modifies f
    ensures j == j0 + 3 * bw && Holds(f[..], a.Value(), bw, bh, y, a.x)
  {
    ghost var img := a.Value();
    var df := 3 * bw;
    var ux: nat, nx: nat, x: nat := uy, 0, 0;
    ghost var c: nat := 0;
    j := j0;
    CounterStep(my, y, r, bh, a.y);
    SharesOfPixel(my, y, r, bh, a.y, r);
    while x < a.x
      invariant x <= a.x && a.Value() == img
      invariant Tracks(nx, x, c, bw, a.x) && j == j0 + 3 * c && ux == uy + 3 * x
      invariant Holds(f[..], img, bw, bh, y, x)
    {
      hide Tracks, Holds, Share, Give;
      ghost var before, mx, jx := f[..], nx, j;
      CounterStep(nx, x, c, bw, a.x);
      SharesOfPixel(nx, x, c, bw, a.x, c);
      CellInside(r, c, j, bw, bh, f.Length);
      assert ux == img.Offset(y, x);
      nx := nx + bw;
      assert nx < 0x1_0000;
      if nx > a.x {
        var qx1 := (nx - a.x) as real / bw as real;
        var qx0 := 1.0 - qx1;
        AddToTwoColumns(f, j, df, a.b, ux, qx0, qx1);
        PixelDone(img, bw, bh, y, x, r, c, mx, my, jx, before, f[..], qx0, qx1, 1.0, 0.0);
        j := j + 3;
      } else {
        AddToOneCell(f, j, df, a.b, ux);
        PixelDone(img, bw, bh, y, x, r, c, mx, my, jx, before, f[..], 1.0, 0.0, 1.0, 0.0);
      }
      ux := ux + 3;
      if nx >= a.x {
        nx := nx - a.x;
        c := c + 1;
      }
      if nx == 0 {
        j := j + 3;
      }
      x := x + 1;
    }
    CounterEnd(nx, c, bw, a.x);
  }

  // ---------------------------------------------------------------- what the average means

  lemma WeightedAdds(v: real, p: real, q: real, w: real)
    ensures Weighted(v, p + q, w) == Weighted(v, p, w) + Weighted(v, q, w)
    ensures Weighted(v, w, p + q) == Weighted(v, w, p) + Weighted(v, w, q)
  {
  }

  lemma WholeWeight(v: real)
    ensures Weighted(v, 1.0, 1.0) == v
  {
  }

  lemma WeightedMonotone(u: real, v: real, p: real, q: real)
    requires u <= v && 0.0 <= p && 0.0 <= q
    ensures Weighted(u, p, q) <= Weighted(v, p, q)
  {
    var w := p * q;
    assert w >= 0.0;
    assert Weighted(u, p, q) == u * w && Weighted(v, p, q) == v * w;
    hide Weighted;
    MulMonotone(u, v, w);
  }

  lemma ShareIsNonNegative(p: nat, c: nat, small: nat, big: nat)
    requires small > 0
    ensures 0.0 <= Share(p, c, small, big)
  {
  }

  /** Channel `ch` of every pixel lies between `lo` and `hi`. */
  ghost predicate Within(a: Image, ch: nat, lo: byte, hi: byte)
    requires a.Valid() && ch < 3
  {
    forall y: nat, x: nat | y < a.y && x < a.x :: lo <= a.At(y, x, ch) <= hi
  }

  lemma {:induction false} RowSumBounds(a: Image, bw: nat, bh: nat, r: nat, c: nat, ch: nat, y: nat, n: nat,
                                        lo: byte, hi: byte)
    requires a.Valid() && 0 < bw && 0 < bh && ch < 3 && y < a.y && n <= a.x && Within(a, ch, lo, hi)
    ensures Weighted(lo as real, ShareSum(n, c, bw, a.x), Share(y, r, bh, a.y)) <= RowSum(a, bw, bh, r, c, ch, y, n)
    ensures RowSum(a, bw, bh, r, c, ch, y, n) <= Weighted(hi as real, ShareSum(n, c, bw, a.x), Share(y, r, bh, a.y))
  {
    if n > 0 {
      RowSumBounds(a, bw, bh, r, c, ch, y, n - 1, lo, hi);
      var s, sx, sy := ShareSum(n - 1, c, bw, a.x), Share(n - 1, c, bw, a.x), Share(y, r, bh, a.y);
      ShareIsNonNegative(n - 1, c, bw, a.x);
      ShareIsNonNegative(y, r, bh, a.y);
      hide Weighted, Share;
      var v := a.At(y, n - 1, ch);
      WeightedMonotone(lo as real, v as real, sx, sy);
      WeightedMonotone(v as real, hi as real, sx, sy);
      WeightedAdds(lo as real, s, sx, sy);
      WeightedAdds(hi as real, s, sx, sy);
    }
  }

  lemma {:induction false} AreaSumBounds(a: Image, bw: nat, bh: nat, r: nat, c: nat, ch: nat, m: nat,
                                         lo: byte, hi: byte)
    requires a.Valid() && 0 < bw && 0 < bh && ch < 3 && m <= a.y && Within(a, ch, lo, hi)
    ensures Weighted(lo as real, ShareSum(a.x, c, bw, a.x), ShareSum(m, r, bh, a.y)) <= AreaSum(a, bw, bh, r, c, ch, m)
    ensures AreaSum(a, bw, bh, r, c, ch, m) <= Weighted(hi as real, ShareSum(a.x, c, bw, a.x), ShareSum(m, r, bh, a.y))
  {
    if m > 0 {
      AreaSumBounds(a, bw, bh, r, c, ch, m - 1, lo, hi);
      RowSumBounds(a, bw, bh, r, c, ch, m - 1, a.x, lo, hi);
      hide Weighted, Share;
      var w := ShareSum(a.x, c, bw, a.x);
      WeightedAdds(lo as real, ShareSum(m - 1, r, bh, a.y), Share(m - 1, r, bh, a.y), w);
      WeightedAdds(hi as real, ShareSum(m - 1, r, bh, a.y), Share(m - 1, r, bh, a.y), w);
    }
  }

  lemma MulAssoc(u: real, v: real, w: real, uv: real, vw: real)
    requires uv == u * v && vw == v * w
    ensures u * vw == uv * w
  {
  }

  lemma UnitFactor(t: real, d: real)
    requires d > 0.0 && t * d == d
    ensures t == 1.0
  {
    assert (t - 1.0) * d == 0.0;
  }

  lemma UnitFromParts(k: real, w: real, d: real, xy: real)
    requires d > 0.0 && w * d == xy && k * xy == d
    ensures k * w == 1.0
  {
    var kw := k * w;
    MulAssoc(k, w, d, kw, xy);
    UnitFactor(kw, d);
  }

  lemma ProductOfFractions(p: real, q: real, bw: real, bh: real)
    ensures (p * bw) * (q * bh) == (p * q) * (bw * bh)
  {
    var pb, qb, pq, bb := p * bw, q * bh, p * q, bw * bh;
    var pbq := pb * q;
    MulAssoc(pb, q, bh, pbq, qb);
    MulAssoc(p, bw, q, pb, bw * q);
    MulAssoc(p, q, bw, pq, q * bw);
    assert pbq == pq * bw;
    MulAssoc(pq, bw, bh, pbq, bb);
  }

  /** The scale factor undoes a cell's total weight. */
  lemma ScaleUndoesWeight(v: real, x: real, y: real, bw: real, bh: real, p: real, q: real, k: real)
    requires x * y > 0.0 && bw > 0.0 && bh > 0.0 && bw * bh > 0.0
    requires p == x / bw && q == y / bh && k == (bw * bh) / (x * y)
    ensures Weighted(v, p, q) * k == v
  {
    var w, d, xy := p * q, bw * bh, x * y;
    assert p * bw == x && q * bh == y;
    ProductOfFractions(p, q, bw, bh);
    UnitFromParts(k, w, d, xy);
    var vw := Weighted(v, p, q);
    assert vw == v * w;
    hide Weighted;
    MulAssoc(v, w, k, vw, 1.0);
  }

  lemma MulMonotone(u: real, v: real, k: real)
    requires u <= v && 0.0 <= k
    ensures u * k <= v * k
  {
  }

  lemma Squeeze(l: real, s: real, h: real, k: real, lo: real, hi: real)
    requires l <= s <= h && 0.0 <= k && Times(l, k) == lo && Times(h, k) == hi
    ensures lo <= Times(s, k) <= hi
  {
    MulMonotone(l, s, k);
    MulMonotone(s, h, k);
  }

  lemma ScaleIsPositive(a: Image, bw: nat, bh: nat)
    requires 0 < a.x && 0 < a.y && 0 < bw && 0 < bh
    ensures Scale(a.x, a.y, bw, bh) > 0.0
    ensures Scale(a.x, a.y, bw, bh) == (bw as real * bh as real) / (a.x as real * a.y as real)
    ensures a.x as real * a.y as real > 0.0 && bw as real * bh as real > 0.0
  {
    assert bw * bh > 0 && a.x * a.y > 0;
  }

  /** What a cell of an image with the one value `v` adds up to. */
  function FlatSum(a: Image, bw: nat, bh: nat, v: real): real
    requires 0 < bw && 0 < bh
  {
    Weighted(v, a.x as real / bw as real, a.y as real / bh as real)
  }

  lemma CellBounds(a: Image, bw: nat, bh: nat, r: nat, c: nat, ch: nat, lo: byte, hi: byte)
    requires a.Valid() && 0 < bw <= a.x && 0 < bh <= a.y && r < bh && c < bw && ch < 3 && Within(a, ch, lo, hi)
    ensures FlatSum(a, bw, bh, lo as real) <= AreaSum(a, bw, bh, r, c, ch, a.y)
    ensures AreaSum(a, bw, bh, r, c, ch, a.y) <= FlatSum(a, bw, bh, hi as real)
  {
    hide AreaSum, Weighted;
    AreaSumBounds(a, bw, bh, r, c, ch, a.y, lo, hi);
    CellWeight(c, bw, a.x);
    CellWeight(r, bh, a.y);
  }

  lemma FlatCell(a: Image, bw: nat, bh: nat, v: real)
    requires 0 < a.x && 0 < a.y && 0 < bw && 0 < bh
    ensures Times(FlatSum(a, bw, bh, v), Scale(a.x, a.y, bw, bh)) == v
  {
    ScaleIsPositive(a, bw, bh);
    hide Scale, Weighted;
    ScaleUndoesWeight(v, a.x as real, a.y as real, bw as real, bh as real,
                      a.x as real / bw as real, a.y as real / bh as real, Scale(a.x, a.y, bw, bh));
  }

  /** The average of a cell lies between the least and the greatest source value, so the cast
      of the rounded value to a byte loses nothing. In particular a flat image stays flat. */
  lemma AverageIsBetween(a: Image, bw: nat, bh: nat, r: nat, c: nat, ch: nat, lo: byte, hi: byte)
    requires a.Valid() && 0 < bw <= a.x && 0 < bh <= a.y && r < bh && c < bw && ch < 3 && Within(a, ch, lo, hi)
    ensures lo as real <= Average(a, bw, bh, r, c, ch) <= hi as real
  {
    CellBounds(a, bw, bh, r, c, ch, lo, hi);
    assert Scale(a.x, a.y, bw, bh) > 0.0 by { ScaleIsPositive(a, bw, bh); }
    FlatCell(a, bw, bh, lo as real);
    FlatCell(a, bw, bh, hi as real);
    hide AreaSum, Within, FlatSum, Scale, Times;
    Squeeze(FlatSum(a, bw, bh, lo as real), AreaSum(a, bw, bh, r, c, ch, a.y), FlatSum(a, bw, bh, hi as real),
            Scale(a.x, a.y, bw, bh), lo as real, hi as real);
  }

  // ---------------------------------------------------------------- conservation

  /** A cell after `y` rows and `x` pixels of the next. */
  function CellAfter(a: Image, bw: nat, bh: nat, r: nat, c: nat, ch: nat, y: nat, x: nat): real
    requires a.Valid() && 0 < bw && 0 < bh && ch < 3 && y <= a.y && x <= a.x && (y == a.y ==> x == 0)
  {
    AreaSum(a, bw, bh, r, c, ch, y) + if x == 0 then 0.0 else RowSum(a, bw, bh, r, c, ch, y, x)
  }

  /** The first `n` cells of row `r` together. */
  function LineTotal(a: Image, bw: nat, bh: nat, r: nat, ch: nat, y: nat, x: nat, n: nat): real
    requires a.Valid() && 0 < bw && 0 < bh && ch < 3 && y <= a.y && x <= a.x && (y == a.y ==> x == 0)
  {
    if n == 0 then 0.0
    else LineTotal(a, bw, bh, r, ch, y, x, n - 1) + CellAfter(a, bw, bh, r, n - 1, ch, y, x)
  }

  /** The first `m` rows of cells together. */
  function GridTotal(a: Image, bw: nat, bh: nat, ch: nat, y: nat, x: nat, m: nat): real
    requires a.Valid() && 0 < bw && 0 < bh && ch < 3 && y <= a.y && x <= a.x && (y == a.y ==> x == 0)
  {
    if m == 0 then 0.0
    else GridTotal(a, bw, bh, ch, y, x, m - 1) + LineTotal(a, bw, bh, m - 1, ch, y, x, bw)
  }

  /** The source values of `y` rows and `x` pixels of the next. */
  function SourceTotal(a: Image, ch: nat, y: nat, x: nat): real
    requires a.Valid() && ch < 3 && y <= a.y && x <= a.x && (y == a.y ==> x == 0)
    decreases y, x
  {
    if x > 0 then SourceTotal(a, ch, y, x - 1) + a.At(y, x - 1, ch) as real
    else if y > 0 && a.x > 0 then SourceTotal(a, ch, y - 1, a.x)
    else 0.0
  }

  lemma {:induction false} LineStep(a: Image, bw: nat, bh: nat, r: nat, ch: nat, y: nat, x: nat, n: nat)
    requires a.Valid() && 0 < bw && 0 < bh && ch < 3 && y < a.y && x < a.x
    ensures LineTotal(a, bw, bh, r, ch, y, x + 1, n) == LineTotal(a, bw, bh, r, ch, y, x, n)
            + Weighted(a.At(y, x, ch) as real, SpreadSum(x, n, bw, a.x), Share(y, r, bh, a.y))
  {
    if n > 0 {
      LineStep(a, bw, bh, r, ch, y, x, n - 1);
      assert CellAfter(a, bw, bh, r, n - 1, ch, y, x + 1) == CellAfter(a, bw, bh, r, n - 1, ch, y, x)
          + Contribution(a, bw, bh, r, n - 1, ch, y, x);
      hide Weighted, Share, CellAfter;
      WeightedAdds(a.At(y, x, ch) as real, SpreadSum(x, n - 1, bw, a.x), Share(x, n - 1, bw, a.x),
                   Share(y, r, bh, a.y));
    }
  }

  lemma {:induction false} GridStep(a: Image, bw: nat, bh: nat, ch: nat, y: nat, x: nat, m: nat)
    requires a.Valid() && 0 < bw && 0 < bh && ch < 3 && y < a.y && x < a.x
    ensures GridTotal(a, bw, bh, ch, y, x + 1, m) == GridTotal(a, bw, bh, ch, y, x, m)
            + Weighted(a.At(y, x, ch) as real, 1.0, SpreadSum(y, m, bh, a.y))
  {
    if m > 0 {
      GridStep(a, bw, bh, ch, y, x, m - 1);
      LineStep(a, bw, bh, m - 1, ch, y, x, bw);
      PixelWeight(x, bw, a.x);
      hide Weighted, Share;
      WeightedAdds(a.At(y, x, ch) as real, SpreadSum(y, m - 1, bh, a.y), Share(y, m - 1, bh, a.y), 1.0);
    }
  }

  lemma {:induction false} LineOfNextRow(a: Image, bw: nat, bh: nat, r: nat, ch: nat, y: nat, n: nat)
    requires a.Valid() && 0 < bw && 0 < bh && ch < 3 && y < a.y
    ensures LineTotal(a, bw, bh, r, ch, y + 1, 0, n) == LineTotal(a, bw, bh, r, ch, y, a.x, n)
  {
    if n > 0 {
      LineOfNextRow(a, bw, bh, r, ch, y, n - 1);
    }
  }

  lemma {:induction false} GridOfNextRow(a: Image, bw: nat, bh: nat, ch: nat, y: nat, m: nat)
    requires a.Valid() && 0 < bw && 0 < bh && ch < 3 && y < a.y
    ensures GridTotal(a, bw, bh, ch, y + 1, 0, m) == GridTotal(a, bw, bh, ch, y, a.x, m)
  {
    if m > 0 {
      GridOfNextRow(a, bw, bh, ch, y, m - 1);
      LineOfNextRow(a, bw, bh, m - 1, ch, y, bw);
    }
  }

  lemma {:induction false} NothingYet(a: Image, bw: nat, bh: nat, ch: nat, n: nat)
    requires a.Valid() && 0 < bw && 0 < bh && ch < 3
    ensures GridTotal(a, bw, bh, ch, 0, 0, n) == 0.0
  {
    if n > 0 {
      NothingYet(a, bw, bh, ch, n - 1);
      LineIsEmpty(a, bw, bh, ch, n - 1, bw);
    }
  }

  lemma {:induction false} LineIsEmpty(a: Image, bw: nat, bh: nat, ch: nat, r: nat, n: nat)
    requires a.Valid() && 0 < bw && 0 < bh && ch < 3
    ensures LineTotal(a, bw, bh, r, ch, 0, 0, n) == 0.0
  {
    if n > 0 {
      LineIsEmpty(a, bw, bh, ch, r, n - 1);
    }
  }

  /** At every point of the pass, all cells together hold exactly the source values read so far. */
  lemma {:induction false} NothingIsLost(a: Image, bw: nat, bh: nat, ch: nat, y: nat, x: nat)
    requires a.Valid() && 0 < bw <= a.x && 0 < bh <= a.y && ch < 3
    requires y <= a.y && x <= a.x && (y == a.y ==> x == 0)
    ensures GridTotal(a, bw, bh, ch, y, x, bh) == SourceTotal(a, ch, y, x)
    decreases y, x
  {
    if x > 0 {
      NothingIsLost(a, bw, bh, ch, y, x - 1);
      GridStep(a, bw, bh, ch, y, x - 1, bh);
      PixelWeight(y, bh, a.y);
      WholeWeight(a.At(y, x - 1, ch) as real);
      hide GridTotal, SpreadSum, Weighted;
    } else if y > 0 {
      NothingIsLost(a, bw, bh, ch, y - 1, a.x);
      GridOfNextRow(a, bw, bh, ch, y - 1, bh);
    } else {
      NothingYet(a, bw, bh, ch, bh);
    }
  }

  // ---------------------------------------------------------------- the whole of ShrinkWorkingBitmap

  function RoundHalfUp(v: real): int {
    (v + 0.5).Floor
  }

  function RoundedAverage(a: Image, bw: nat, bh: nat, r: nat, c: nat, ch: nat): int
    requires a.Valid() && 0 < a.x && 0 < a.y && 0 < bw && 0 < bh && ch < 3
  {
    RoundHalfUp(Average(a, bw, bh, r, c, ch))
  }

  lemma RoundedAverageIsBetween(a: Image, bw: nat, bh: nat, r: nat, c: nat, ch: nat, lo: byte, hi: byte)
    requires a.Valid() && 0 < bw <= a.x && 0 < bh <= a.y && r < bh && c < bw && ch < 3 && Within(a, ch, lo, hi)
    ensures lo <= RoundedAverage(a, bw, bh, r, c, ch) <= hi
  {
    AverageIsBetween(a, bw, bh, r, c, ch, lo, hi);
    hide Average, Within;
  }

  /** The byte nearest to a value, the greater one where two are as near. */
  predicate Nearest(b: int, v: real) {
    b as real - 0.5 <= v < b as real + 0.5
  }

  lemma RoundsToNearest(v: real, b: int)
    ensures Nearest(b, v) <==> b == RoundHalfUp(v)
  {
  }

  /** Row `r` of the result holds the bytes nearest to the averages of its cells. */
  ghost predicate RowDone(out: seq<byte>, l: nat, a: Image, bw: nat, bh: nat, r: nat)
    requires a.Valid() && 0 < a.x && 0 < a.y && 0 < bw && 0 < bh
  {
    && 0 <= r * l && r * l + 3 * bw <= |out|
    && forall c: nat, ch: nat | c < bw && ch < 3 ::
         Nearest(out[r * l + 3 * c + ch], Average(a, bw, bh, r, c, ch))
  }

  lemma RowKept(before: seq<byte>, after: seq<byte>, l: nat, a: Image, bw: nat, bh: nat, r: nat, y: nat, uy: nat)
    requires a.Valid() && 0 < a.x && 0 < a.y && 0 < bw && 0 < bh && 3 * bw <= l
    requires RowDone(before, l, a, bw, bh, r) && |after| == |before|
    requires r < y && uy == y * l && uy <= |before| && forall i | 0 <= i < uy :: after[i] == before[i]
    ensures RowDone(after, l, a, bw, bh, r)
  {
    MulLe(r + 1, y, l);
    Successor(r, l);
    hide Average, Nearest;
  }

  /** The cells of one row, read off the accumulator. */
  lemma RowWritten(out: seq<byte>, f: seq<real>, l: nat, a: Image, bw: nat, bh: nat, r: nat, uy: nat, nf: nat)
    requires a.Valid() && 0 < bw <= a.x && 0 < bh <= a.y && r < bh
    requires uy == r * l && uy + 3 * bw <= |out| && nf == r * (3 * bw) && nf + 3 * bw <= |f|
    requires forall i | uy <= i < uy + 3 * bw :: out[i] == RoundHalfUp(Times(f[i - uy + nf], Scale(a.x, a.y, bw, bh)))
    requires forall t: nat | t < |f| :: f[t] == AreaSum(a, bw, bh, Row(t, bw), Col(t, bw), Chan(t, bw), a.y)
    ensures RowDone(out, l, a, bw, bh, r)
  {
    forall c: nat, ch: nat | c < bw && ch < 3
      ensures Nearest(out[r * l + 3 * c + ch], Average(a, bw, bh, r, c, ch))
    {
      var u := 3 * c + ch;
      IndexOf(r, c, ch, bw, nf + u);
      hide Row, Col, Chan, AreaSum, Scale, Times, RoundHalfUp, Nearest;
      var i := uy + u;
      assert out[i] == RoundHalfUp(Times(f[i - uy + nf], Scale(a.x, a.y, bw, bh)));
      RoundsToNearest(Average(a, bw, bh, r, c, ch), out[i]);
    }
  }

  lemma CellIsByte(f: seq<real>, a: Image, bw: nat, bh: nat, r: nat, t: nat)
    requires a.Valid() && 0 < bw <= a.x && 0 < bh <= a.y && r < bh && t < |f| && Row(t, bw) == r
    requires f[t] == AreaSum(a, bw, bh, Row(t, bw), Col(t, bw), Chan(t, bw), a.y)
    ensures 0 <= RoundHalfUp(Times(f[t], Scale(a.x, a.y, bw, bh))) < 256
  {
    RoundedAverageIsBetween(a, bw, bh, r, Col(t, bw), Chan(t, bw), 0, 255);
  }

  lemma RowIsBytes(f: seq<real>, a: Image, bw: nat, bh: nat, r: nat, nf: nat)
    requires a.Valid() && 0 < bw <= a.x && 0 < bh <= a.y && r < bh && nf == r * (3 * bw) && nf + 3 * bw <= |f|
    requires forall t: nat | t < |f| :: f[t] == AreaSum(a, bw, bh, Row(t, bw), Col(t, bw), Chan(t, bw), a.y)
    ensures forall t | nf <= t < nf + 3 * bw :: 0 <= RoundHalfUp(Times(f[t], Scale(a.x, a.y, bw, bh))) < 256
  {
    forall t | nf <= t < nf + 3 * bw
      ensures 0 <= RoundHalfUp(Times(f[t], Scale(a.x, a.y, bw, bh))) < 256
    {
      QuotIsUnique(t, 3 * bw, r);
      assert Row(t, bw) == r;
      hide Row, Col, Chan, AreaSum, Scale, Times, RoundHalfUp;
      CellIsByte(f, a, bw, bh, r, t);
    }
  }

  method WriteRow(f: array<real>, nf0: nat, k: real, out: array<byte>, uy: nat, df: nat)
    requires nf0 + df <= f.Length && uy + df <= out.Length
    requires forall t | nf0 <= t < nf0 + df :: 0 <= RoundHalfUp(Times(f[t], k)) < 256
    modifies out
    ensures forall i | uy <= i < uy + df :: out[i] == RoundHalfUp(Times(f[i - uy + nf0], k))
    ensures forall i | 0 <= i < uy :: out[i] == old(out[i])
  {
    hide Times, RoundHalfUp;
    var j, nf := 0, nf0;
    while j < df
      invariant 0 <= j <= df && nf == nf0 + j
      invariant forall i | uy <= i < uy + j :: out[i] == RoundHalfUp(Times(f[i - uy + nf0], k))
      invariant forall i | 0 <= i < uy :: out[i] == old(out[i])
    {
      out[uy + j] := RoundHalfUp(Times(f[nf], k));
      nf, j := nf + 1, j + 1;
    }
  }

  /** The accumulator of the single pass: cell by cell, the area sums of the whole source. */
  method Accumulate(a: WorkBitmap, bw: nat, bh: nat) returns (f: array<real>)
    requires 0 < bw <= a.x <= MAX_WIDTH && 0 < bh <= a.y && a.y - 1 + bh < 0x1_0000
    requires a.Value().Valid()
    ensures fresh(f) && f.Length == 3 * bw * bh < 0x1_0000_0000
    ensures forall t: nat | t < f.Length ::
              f[t] == AreaSum(a.Value(), bw, bh, Row(t, bw), Col(t, bw), Chan(t, bw), a.y)
  {
    ghost var img := a.Value();
    var df := 3 * bw;
    MulLe(df, 3 * MAX_WIDTH, bh);
    MulLe(bh, 0x8000, 3 * MAX_WIDTH);
    f := new real[df * bh](_ => 0.0);
    var uy: nat, ny: nat, j: nat, y: nat := 0, 0, 0, 0;
    ghost var r: nat := 0;
    while y < a.y
      invariant y <= a.y && a.Value() == img && fresh(f)
      invariant Tracks(ny, y, r, bh, a.y) && uy == y * a.l && j == r * df
      invariant forall t: nat | t < f.Length :: f[t] == AreaSum(img, bw, bh, Row(t, bw), Col(t, bw), Chan(t, bw), y)
    {
      ghost var my := ny;
      CounterStep(ny, y, r, bh, a.y);
      Successor(r, df);
      Successor(y, a.l);
      hide Row, Col, Chan, Tracks;
      ny := ny + bh;
      assert ny < 0x1_0000;
      if ny > a.y {
        j := SpreadSplitRow(f, a, bw, bh, uy, ny, j, y, r, my);
      } else {
        j := SpreadWholeRow(f, a, bw, bh, uy, ny, j, y, r, my);
        if ny < a.y {
          j := j - df;
        }
      }
      uy := uy + a.l;
      if ny >= a.y {
        ny := ny - a.y;
        r := r + 1;
      }
      y := y + 1;
    }
  }

  method ShrinkWorkingBitmap(a: WorkBitmap, b: WorkBitmap, bw: nat, bh: nat)
    requires a != b && 0 < bw <= a.x <= MAX_WIDTH && 0 < bh <= a.y && a.y - 1 + bh < 0x1_0000
    requires a.Value().Valid()
    modifies b
    ensures a.Value() == old(a.Value())
    ensures b.x == bw && b.y == bh && b.l == Stride(bw) && b.Value().Valid()
    ensures forall r: nat | r < bh :: RowDone(b.b[..], b.l, a.Value(), bw, bh, r)
  {
    ghost var img := a.Value();
    StrideHoldsARow(bw);
    MulLe(Stride(bw), 0xFFFC, bh);
    b.CreateWorkingBitmap(bw, bh);
    var f := Accumulate(a, bw, bh);
    var df := 3 * bw;
    var nf: nat, uy: nat, y: nat := 0, 0, 0;
    var k := Scale(a.x, a.y, bw, bh);
    ghost var fs := f[..];
    assert forall t: nat | t < |fs| :: fs[t] == AreaSum(img, bw, bh, Row(t, bw), Col(t, bw), Chan(t, bw), img.y);
    while y < bh
      invariant y <= bh && nf == y * df && uy == y * b.l && a.Value() == img && f[..] == fs
      invariant b.Value().Valid() && b.x == bw && b.y == bh && b.l == Stride(bw) && fresh(b.b)
      invariant forall r: nat | r < y :: RowDone(b.b[..], b.l, img, bw, bh, r)
    {
      hide RowDone, Row, Col, Chan, AreaSum, Scale, Times, RoundHalfUp;
      ghost var before := b.b[..];
      b.Value().RowFits(y);
      Successor(y, df);
      Successor(y, b.l);
      MulLe(y + 1, bh, df);
      RowIsBytes(fs, img, bw, bh, y, nf);
      assert forall t | nf <= t < nf + df :: f[t] == fs[t];
      WriteRow(f, nf, k, b.b, uy, df);
      RowWritten(b.b[..], fs, b.l, img, bw, bh, y, uy, nf);
      forall r: nat | r < y
        ensures RowDone(b.b[..], b.l, img, bw, bh, r)
      {
        RowKept(before, b.b[..], b.l, img, bw, bh, r, y, uy);
      }
      nf, uy, y := nf + df, uy + b.l, y + 1;
    }
  }
}
