/**
 * The arithmetic of `help::draw_menu`: topic `i` goes to the first column
 * when `i < half`, to the second otherwise, on row `top + i % half`. The
 * second column starts at half the window width or four past the widest
 * first-column label, whichever is larger.
 */
module MenuLayout {

  /** Where `shortcut_print` puts one topic label. */
  datatype Placement = Placement(x: int, y: int, text: string)

  /** `divide_round_up` on non-negative numbers: the quotient rounded up. */
  function DivideRoundUp(a: nat, b: nat): (q: nat)
    requires b > 0
    ensures q * b >= a && (q == 0 || (q - 1) * b < a)
  {
    (a + b - 1) / b
  }

  /** `half_size`: how many topics the first column holds, for `n` topics. */
  function Half(n: nat): (h: nat)
    ensures h >= 1 && n <= 2 * h && h <= n + 1
  {
    n / 2 + 1
  }

  function Max(a: int, b: int): int
  {
    if a < b then b else a
  }

  /** The running maximum `second_column` reaches: `base`, raised to each width plus four. */
  function ColumnStart(base: int, widths: seq<int>): int
  {
    if widths == [] then base
    else Max(ColumnStart(base, widths[..|widths| - 1]), widths[|widths| - 1] + 4)
  }

  /** The widths of the labels. */
  function Widths(widthOf: string -> int, labels: seq<string>): (ws: seq<int>)
    ensures |ws| == |labels|
    ensures forall k :: 0 <= k < |labels| ==> ws[k] == widthOf(labels[k])
  {
    if labels == [] then [] else [widthOf(labels[0])] + Widths(widthOf, labels[1..])
  }

  function Min(a: int, b: int): int
  {
    if a < b then a else b
  }

  /** The x at which the second column is printed. */
  function SecondColumn(labels: seq<string>, widthOf: string -> int, half: nat, width: nat): int
  {
    ColumnStart(DivideRoundUp(width, 2), Widths(widthOf, labels[..Min(half, |labels|)]))
  }

  /** The label of topic `k` and where it goes. */
  function Place(labels: seq<string>, widthOf: string -> int, half: nat, width: nat, top: int, k: nat): Placement
    requires half > 0 && k < |labels|
  {
    Placement(if k < half then 1 else SecondColumn(labels, widthOf, half, width), top + k % half, labels[k])
  }

  /** The whole menu, topic by topic. */
  function Layout(labels: seq<string>, widthOf: string -> int, half: nat, width: nat, top: int): seq<Placement>
    requires half > 0
  {
    seq(|labels|, k requires 0 <= k < |labels| => Place(labels, widthOf, half, width, top, k))
  }

  /** The column start is the least number at least `base` and at least every width plus four. */
  lemma {:induction false} ColumnStartBounds(base: int, widths: seq<int>)
    ensures ColumnStart(base, widths) >= base
    ensures forall k :: 0 <= k < |widths| ==> ColumnStart(base, widths) >= widths[k] + 4
    ensures ColumnStart(base, widths) == base ||
            exists k :: 0 <= k < |widths| && ColumnStart(base, widths) == widths[k] + 4
  {
    if widths != [] {
      var n := |widths| - 1;
      ColumnStartBounds(base, widths[..n]);
      assert forall k :: 0 <= k < n ==> widths[..n][k] == widths[k];
    }
  }

  /**
   * Topic `k` is in the first column exactly when `k < half`, on row
   * `top + k`; in the second column it is at least half the width across and
   * clear of every first-column label by four, on row `top + k % half`.
   */
  lemma LayoutPositions(labels: seq<string>, widthOf: string -> int, half: nat, width: nat, top: int, k: nat)
    requires half > 0 && k < |labels|
    requires widthOf(labels[0]) >= 0
    ensures var p := Layout(labels, widthOf, half, width, top)[k];
            && p.text == labels[k]
            && (p.x == 1 <==> k < half)
            && p.y == top + k % half
            && (k < half ==> p.y == top + k)
            && (k >= half ==> p.x >= DivideRoundUp(width, 2))
            && (k >= half ==> forall j :: 0 <= j < half ==> p.x >= widthOf(labels[j]) + 4)
  {
    SecondColumnBounds(labels, widthOf, half, width);
    if k < half {
      ModBelowTwice(k, half);
    }
  }

  /** The second column starts at least at half the width and four past every first-column label. */
  lemma SecondColumnBounds(labels: seq<string>, widthOf: string -> int, half: nat, width: nat)
    ensures SecondColumn(labels, widthOf, half, width) >= DivideRoundUp(width, 2)
    ensures forall j :: 0 <= j < half && j < |labels| ==> SecondColumn(labels, widthOf, half, width) >= widthOf(labels[j]) + 4
  {
    var first := labels[..Min(half, |labels|)];
    var ws := Widths(widthOf, first);
    ColumnStartBounds(DivideRoundUp(width, 2), ws);
    forall j | 0 <= j < half && j < |labels| ensures ws[j] == widthOf(labels[j]) {
      assert first[j] == labels[j];
    }
  }

  lemma WidthsSnoc(widthOf: string -> int, labels: seq<string>, c: string)
    ensures Widths(widthOf, labels + [c]) == Widths(widthOf, labels) + [widthOf(c)]
  {
  }

  /** One more label raises the second column only while the first column is being filled. */
  lemma SecondColumnSnoc(labels: seq<string>, c: string, widthOf: string -> int, half: nat, width: nat)
    ensures SecondColumn(labels + [c], widthOf, half, width)
         == if |labels| < half then Max(SecondColumn(labels, widthOf, half, width), widthOf(c) + 4)
            else SecondColumn(labels, widthOf, half, width)
  {
    var l := labels + [c];
    if |labels| < half {
      assert l[..Min(half, |l|)] == labels[..Min(half, |labels|)] + [c];
      WidthsSnoc(widthOf, labels[..Min(half, |labels|)], c);
      var ws := Widths(widthOf, l[..Min(half, |l|)]);
      assert ws[..|ws| - 1] == Widths(widthOf, labels[..Min(half, |labels|)]);
    } else {
      assert l[..Min(half, |l|)] == labels[..Min(half, |labels|)];
    }
  }

  /** One more label adds its own placement and moves none of the others. */
  lemma LayoutSnoc(labels: seq<string>, c: string, widthOf: string -> int, half: nat, width: nat, top: int)
    requires half > 0
    ensures Layout(labels + [c], widthOf, half, width, top)
         == Layout(labels, widthOf, half, width, top)
            + [Placement(if |labels| < half then 1 else SecondColumn(labels + [c], widthOf, half, width),
                         top + |labels| % half, c)]
  {
    var l := labels + [c];
    SecondColumnSnoc(labels, c, widthOf, half, width);
    forall k | 0 <= k < |labels|
      ensures Place(l, widthOf, half, width, top, k) == Place(labels, widthOf, half, width, top, k)
    {
      assert l[k] == labels[k];
    }
  }

  /** Below twice `h`, the remainder by `h` takes off at most one `h`. */
  lemma ModBelowTwice(m: nat, h: nat)
    requires 0 < h && m < 2 * h
    ensures m % h == if m < h then m else m - h
  {
    if m >= h {
      assert (m - h) % h == m % h by {
        assert m == (m - h) + h;
      }
    }
  }

  /** When there are at most two columns' worth of topics, no two labels share a position. */
  lemma LayoutDistinct(labels: seq<string>, widthOf: string -> int, half: nat, width: nat, top: int, j: nat, k: nat)
    requires half > 0 && j < k < |labels| <= 2 * half
    requires widthOf(labels[0]) >= 0
    ensures var l := Layout(labels, widthOf, half, width, top);
            (l[j].x, l[j].y) != (l[k].x, l[k].y)
  {
    LayoutPositions(labels, widthOf, half, width, top, j);
    LayoutPositions(labels, widthOf, half, width, top, k);
    ModBelowTwice(j, half);
    ModBelowTwice(k, half);
  }
}
