/** The integer geometry of `generate_tier_list` in
    scripts/tier_list_generator.py: how many rows each tier needs, how tall
    its band is, where bands and items go, and after which bands a separator
    line is drawn.  Pixels, colours and fonts are not modelled. */
module Layout {
  import opened Text
  import opened TierLists
  import opened Titles
  import opened Pipeline

  const GameHeight: int := 120
  const TierLabelWidth: int := 100
  const MaxGamesPerRow: int := 9
  const RowSpacing: int := 10

  /** `int((460/215) * game_height)`: a Steam header resized to the game height. */
  const EstimatedImageWidth: int := (460 * GameHeight) / 215

  /** The tiers the generator draws, top to bottom; other letters are ignored. */
  const TierOrder: seq<char> := ['S', 'A', 'B', 'C', 'D', 'E', 'F']

  /** `math.ceil(num_games / max_games_per_row)`: the fewest rows of nine
      that hold `n` games. */
  function Rows(n: nat): (r: nat)
    ensures n == 0 ==> r == 0
    ensures n > 0 ==> (r - 1) * MaxGamesPerRow < n <= r * MaxGamesPerRow
  {
    (n + MaxGamesPerRow - 1) / MaxGamesPerRow
  }

  /** The height of a tier's band: its rows and the gaps between them.  A
      tier with a game gets at least one game's height, a tier of at most
      nine exactly that, and an empty tier a negative height. */
  function BandHeight(n: nat): (h: int)
    ensures n >= 1 ==> h >= GameHeight
    ensures 1 <= n <= MaxGamesPerRow ==> h == GameHeight
    ensures n == 0 ==> h == -RowSpacing
  {
    Rows(n) * GameHeight + (Rows(n) - 1) * RowSpacing
  }

  /** A tier of nine fits in one row of height 120; fourteen take two rows
      (nine and five) and 250 pixels; an empty tier would get -10. */
  lemma BandHeightExamples()
    ensures Rows(9) == 1 && BandHeight(9) == 120
    ensures Rows(14) == 2 && BandHeight(14) == 250
    ensures BandHeight(0) == -10
  {
  }

  /** The canvas width depends on nothing but the constants. */
  lemma CanvasWidthValue()
    ensures TierLabelWidth + MaxGamesPerRow * EstimatedImageWidth == 2404
  {
  }

  /** The number of names a tier holds, 0 when it is absent. */
  function GameCount(tiers: TierList, c: char): nat {
    match Get(tiers, c)
    case None => 0
    case Some(g) => |g|
  }

  // ---------------------------------------------------------------------
  // Bands

  /** The position of a letter in the drawing order, 7 for letters outside it. */
  function Rank(c: char): (k: nat)
    ensures k <= |TierOrder|
    ensures k < |TierOrder| <==> c in TierOrder
    ensures k < |TierOrder| ==> TierOrder[k] == c
  {
    if c == 'S' then 0 else if c == 'A' then 1 else if c == 'B' then 2
    else if c == 'C' then 3 else if c == 'D' then 4 else if c == 'E' then 5
    else if c == 'F' then 6 else 7
  }

  /** The letters of `order` the tier list holds, in the order of `order`. */
  function PresentIn(tiers: TierList, order: seq<char>): (r: seq<char>)
    ensures |r| <= |order|
    ensures forall c :: c in r <==> c in order && Get(tiers, c).Some?
    decreases |order|
  {
    if order == [] then []
    else
      var last := order[|order| - 1];
      PresentIn(tiers, order[..|order| - 1]) + (if Get(tiers, last).Some? then [last] else [])
  }

  /** The tiers that are drawn, top to bottom. */
  function Present(tiers: TierList): seq<char> {
    PresentIn(tiers, TierOrder)
  }

  /** Extending the order by one letter adds that letter when present. */
  lemma PresentInSnoc(tiers: TierList, order: seq<char>, c: char)
    ensures PresentIn(tiers, order + [c]) == PresentIn(tiers, order) + (if Get(tiers, c).Some? then [c] else [])
  {
    assert (order + [c])[..|order|] == order;
  }

  /** Each letter of the drawing order has its own position as rank. */
  lemma RankOfOrder(k: nat)
    requires k < |TierOrder|
    ensures Rank(TierOrder[k]) == k
  {
    if k == 0 {} else if k == 1 {} else if k == 2 {} else if k == 3 {}
    else if k == 4 {} else if k == 5 {} else {}
  }

  /** Drawn tiers follow the drawing order strictly: S above A above B ... */
  lemma {:induction false} PresentInOrder(tiers: TierList, k: nat)
    requires k <= |TierOrder|
    ensures forall i :: 0 <= i < |PresentIn(tiers, TierOrder[..k])| ==> Rank(PresentIn(tiers, TierOrder[..k])[i]) < k
    ensures forall i, j :: 0 <= i < j < |PresentIn(tiers, TierOrder[..k])| ==>
      Rank(PresentIn(tiers, TierOrder[..k])[i]) < Rank(PresentIn(tiers, TierOrder[..k])[j])
  {
    if k > 0 {
      PresentInOrder(tiers, k - 1);
      var c := TierOrder[k - 1];
      assert TierOrder[..k] == TierOrder[..k - 1] + [c];
      PresentInSnoc(tiers, TierOrder[..k - 1], c);
      RankOfOrder(k - 1);
      RankedSnoc(PresentIn(tiers, TierOrder[..k - 1]), c, k, PresentIn(tiers, TierOrder[..k]));
    }
  }

  /** Appending, or not, a letter of rank `k - 1` to letters ranked strictly
      increasing below `k - 1` keeps them strictly increasing below `k`. */
  lemma RankedSnoc(p: seq<char>, c: char, k: nat, r: seq<char>)
    requires k > 0 && Rank(c) == k - 1
    requires r == p + [c] || r == p
    requires forall i :: 0 <= i < |p| ==> Rank(p[i]) < k - 1
    requires forall i, j :: 0 <= i < j < |p| ==> Rank(p[i]) < Rank(p[j])
    ensures forall i :: 0 <= i < |r| ==> Rank(r[i]) < k
    ensures forall i, j :: 0 <= i < j < |r| ==> Rank(r[i]) < Rank(r[j])
  {
    forall i | 0 <= i < |r| ensures Rank(r[i]) < k && (i < |p| ==> r[i] == p[i]) && (i >= |p| ==> r[i] == c) {
    }
  }

  /** The summed band heights of `letters`. */
  function Total(tiers: TierList, letters: seq<char>): int
    decreases |letters|
  {
    if letters == [] then 0
    else Total(tiers, letters[..|letters| - 1]) + BandHeight(GameCount(tiers, letters[|letters| - 1]))
  }

  /** The height of the canvas, the sum of the heights of the drawn bands:
      it ends where the last band ends, and is 0 with no band. */
  function CanvasHeight(tiers: TierList): (h: int)
    ensures var bands := Bands(tiers);
      && (bands == [] ==> h == 0)
      && (bands != [] ==> h == bands[|bands| - 1].top + bands[|bands| - 1].height)
  {
    StackContiguous(tiers, Present(tiers));
    Total(tiers, Present(tiers))
  }

  /** One drawn tier: its letter, the y of its top edge and its height. */
  datatype Band = Band(letter: char, top: int, height: int)

  /** The bands of `letters`, each below the ones before it: one band per
      letter, in order, each as tall as its tier needs. */
  function Stack(tiers: TierList, letters: seq<char>): (bands: seq<Band>)
    ensures |bands| == |letters|
    ensures forall i :: 0 <= i < |letters| ==>
      bands[i].letter == letters[i] && bands[i].height == BandHeight(GameCount(tiers, letters[i]))
    decreases |letters|
  {
    if letters == [] then []
    else
      var front := letters[..|letters| - 1];
      var last := letters[|letters| - 1];
      var prev := Stack(tiers, front);
      var bands := prev + [Band(last, Total(tiers, front), BandHeight(GameCount(tiers, last)))];
      assert forall i :: 0 <= i < |prev| ==> bands[i] == prev[i];
      bands
  }

  /** Band `i` holds letter `i`, sized by its tier, its top edge at the
      summed height of the bands above it. */
  lemma {:induction false} StackElements(tiers: TierList, letters: seq<char>)
    ensures forall i :: 0 <= i < |letters| ==>
      Stack(tiers, letters)[i] == Band(letters[i], Total(tiers, letters[..i]), BandHeight(GameCount(tiers, letters[i])))
    decreases |letters|
  {
    if letters != [] {
      var front := letters[..|letters| - 1];
      StackElements(tiers, front);
      forall i | 0 <= i < |letters|
        ensures Stack(tiers, letters)[i] == Band(letters[i], Total(tiers, letters[..i]), BandHeight(GameCount(tiers, letters[i])))
      {
        if i < |front| {
          assert front[..i] == letters[..i];
          assert Stack(tiers, letters)[i] == Stack(tiers, front)[i];
        } else {
          assert front == letters[..i];
        }
      }
    }
  }

  /** The bands are stacked without gaps: the first at the top of the
      canvas, each next one where the previous ends, the last ending at the
      summed height. */
  lemma {:induction false} StackContiguous(tiers: TierList, letters: seq<char>)
    ensures var bands := Stack(tiers, letters);
      && (bands != [] ==> bands[0].top == 0)
      && (forall i :: 0 <= i < |bands| - 1 ==> bands[i + 1].top == bands[i].top + bands[i].height)
      && (bands != [] ==> bands[|bands| - 1].top + bands[|bands| - 1].height == Total(tiers, letters))
  {
    var bands := Stack(tiers, letters);
    forall i | 0 <= i < |bands| - 1
      ensures bands[i + 1].top == bands[i].top + bands[i].height
    {
      BandEnd(tiers, letters, i);
      BandEnd(tiers, letters, i + 1);
    }
    if bands != [] {
      BandEnd(tiers, letters, 0);
      assert letters[..0] == [];
      BandEnd(tiers, letters, |letters| - 1);
      assert letters[..|letters|] == letters;
    }
  }

  /** The bands the generator draws. */
  function Bands(tiers: TierList): seq<Band> {
    Stack(tiers, Present(tiers))
  }

  /** When every drawn tier holds a game, the bands lie one below the other,
      none overlapping, and together fill the canvas exactly. */
  lemma StackFillsCanvas(tiers: TierList, letters: seq<char>)
    requires forall c :: c in letters ==> GameCount(tiers, c) >= 1
    ensures var bands := Stack(tiers, letters);
      && (forall i :: 0 <= i < |bands| ==>
            0 <= bands[i].top && bands[i].height >= GameHeight
            && bands[i].top + bands[i].height <= Total(tiers, letters))
      && (forall i, j :: 0 <= i < j < |bands| ==> bands[i].top + bands[i].height <= bands[j].top)
  {
    var bands := Stack(tiers, letters);
    forall i | 0 <= i < |bands|
      ensures 0 <= bands[i].top && bands[i].height >= GameHeight
      ensures bands[i].top + bands[i].height <= Total(tiers, letters)
    {
      BandInside(tiers, letters, i);
    }
    forall i, j | 0 <= i < j < |bands|
      ensures bands[i].top + bands[i].height <= bands[j].top
    {
      BandAbove(tiers, letters, i, j);
    }
  }

  /** Band `i` ends where the sum over the first `i + 1` letters ends. */
  lemma BandEnd(tiers: TierList, letters: seq<char>, i: nat)
    requires i < |letters|
    ensures Stack(tiers, letters)[i].top == Total(tiers, letters[..i])
    ensures Stack(tiers, letters)[i].top + Stack(tiers, letters)[i].height == Total(tiers, letters[..i + 1])
  {
    StackElements(tiers, letters);
    assert letters[..i + 1][..i] == letters[..i];
  }

  lemma BandInside(tiers: TierList, letters: seq<char>, i: nat)
    requires i < |letters|
    requires forall c :: c in letters ==> GameCount(tiers, c) >= 1
    ensures var b := Stack(tiers, letters)[i];
      0 <= b.top && b.height >= GameHeight && b.top + b.height <= Total(tiers, letters)
  {
    BandEnd(tiers, letters, i);
    StackElements(tiers, letters);
    TotalMonotone(tiers, letters, i, i);
    TotalMonotone(tiers, letters, i + 1, |letters|);
    assert letters[..|letters|] == letters;
  }

  lemma BandAbove(tiers: TierList, letters: seq<char>, i: nat, j: nat)
    requires i < j < |letters|
    requires forall c :: c in letters ==> GameCount(tiers, c) >= 1
    ensures Stack(tiers, letters)[i].top + Stack(tiers, letters)[i].height <= Stack(tiers, letters)[j].top
  {
    BandEnd(tiers, letters, i);
    BandEnd(tiers, letters, j);
    TotalMonotone(tiers, letters, i + 1, j);
  }

  /** Summed heights of nonempty tiers grow with the prefix. */
  lemma {:induction false} TotalMonotone(tiers: TierList, letters: seq<char>, i: nat, j: nat)
    requires i <= j <= |letters|
    requires forall c :: c in letters ==> GameCount(tiers, c) >= 1
    ensures 0 <= Total(tiers, letters[..i]) <= Total(tiers, letters[..j])
    decreases j
  {
    if j > 0 {
      assert letters[..j][..j - 1] == letters[..j - 1];
      if i < j {
        TotalMonotone(tiers, letters, i, j - 1);
      } else {
        TotalMonotone(tiers, letters, j - 1, j - 1);
      }
    }
  }

  // ---------------------------------------------------------------------
  // Separator lines

  /** The separator rule as written: after the tier at position `tier_index`
      of the full order S..F, a line is drawn when that index is below the
      number of drawn tiers minus one. */
  function LinesAsWritten(bands: seq<Band>, drawn: int): (ys: seq<int>)
    ensures |ys| <= |bands|
    ensures forall y :: y in ys ==>
      exists i :: 0 <= i < |bands| && Rank(bands[i].letter) < drawn - 1 && y == bands[i].top + bands[i].height
    decreases |bands|
  {
    if bands == [] then []
    else
      var b := bands[|bands| - 1];
      LinesAsWritten(bands[..|bands| - 1], drawn)
        + (if Rank(b.letter) < drawn - 1 then [b.top + b.height] else [])
  }

  /** The evident intent: one line under every drawn tier but the last. */
  function SeparatorLines(bands: seq<Band>): (ys: seq<int>)
    ensures |ys| == if bands == [] then 0 else |bands| - 1
  {
    if bands == [] then [] else seq(|bands| - 1, k requires 0 <= k < |bands| - 1 => bands[k].top + bands[k].height)
  }

  /** The corrected lines are exactly the boundaries between adjacent bands:
      each lies on the top edge of the next band. */
  lemma SeparatorLinesAreBoundaries(tiers: TierList)
    ensures var bands := Bands(tiers);
      var ys := SeparatorLines(bands);
      && |ys| == (if bands == [] then 0 else |bands| - 1)
      && (forall k :: 0 <= k < |ys| ==> ys[k] == bands[k + 1].top)
  {
    StackContiguous(tiers, Present(tiers));
  }

  lemma GetAB(a: seq<string>, b: seq<string>)
    ensures var tiers := [Tier('A', a), Tier('B', b)];
      && Get(tiers, 'S') == None && Get(tiers, 'C') == None && Get(tiers, 'D') == None
      && Get(tiers, 'E') == None && Get(tiers, 'F') == None
      && Get(tiers, 'A') == Some(a) && Get(tiers, 'B') == Some(b)
  {
    var tiers := [Tier('A', a), Tier('B', b)];
    assert Letters(tiers) == ['A', 'B'];
  }

  /** With tiers A and B alone, exactly A and then B are drawn. */
  lemma PresentOnlyAB(a: seq<string>, b: seq<string>)
    ensures Present([Tier('A', a), Tier('B', b)]) == ['A', 'B']
  {
    var tiers := [Tier('A', a), Tier('B', b)];
    GetAB(a, b);
    var o := ['S', 'A', 'B'];
    PresentAmongSAB(a, b);
    TierOrderSplit();
    PresentInSnoc(tiers, o, 'C');
    assert PresentIn(tiers, o + ['C']) == ['A', 'B'];
    PresentInSnoc(tiers, o + ['C'], 'D');
    assert PresentIn(tiers, o + ['C'] + ['D']) == ['A', 'B'];
    PresentInSnoc(tiers, o + ['C'] + ['D'], 'E');
    assert PresentIn(tiers, o + ['C'] + ['D'] + ['E']) == ['A', 'B'];
    PresentInSnoc(tiers, o + ['C'] + ['D'] + ['E'], 'F');
  }

  lemma TierOrderSplit()
    ensures TierOrder == ['S', 'A', 'B'] + ['C'] + ['D'] + ['E'] + ['F']
  {
  }

  lemma PresentAmongSAB(a: seq<string>, b: seq<string>)
    ensures PresentIn([Tier('A', a), Tier('B', b)], ['S', 'A', 'B']) == ['A', 'B']
  {
    var tiers := [Tier('A', a), Tier('B', b)];
    var sa: seq<char> := ['S', 'A'];
    PresentAmongSA(a, b);
    assert PresentIn(tiers, sa) == ['A'];
    assert Get(tiers, 'B') == Some(b) by { GetAB(a, b); }
    PresentInSnoc(tiers, sa, 'B');
    assert sa + ['B'] == ['S', 'A', 'B'];
  }

  lemma PresentAmongSA(a: seq<string>, b: seq<string>)
    ensures PresentIn([Tier('A', a), Tier('B', b)], ['S', 'A']) == ['A']
  {
    var tiers := [Tier('A', a), Tier('B', b)];
    GetAB(a, b);
    var o1 := ['S'];
    PresentInSnoc(tiers, [], 'S');
    assert [] + ['S'] == o1;
    PresentInSnoc(tiers, o1, 'A');
    assert o1 + ['A'] == ['S', 'A'];
  }

  /** With only the A and B tiers drawn, the rule as written draws no line
      at all, although the two bands touch: A sits at index 1 and B at index
      2 of the full order, and neither is below 2 - 1. */
  lemma SeparatorMissingBetweenAAndB(a: seq<string>, b: seq<string>)
    ensures |Bands([Tier('A', a), Tier('B', b)])| == 2
    ensures LinesAsWritten(Bands([Tier('A', a), Tier('B', b)]), 2) == []
    ensures |SeparatorLines(Bands([Tier('A', a), Tier('B', b)]))| == 1
  {
    var tiers := [Tier('A', a), Tier('B', b)];
    PresentOnlyAB(a, b);
    var bands := Stack(tiers, ['A', 'B']);
    assert Bands(tiers) == bands;
    StackElements(tiers, ['A', 'B']);
    assert bands == [bands[0]] + [bands[1]];
    assert bands[0].letter == 'A' && bands[1].letter == 'B';
    assert Rank('A') == 1 && Rank('B') == 2;
    LinesSnoc([], bands[0], 2);
    assert LinesAsWritten([], 2) == [];
    assert [] + [bands[0]] == [bands[0]];
    assert LinesAsWritten([bands[0]], 2) == [];
    LinesSnoc([bands[0]], bands[1], 2);
    assert LinesAsWritten(bands, 2) == [];
  }

  /** The rule as written only ever leaves lines out: it never draws one
      under the last band, and every line it draws is a corrected one. */
  lemma LinesAsWrittenAreBoundaries(tiers: TierList)
    ensures var bands := Bands(tiers);
      forall y :: y in LinesAsWritten(bands, |bands|) ==> y in SeparatorLines(bands)
  {
    var present := Present(tiers);
    var bands := Stack(tiers, present);
    PresentInOrder(tiers, |TierOrder|);
    assert TierOrder[..|TierOrder|] == TierOrder;
    StackElements(tiers, present);
    forall i | 0 <= i < |bands| ensures Rank(bands[i].letter) >= i {
      RankAtLeastPosition(present, i);
    }
    LinesWithinBoundaries(bands, |bands|, |bands|);
    assert bands[..|bands|] == bands;
  }

  /** Lines drawn by the rule as written for the first `n` bands, when band
      `i` never sits above position `i` of the full order. */
  lemma {:induction false} LinesWithinBoundaries(bands: seq<Band>, n: nat, drawn: int)
    requires n <= |bands| && drawn <= |bands|
    requires forall i :: 0 <= i < |bands| ==> Rank(bands[i].letter) >= i
    ensures forall y :: y in LinesAsWritten(bands[..n], drawn) ==> y in SeparatorLines(bands)
    decreases n
  {
    if n > 0 {
      LinesWithinBoundaries(bands, n - 1, drawn);
      var b := bands[n - 1];
      assert bands[..n] == bands[..n - 1] + [b];
      LinesSnoc(bands[..n - 1], b, drawn);
      NewLineIsBoundary(bands, n, drawn, LinesAsWritten(bands[..n - 1], drawn), LinesAsWritten(bands[..n], drawn));
    }
  }

  /** The line the rule as written adds under band `n - 1` is a boundary. */
  lemma NewLineIsBoundary(bands: seq<Band>, n: nat, drawn: int, before: seq<int>, after: seq<int>)
    requires 0 < n <= |bands| && drawn <= |bands|
    requires Rank(bands[n - 1].letter) >= n - 1
    requires after == before +
      (if Rank(bands[n - 1].letter) < drawn - 1 then [bands[n - 1].top + bands[n - 1].height] else [])
    requires forall y :: y in before ==> y in SeparatorLines(bands)
    ensures forall y :: y in after ==> y in SeparatorLines(bands)
  {
    if Rank(bands[n - 1].letter) < drawn - 1 {
      assert SeparatorLines(bands)[n - 1] == bands[n - 1].top + bands[n - 1].height;
    }
  }

  /** In a strictly rank-ordered sequence, position `i` has rank at least `i`. */
  lemma {:induction false} RankAtLeastPosition(r: seq<char>, i: nat)
    requires i < |r|
    requires forall a, b :: 0 <= a < b < |r| ==> Rank(r[a]) < Rank(r[b])
    ensures Rank(r[i]) >= i
  {
    if i > 0 {
      RankAtLeastPosition(r, i - 1);
    }
  }

  // ---------------------------------------------------------------------
  // Items within a band

  datatype Point = Point(x: int, y: int)

  function Sum(xs: seq<int>): int
    decreases |xs|
  {
    if xs == [] then 0 else Sum(xs[..|xs| - 1]) + xs[|xs| - 1]
  }

  /** The index of the first item of the row holding item `i`. */
  function RowStart(i: nat): nat {
    (i / MaxGamesPerRow) * MaxGamesPerRow
  }

  /** Where item `i` of a tier whose band starts at `top` is pasted, given
      the widths of the resized images: its row below the earlier rows, and
      right after the earlier items of its row. */
  function ItemAt(top: int, widths: seq<int>, i: nat): Point
    requires i <= |widths|
  {
    Point(TierLabelWidth + Sum(widths[RowStart(i)..i]), top + (i / MaxGamesPerRow) * (GameHeight + RowSpacing))
  }

  /** The paste loop of `generate_tier_list` for one tier. */
  method PlaceItems(top: int, widths: seq<int>) returns (pos: seq<Point>)
    ensures |pos| == |widths|
    ensures forall i :: 0 <= i < |widths| ==> pos[i] == ItemAt(top, widths, i)
  {
    pos := [];
    var x := TierLabelWidth;
    var y := top;
    var i := 0;
    while i < |widths|
      invariant 0 <= i <= |widths| && |pos| == i
      invariant forall k :: 0 <= k < i ==> pos[k] == ItemAt(top, widths, k)
      invariant i > 0 ==> x == ItemAt(top, widths, i - 1).x + widths[i - 1] && y == ItemAt(top, widths, i - 1).y
      invariant i == 0 ==> x == TierLabelWidth && y == top
    {
      if i > 0 {
        ItemStep(top, widths, i);
      }
      if i > 0 && i % MaxGamesPerRow == 0 {
        x := TierLabelWidth;
        y := y + GameHeight + RowSpacing;
      }
      assert Point(x, y) == ItemAt(top, widths, i);
      pos := pos + [Point(x, y)];
      x := x + widths[i];
      i := i + 1;
    }
  }

  /** From one item to the next: a new row starts at every ninth item,
      otherwise the next item sits right of the previous one. */
  lemma ItemStep(top: int, widths: seq<int>, i: nat)
    requires 0 < i < |widths|
    ensures ItemAt(top, widths, i) ==
      if i % MaxGamesPerRow == 0 then
        Point(TierLabelWidth, ItemAt(top, widths, i - 1).y + GameHeight + RowSpacing)
      else
        Point(ItemAt(top, widths, i - 1).x + widths[i - 1], ItemAt(top, widths, i - 1).y)
  {
    if i % MaxGamesPerRow != 0 {
      assert RowStart(i) == RowStart(i - 1);
      assert widths[RowStart(i)..i][..i - 1 - RowStart(i)] == widths[RowStart(i)..i - 1];
    }
  }

  /** Items are packed tightly: the first of each row at the label's edge,
      each further one right where its predecessor ends. */
  lemma ItemsPacked(top: int, widths: seq<int>, i: nat)
    requires i < |widths|
    ensures i % MaxGamesPerRow == 0 ==> ItemAt(top, widths, i).x == TierLabelWidth
    ensures (i + 1) % MaxGamesPerRow != 0 ==>
      ItemAt(top, widths, i + 1).x == ItemAt(top, widths, i).x + widths[i]
      && ItemAt(top, widths, i + 1).y == ItemAt(top, widths, i).y
  {
    if i + 1 < |widths| {
      ItemStep(top, widths, i + 1);
    } else if (i + 1) % MaxGamesPerRow != 0 {
      assert RowStart(i + 1) == RowStart(i);
      assert widths[RowStart(i)..i + 1][..i - RowStart(i)] == widths[RowStart(i)..i];
    }
  }

  /** Every item lies vertically inside its tier's band. */
  lemma ItemsInsideBand(top: int, widths: seq<int>, i: nat)
    requires i < |widths|
    ensures top <= ItemAt(top, widths, i).y
    ensures ItemAt(top, widths, i).y + GameHeight <= top + BandHeight(|widths|)
  {
    assert i / MaxGamesPerRow < Rows(|widths|);
  }

  /** The band is exactly as tall as its rows: the last item's row ends on
      the band's bottom edge. */
  lemma LastRowEndsBand(top: int, widths: seq<int>)
    requires widths != []
    ensures ItemAt(top, widths, |widths| - 1).y + GameHeight == top + BandHeight(|widths|)
  {
    var n := |widths|;
    assert (n - 1) / MaxGamesPerRow == Rows(n) - 1;
  }

  /** A sum of widths none above `bound` is at most `bound` per width. */
  lemma {:induction false} SumAtMost(xs: seq<int>, bound: int)
    requires forall k :: 0 <= k < |xs| ==> xs[k] <= bound
    ensures Sum(xs) <= |xs| * bound
    decreases |xs|
  {
    if xs != [] {
      SumAtMost(xs[..|xs| - 1], bound);
    }
  }

  /** With images no wider than a resized Steam header, every row fits the
      canvas width. */
  lemma ItemsInsideCanvasWidth(top: int, widths: seq<int>, i: nat)
    requires i < |widths|
    requires forall k :: 0 <= k < |widths| ==> widths[k] <= EstimatedImageWidth
    ensures ItemAt(top, widths, i).x + widths[i] <= TierLabelWidth + MaxGamesPerRow * EstimatedImageWidth
  {
    RowStartBounds(i);
    var row := widths[RowStart(i)..i];
    assert EstimatedImageWidth == 256;
    SumAtMost(row, 256);
  }

  /** Item `i` sits at most `MaxGamesPerRow - 1` places after its row's start. */
  lemma RowStartBounds(i: nat)
    ensures RowStart(i) <= i < RowStart(i) + MaxGamesPerRow
  {
    assert i == (i / MaxGamesPerRow) * MaxGamesPerRow + i % MaxGamesPerRow;
  }

  /** `resize_image`: the width that keeps the aspect ratio at height 120. */
  function ResizedWidth(w: nat, h: nat): (r: nat)
    requires h > 0
    ensures r * h <= GameHeight * w < (r + 1) * h
  {
    (GameHeight * w) / h
  }

  /** A Steam header (460 by 215) and the placeholder resize to exactly the
      estimated width. */
  lemma HeaderResizesToEstimate()
    ensures ResizedWidth(460, 215) == EstimatedImageWidth == 256
  {
  }

  // ---------------------------------------------------------------------
  // The drawing loops

  /** The two loops of `generate_tier_list` over the order S..F: the first
      sums the canvas height, the second stacks the bands and draws the
      separators by the rule as written. */
  method DrawPlan(tiers: TierList) returns (canvasHeight: int, bands: seq<Band>, lines: seq<int>)
    ensures canvasHeight == CanvasHeight(tiers)
    ensures bands == Bands(tiers)
    ensures lines == LinesAsWritten(bands, |bands|)
  {
    canvasHeight := 0;
    var k := 0;
    while k < |TierOrder|
      invariant 0 <= k <= |TierOrder|
      invariant canvasHeight == Total(tiers, PresentIn(tiers, TierOrder[..k]))
    {
      var c := TierOrder[k];
      SumStep(tiers, k);
      if Get(tiers, c).Some? {
        canvasHeight := canvasHeight + BandHeight(GameCount(tiers, c));
      }
      k := k + 1;
    }
    assert TierOrder[..k] == TierOrder;
    bands, lines := StackBands(tiers, |Present(tiers)|);
  }

  /** The second loop of `generate_tier_list`, given the number of drawn tiers. */
  method StackBands(tiers: TierList, drawn: int) returns (bands: seq<Band>, lines: seq<int>)
    ensures bands == Bands(tiers)
    ensures lines == LinesAsWritten(bands, drawn)
  {
    var currentY := 0;
    bands := [];
    lines := [];
    var k := 0;
    assert TierOrder[..0] == [];
    while k < |TierOrder|
      invariant 0 <= k <= |TierOrder|
      invariant bands == Stack(tiers, PresentIn(tiers, TierOrder[..k]))
      invariant currentY == Total(tiers, PresentIn(tiers, TierOrder[..k]))
      invariant lines == LinesAsWritten(bands, drawn)
    {
      bands, lines, currentY := DrawTier(tiers, drawn, k, bands, lines, currentY);
      k := k + 1;
    }
    assert TierOrder[..k] == TierOrder;
  }

  /** One pass of that loop: the tier at index `k` of the order, if present,
      gets its band at `currentY`, and a line under it when `k` is below the
      number of drawn tiers minus one. */
  method DrawTier(tiers: TierList, drawn: int, k: nat, bands: seq<Band>, lines: seq<int>, currentY: int)
    returns (bands': seq<Band>, lines': seq<int>, currentY': int)
    requires k < |TierOrder|
    requires bands == Stack(tiers, PresentIn(tiers, TierOrder[..k]))
    requires currentY == Total(tiers, PresentIn(tiers, TierOrder[..k]))
    requires lines == LinesAsWritten(bands, drawn)
    ensures bands' == Stack(tiers, PresentIn(tiers, TierOrder[..k + 1]))
    ensures currentY' == Total(tiers, PresentIn(tiers, TierOrder[..k + 1]))
    ensures lines' == LinesAsWritten(bands', drawn)
  {
    var c := TierOrder[k];
    DrawStep(tiers, k);
    bands', lines', currentY' := bands, lines, currentY;
    if Get(tiers, c).Some? {
      var h := BandHeight(GameCount(tiers, c));
      var b := Band(c, currentY, h);
      RankOfOrder(k);
      lines' := DrawSeparator(bands, b, k, drawn, lines);
      bands' := bands + [b];
      currentY' := currentY + h;
    }
  }

  /** The separator test of that loop for the band `b` of the tier at index
      `k` of the full order. */
  method DrawSeparator(bands: seq<Band>, b: Band, k: nat, drawn: int, lines: seq<int>) returns (lines': seq<int>)
    requires Rank(b.letter) == k
    requires lines == LinesAsWritten(bands, drawn)
    ensures lines' == LinesAsWritten(bands + [b], drawn)
  {
    LinesStep(bands, b, drawn);
    lines' := lines;
    if k < drawn - 1 {
      lines' := lines + [b.top + b.height];
    }
  }

  /** One step of the height loop: a present tier adds its band height. */
  lemma SumStep(tiers: TierList, k: nat)
    requires k < |TierOrder|
    ensures Total(tiers, PresentIn(tiers, TierOrder[..k + 1])) ==
      Total(tiers, PresentIn(tiers, TierOrder[..k]))
        + (if Get(tiers, TierOrder[k]).Some? then BandHeight(GameCount(tiers, TierOrder[k])) else 0)
  {
    var done := PresentIn(tiers, TierOrder[..k]);
    OrderSnoc(tiers, k);
    if Get(tiers, TierOrder[k]).Some? {
      TotalSnoc(tiers, done, TierOrder[k]);
    } else {
      assert done + [] == done;
    }
  }

  /** One step of the drawing loop: a present tier adds its band below the
      others. */
  lemma DrawStep(tiers: TierList, k: nat)
    requires k < |TierOrder|
    ensures var c := TierOrder[k];
      var done := PresentIn(tiers, TierOrder[..k]);
      var next := PresentIn(tiers, TierOrder[..k + 1]);
      var b := Band(c, Total(tiers, done), BandHeight(GameCount(tiers, c)));
      if Get(tiers, c).Some? then
        && Stack(tiers, next) == Stack(tiers, done) + [b]
        && Total(tiers, next) == Total(tiers, done) + b.height
      else
        next == done
  {
    var c := TierOrder[k];
    var done := PresentIn(tiers, TierOrder[..k]);
    OrderSnoc(tiers, k);
    if Get(tiers, c).Some? {
      StackSnoc(tiers, done, c);
      TotalSnoc(tiers, done, c);
    }
  }

  /** One more letter of the drawing order adds that letter when present. */
  lemma OrderSnoc(tiers: TierList, k: nat)
    requires k < |TierOrder|
    ensures PresentIn(tiers, TierOrder[..k + 1]) ==
      PresentIn(tiers, TierOrder[..k]) + (if Get(tiers, TierOrder[k]).Some? then [TierOrder[k]] else [])
  {
    assert TierOrder[..k + 1] == TierOrder[..k] + [TierOrder[k]];
    PresentInSnoc(tiers, TierOrder[..k], TierOrder[k]);
  }

  lemma TotalSnoc(tiers: TierList, letters: seq<char>, c: char)
    ensures Total(tiers, letters + [c]) == Total(tiers, letters) + BandHeight(GameCount(tiers, c))
  {
    assert (letters + [c])[..|letters|] == letters;
  }

  /** Stacking one more letter puts its band right below the others. */
  lemma StackSnoc(tiers: TierList, letters: seq<char>, c: char)
    ensures Stack(tiers, letters + [c]) ==
      Stack(tiers, letters) + [Band(c, Total(tiers, letters), BandHeight(GameCount(tiers, c)))]
  {
    assert (letters + [c])[..|letters|] == letters;
  }

  lemma LinesStep(bands: seq<Band>, b: Band, drawn: int)
    ensures LinesAsWritten(bands + [b], drawn) ==
      if Rank(b.letter) < drawn - 1 then LinesAsWritten(bands, drawn) + [b.top + b.height]
      else LinesAsWritten(bands, drawn)
  {
    LinesSnoc(bands, b, drawn);
    assert LinesAsWritten(bands, drawn) + [] == LinesAsWritten(bands, drawn);
  }

  lemma LinesSnoc(bands: seq<Band>, b: Band, drawn: int)
    ensures LinesAsWritten(bands + [b], drawn) ==
      LinesAsWritten(bands, drawn) + (if Rank(b.letter) < drawn - 1 then [b.top + b.height] else [])
  {
    assert (bands + [b])[..|bands|] == bands;
  }

  /** Every drawn band lies inside the canvas, at least one game high, and
      above every later band. */
  predicate BandsFit(tiers: TierList) {
    var bands := Bands(tiers);
    && (forall i :: 0 <= i < |bands| ==>
          0 <= bands[i].top && bands[i].height >= GameHeight
          && bands[i].top + bands[i].height <= CanvasHeight(tiers))
    && (forall i, j :: 0 <= i < j < |bands| ==> bands[i].top + bands[i].height <= bands[j].top)
  }

  /** Every corrected separator lies on the top edge of the next band and
      strictly inside the canvas. */
  predicate SeparatorsFit(tiers: TierList) {
    var ys := SeparatorLines(Bands(tiers));
    forall k :: 0 <= k < |ys| ==> ys[k] == Bands(tiers)[k + 1].top && 0 < ys[k] < CanvasHeight(tiers)
  }

  /** When every tier holds a game, every band lies inside the canvas, one
      below the other, at least one game high. */
  lemma LayoutFits(tiers: TierList)
    requires forall t :: t in tiers ==> t.games != []
    ensures BandsFit(tiers)
  {
    var present := Present(tiers);
    forall c | c in present ensures GameCount(tiers, c) >= 1 {
      assert Tier(c, Get(tiers, c).value) in tiers;
    }
    StackFillsCanvas(tiers, present);
    assert Bands(tiers) == Stack(tiers, present);
    assert CanvasHeight(tiers) == Total(tiers, present);
  }

  /** What the updater hands the generator always fits the canvas, at least
      one band is drawn when a ranked tier is S to F, and every corrected
      separator lies strictly inside the canvas on the top edge of a band. */
  lemma RenderedLayoutFits(ratio: (string, string) -> real, episodes: seq<Episode>, docContent: string)
    requires UpdateTierList(ratio, episodes, docContent).Render?
    ensures BandsFit(UpdateTierList(ratio, episodes, docContent).tiers)
    ensures var tiers := UpdateTierList(ratio, episodes, docContent).tiers;
      (exists t :: t in tiers && t.letter in TierOrder) ==> Bands(tiers) != []
    ensures SeparatorsFit(UpdateTierList(ratio, episodes, docContent).tiers)
  {
    var tiers := UpdateTierList(ratio, episodes, docContent).tiers;
    LayoutFits(tiers);
    SeparatorsInsideCanvas(tiers);
    RankedTierIsDrawn(tiers);
  }

  /** With non-empty tiers, every corrected separator lies on the top edge
      of a band and strictly inside the canvas. */
  lemma SeparatorsInsideCanvas(tiers: TierList)
    requires forall t :: t in tiers ==> t.games != []
    ensures SeparatorsFit(tiers)
  {
    LayoutFits(tiers);
    SeparatorLinesAreBoundaries(tiers);
    var bands := Bands(tiers);
    var ys := SeparatorLines(bands);
    var h := CanvasHeight(tiers);
    forall k | 0 <= k < |ys| ensures ys[k] == bands[k + 1].top && 0 < ys[k] < h {
      assert 0 <= bands[k].top && bands[k].height >= GameHeight;
      assert bands[k + 1].top + bands[k + 1].height <= h && bands[k + 1].height >= GameHeight;
    }
  }

  /** A tier whose letter is S to F is drawn. */
  lemma RankedTierIsDrawn(tiers: TierList)
    ensures (exists t :: t in tiers && t.letter in TierOrder) ==> Bands(tiers) != []
  {
    if t :| t in tiers && t.letter in TierOrder {
      assert t.letter in Letters(tiers);
      assert t.letter in Present(tiers);
    }
  }
}
