/**
 * The vertical stacking of item frames inside the sidebar panel
 * (`layoutItems` in FrostedSidebar.swift), as exact real arithmetic.
 */
module Layout {
  import opened Geometry

  /** The gap left of every item; the same value is used above and between items. */
  function Padding(width: real, itemSize: Size): real
  {
    (width - itemSize.width) / 2.0
  }

  /** How many item-plus-gap slots lie above item `index`; half a slot more under a navigation bar. */
  function Slot(index: nat, adjustForNavigationBar: bool): real
  {
    if adjustForNavigationBar then index as real + 0.5 else index as real
  }

  /** The frame of item `index` in a panel `width` wide. */
  function ItemFrame(width: real, itemSize: Size, adjustForNavigationBar: bool, index: nat): (r: Rect)
    ensures r.width == itemSize.width && r.height == itemSize.height
    // the item is centred horizontally in the panel
    ensures r.x + r.width / 2.0 == width / 2.0
    // above the item: one top gap, then `Slot` whole slots of item height plus gap
    ensures r.y == Padding(width, itemSize) + Slot(index, adjustForNavigationBar) * (itemSize.height + Padding(width, itemSize))
  {
    var pad := Padding(width, itemSize);
    var k := Slot(index, adjustForNavigationBar);
    Rect(pad, pad * k + itemSize.height * k + pad, itemSize.width, itemSize.height)
  }

  /** The frames of items 0 .. n-1. */
  function Frames(width: real, itemSize: Size, adjustForNavigationBar: bool, n: nat): (frames: seq<Rect>)
    ensures |frames| == n
    ensures forall i :: 0 <= i < n ==> frames[i] == ItemFrame(width, itemSize, adjustForNavigationBar, i)
  {
    seq(n, i requires 0 <= i < n => ItemFrame(width, itemSize, adjustForNavigationBar, i))
  }

  /** The scrollable height of the panel holding n items. */
  function ContentHeight(width: real, itemSize: Size, adjustForNavigationBar: bool, n: nat): (h: real)
    // n item-and-gap slots (half a slot more under a navigation bar) below one top gap
    ensures h == Padding(width, itemSize) + Slot(n, adjustForNavigationBar) * (itemSize.height + Padding(width, itemSize))
  {
    var pad := Padding(width, itemSize);
    var count := n as real;
    if adjustForNavigationBar then (count + 0.5) * (itemSize.height + pad) + pad
    else count * (itemSize.height + pad) + pad
  }

  /** Nonlinear steps kept apart, so that the layout proofs stay small. */
  lemma ProductPositive(a: real, b: real)
    requires a > 0.0 && b > 0.0
    ensures a * b > 0.0
  {
  }

  lemma ProductMonotone(a: real, b: real, c: real)
    requires a >= 0.0 && b <= c
    ensures a * b <= a * c
  {
  }

  /** When an item and its gap take up room, item tops strictly increase down the panel. */
  lemma ItemTopsIncrease(width: real, itemSize: Size, adjustForNavigationBar: bool, i: nat, j: nat)
    requires i < j
    requires itemSize.height + Padding(width, itemSize) > 0.0
    ensures ItemFrame(width, itemSize, adjustForNavigationBar, i).y < ItemFrame(width, itemSize, adjustForNavigationBar, j).y
  {
    var stride := itemSize.height + Padding(width, itemSize);
    var ki, kj := Slot(i, adjustForNavigationBar), Slot(j, adjustForNavigationBar);
    assert kj - ki == (j - i) as real;
    ProductPositive(kj - ki, stride);
    assert kj * stride - ki * stride == (kj - ki) * stride;
    assert ItemFrame(width, itemSize, adjustForNavigationBar, i).y == Padding(width, itemSize) + ki * stride;
    assert ItemFrame(width, itemSize, adjustForNavigationBar, j).y == Padding(width, itemSize) + kj * stride;
  }

  /** Item j starts no higher than the bottom of item i plus the gap, for every later j. */
  lemma LaterItemBelowGap(width: real, itemSize: Size, adjustForNavigationBar: bool, i: nat, j: nat)
    requires i < j
    requires itemSize.height >= 0.0 && Padding(width, itemSize) >= 0.0
    ensures ItemFrame(width, itemSize, adjustForNavigationBar, i).y + itemSize.height + Padding(width, itemSize)
            <= ItemFrame(width, itemSize, adjustForNavigationBar, j).y
  {
    var stride := itemSize.height + Padding(width, itemSize);
    var ki, kj := Slot(i, adjustForNavigationBar), Slot(j, adjustForNavigationBar);
    assert kj - ki >= 1.0;
    ProductMonotone(stride, 1.0, kj - ki);
    assert kj * stride - ki * stride == (kj - ki) * stride;
  }

  /**
   * With items no wider than the panel and a non-negative item height,
   * no point lies in two different item frames.
   */
  lemma ItemsDisjoint(width: real, itemSize: Size, adjustForNavigationBar: bool, i: nat, j: nat, p: Point)
    requires i != j
    requires itemSize.height >= 0.0 && Padding(width, itemSize) >= 0.0
    ensures !(ItemFrame(width, itemSize, adjustForNavigationBar, i).Contains(p)
              && ItemFrame(width, itemSize, adjustForNavigationBar, j).Contains(p))
  {
    if i < j {
      LaterItemBelowGap(width, itemSize, adjustForNavigationBar, i, j);
    } else {
      LaterItemBelowGap(width, itemSize, adjustForNavigationBar, j, i);
    }
  }

  /**
   * Every item lies within the scrollable content: at least one gap below the top
   * and at least one gap above the bottom, and the last item is exactly one gap above it.
   */
  lemma ItemsInsideContent(width: real, itemSize: Size, adjustForNavigationBar: bool, n: nat, i: nat)
    requires i < n
    requires itemSize.height + Padding(width, itemSize) >= 0.0
    ensures ItemFrame(width, itemSize, adjustForNavigationBar, i).y >= Padding(width, itemSize)
    ensures ItemFrame(width, itemSize, adjustForNavigationBar, i).y + itemSize.height + Padding(width, itemSize)
            <= ContentHeight(width, itemSize, adjustForNavigationBar, n)
    ensures i == n - 1 ==>
              ItemFrame(width, itemSize, adjustForNavigationBar, i).y + itemSize.height + Padding(width, itemSize)
              == ContentHeight(width, itemSize, adjustForNavigationBar, n)
  {
    var stride := itemSize.height + Padding(width, itemSize);
    var ki := Slot(i, adjustForNavigationBar);
    var kn := Slot(n, adjustForNavigationBar);
    var top := ItemFrame(width, itemSize, adjustForNavigationBar, i).y;
    assert top == Padding(width, itemSize) + ki * stride;
    ProductMonotone(stride, 0.0, ki);
    ProductMonotone(stride, ki + 1.0, kn);
    assert ki * stride + stride == (ki + 1.0) * stride;
    assert top + itemSize.height + Padding(width, itemSize) == Padding(width, itemSize) + (ki + 1.0) * stride;
    assert ContentHeight(width, itemSize, adjustForNavigationBar, n) == kn * stride + Padding(width, itemSize);
    assert i == n - 1 ==> ki + 1.0 == kn;
  }
}
