/**
 * Hit-testing of taps against the item frames (`indexOfTap`) and the
 * dispatch decision of `handleTap` in FrostedSidebar.swift.
 */
module HitTest {
  import opened Wrappers
  import opened Geometry
  import Layout

  /** The lowest index whose frame contains `p`, or None when no frame does. */
  function FirstHit(frames: seq<Rect>, p: Point): (r: Option<nat>)
    ensures r.Some? ==> r.value < |frames| && frames[r.value].Contains(p)
    ensures r.Some? ==> forall j :: 0 <= j < r.value ==> !frames[j].Contains(p)
    ensures r.None? <==> forall j :: 0 <= j < |frames| ==> !frames[j].Contains(p)
    decreases |frames|
  {
    if |frames| == 0 then None
    else if frames[0].Contains(p) then Some(0)
    else match FirstHit(frames[1..], p)
      case None => None
      case Some(j) => Some(j + 1)
  }

  /**
   * On a laid-out panel whose items fit its width, the order of the search does not
   * matter: the hit index is exactly the item whose frame contains the point.
   */
  lemma HitOnLayoutIsExact(width: real, itemSize: Size, adjustForNavigationBar: bool, n: nat, p: Point, i: nat)
    requires itemSize.height >= 0.0 && Layout.Padding(width, itemSize) >= 0.0
    ensures FirstHit(Layout.Frames(width, itemSize, adjustForNavigationBar, n), p) == Some(i)
            <==> i < n && Layout.ItemFrame(width, itemSize, adjustForNavigationBar, i).Contains(p)
  {
    var frames := Layout.Frames(width, itemSize, adjustForNavigationBar, n);
    if i < n && frames[i].Contains(p) {
      var r := FirstHit(frames, p);
      assert r.Some?;
      if r.value != i {
        Layout.ItemsDisjoint(width, itemSize, adjustForNavigationBar, i, r.value, p);
      }
    }
  }

  /** What a tap on the sidebar's view leads to. */
  datatype TapAction = DismissSidebar | SelectItem(index: nat) | Ignore

  /**
   * `handleTap`: a tap outside the panel dismisses the sidebar; a tap inside selects
   * the first item hit, if there is one, and does nothing otherwise.
   */
  function ClassifyTap(contentFrame: Rect, frames: seq<Rect>, locationInView: Point, locationInContent: Point): (a: TapAction)
    ensures a.DismissSidebar? <==> !contentFrame.Contains(locationInView)
    ensures a.SelectItem? ==> contentFrame.Contains(locationInView)
                              && a.index < |frames| && frames[a.index].Contains(locationInContent)
                              && forall j :: 0 <= j < a.index ==> !frames[j].Contains(locationInContent)
    ensures a.Ignore? <==> contentFrame.Contains(locationInView)
                           && forall j :: 0 <= j < |frames| ==> !frames[j].Contains(locationInContent)
  {
    if !contentFrame.Contains(locationInView) then DismissSidebar
    else match FirstHit(frames, locationInContent)
      case None => Ignore
      case Some(i) => SelectItem(i)
  }
}
