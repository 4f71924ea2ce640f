/**
 * The `FrostedSidebar` view controller as a state machine: its selection, the item
 * frames it lays out, whether it is open and attached to a parent, and the calls it
 * makes to its delegate, its item actions and its completion handlers, recorded in
 * order in `events`. Drawing, animation and view-controller containment are not
 * modelled beyond the flags and frames they leave behind.
 */
module Sidebar {
  import opened Wrappers
  import opened Geometry
  import Layout
  import HitTest
  import Selection

  /** An item image; only the number of images matters to the model. */
  datatype Image = Image(name: string)

  /** A ring colour; colours are only drawn, never computed with. */
  datatype Color = Color(red: real, green: real, blue: real, alpha: real)

  /** An outward call made by the sidebar, in the order it is made. */
  datatype Event =
    | WillShow(animated: bool)              // delegate: willShowOnScreenAnimated
    | DidShow(animated: bool)               // delegate: didShowOnScreenAnimated
    | WillDismiss(animated: bool)           // delegate: willDismissFromScreenAnimated
    | DidDismiss(animated: bool)            // delegate: didDismissFromScreenAnimated
    | DidTapItem(index: int)                // delegate: didTapItemAtIndex
    | DidEnable(enabled: bool, index: int)  // delegate: didEnable itemAtIndex
    | ActionRan(index: int)                 // the closure in actionForIndex[index]
    | CompletionRan(finished: bool)         // the completion handler given to dismissAnimated

  /** Delegate calls happen only when a delegate is set (`delegate?.…`). */
  function ToDelegate(hasDelegate: bool, calls: seq<Event>): (r: seq<Event>)
    ensures hasDelegate ==> r == calls
    ensures !hasDelegate ==> r == []
  {
    if hasDelegate then calls else []
  }

  /** The calls made by `selectItemAtIndex`: the item's action, then the two delegate calls. */
  function TapEvents(hasDelegate: bool, hasAction: bool, index: int, didEnable: bool): seq<Event>
  {
    (if hasAction then [ActionRan(index)] else [])
    + ToDelegate(hasDelegate, [DidTapItem(index), DidEnable(didEnable, index)])
  }

  /** The calls made by the completion block of `dismissAnimated`; it always reports `animated: true`. */
  function DismissCompletionEvents(hasDelegate: bool, finished: bool, hasCompletion: bool): seq<Event>
  {
    ToDelegate(hasDelegate, [DidDismiss(true)])
    + (if hasCompletion then [CompletionRan(finished)] else [])
  }

  /** The calls made by `dismissAnimated` itself, before any deferred completion. */
  function DismissEvents(hasDelegate: bool, animated: bool, hasCompletion: bool): seq<Event>
  {
    ToDelegate(hasDelegate, [WillDismiss(animated)])
    + (if animated then [] else DismissCompletionEvents(hasDelegate, true, hasCompletion))
  }

  /** The calls made by `showInViewController` after any earlier sidebar was dismissed. */
  function ShowEvents(hasDelegate: bool, animated: bool): seq<Event>
  {
    ToDelegate(hasDelegate, [WillShow(animated)] + (if animated then [] else [DidShow(false)]))
  }

  /** The sidebar held in the shared slot, as a set that is empty when the slot is. */
  function Prev(slot: SharedSlot): (r: set<FrostedSidebar>)
    reads slot
    ensures slot.current != null <==> slot.current in r
    ensures forall b :: b in r ==> b == slot.current
  {
    if slot.current == null then {} else {slot.current}
  }

  class FrostedSidebar {
    // Public configuration, assignable by clients at any time.
    var width: real
    var showFromRight: bool
    var itemSize: Size
    var adjustForNavigationBar: bool
    var hasDelegate: bool          // `delegate != nil`
    var actionIndices: set<int>    // the keys of `actionForIndex`

    // Public state.
    var selected: set<nat>         // `selectedIndices`
    var selectionStyle: Selection.SelectionStyle
    var isCurrentlyOpen: bool

    // Private state.
    var images: seq<Image>
    var borderColors: Option<seq<Color>>
    var frames: seq<Rect>          // the frames of `itemViews`, one per image
    var contentFrame: Rect         // `contentView.frame`
    var contentHeight: real        // `contentView.contentSize.height`
    var viewSize: Size             // `view.bounds.size`
    var attached: bool             // added to a parent view controller

    var events: seq<Event>

    // Completion blocks handed to the host's animation system and not yet run, with the
    // value each one captured: `animated` for a show, whether a completion handler was
    // given for a dismissal.
    var pendingShow: seq<bool>
    var pendingDismiss: seq<bool>

    /** One item view per image, and a ring colour per image when colours are given. */
    ghost predicate Valid()
      reads this
    {
      |frames| == |images|
      && (borderColors.Some? ==> |borderColors.value| == |images|)
    }

    /** Every selected index names an item. */
    ghost predicate SelectionInRange()
      reads this
    {
      forall i :: i in selected ==> i < |images|
    }

    /**
     * `init(itemImages:colors:selectionStyle:)`. The style's observer does not run
     * inside the initialiser, so even `.all` starts with nothing selected.
     */
    constructor (itemImages: seq<Image>, colors: Option<seq<Color>>, style: Selection.SelectionStyle)
      requires colors.Some? ==> |colors.value| == |itemImages|
      ensures Valid() && SelectionInRange()
      ensures images == itemImages && borderColors == colors && selectionStyle == style
      ensures selected == {}
      ensures frames == seq(|itemImages|, _ => ZeroRect)
      ensures width == 145.0 && !showFromRight && itemSize == Size(90.0, 90.0) && !adjustForNavigationBar
      ensures !hasDelegate && actionIndices == {}
      ensures !isCurrentlyOpen && !attached && events == []
      ensures pendingShow == [] && pendingDismiss == []
      ensures contentFrame == ZeroRect && contentHeight == 0.0 && viewSize == Size(0.0, 0.0)
    {
      var itemFrames: seq<Rect> := [];
      var index := 0;
      while index < |itemImages|
        invariant 0 <= index <= |itemImages|
        invariant itemFrames == seq(index, _ => ZeroRect)
      {
        itemFrames := itemFrames + [ZeroRect];
        index := index + 1;
      }
      width := 145.0;
      showFromRight := false;
      itemSize := Size(90.0, 90.0);
      adjustForNavigationBar := false;
      hasDelegate := false;
      actionIndices := {};
      selected := {};
      selectionStyle := style;
      isCurrentlyOpen := false;
      images := itemImages;
      borderColors := colors;
      frames := itemFrames;
      contentFrame := ZeroRect;
      contentHeight := 0.0;
      viewSize := Size(0.0, 0.0);
      attached := false;
      events := [];
      pendingShow := [];
      pendingDismiss := [];
    }

    /** Assigning `selectionStyle`: the observer selects every item when the style is `.all`. */
    method SetSelectionStyle(style: Selection.SelectionStyle)
      requires Valid()
      modifies this`selectionStyle, this`selected
      ensures selectionStyle == style
      ensures selected == Selection.StyleAssigned(style, |images|, old(selected))
      ensures style == Selection.All ==> SelectionInRange()
      ensures old(SelectionInRange()) ==> SelectionInRange()
    {
      selectionStyle := style;
      if style == Selection.All {
        selected := Selection.AllIndices(|images|);
      }
    }

    /**
     * `selectItemAtIndex`: updates the selection as `Selection.Tap` says, runs the
     * item's action, then tells the delegate which item was tapped and whether it was
     * enabled, i.e. whether it was unselected before the tap.
     */
    method SelectItemAtIndex(index: int)
      requires Valid()
      requires borderColors.Some? ==> 0 <= index < |images|
      modifies this`selected, this`events
      ensures selected == Selection.Tap(selectionStyle, borderColors.Some?, old(selected), index).selected
      ensures events == old(events) + TapEvents(hasDelegate, index in actionIndices, index, index !in old(selected))
      ensures old(SelectionInRange()) ==> SelectionInRange()
    {
      var didEnable := index !in selected;
      if borderColors.Some? {
        if didEnable {
          if selectionStyle == Selection.Single {
            selected := {};
          }
          selected := selected + {index as nat};
        } else if selectionStyle == Selection.None {
          selected := selected - {index as nat};
        }
      }
      if index in actionIndices {
        events := events + [ActionRan(index)];
      }
      if hasDelegate {
        events := events + [DidTapItem(index)];
        events := events + [DidEnable(didEnable, index)];
      }
    }

    /** `layoutItems`: stacks the item frames down the panel and sizes the scrollable content. */
    method LayoutItems()
      requires Valid()
      modifies this`frames, this`contentHeight
      ensures Valid()
      ensures frames == Layout.Frames(width, itemSize, adjustForNavigationBar, |images|)
      ensures contentHeight == Layout.ContentHeight(width, itemSize, adjustForNavigationBar, |images|)
    {
      var leftPadding := (width - itemSize.width) / 2.0;
      var topPadding := leftPadding;
      var index := 0;
      while index < |frames|
        invariant 0 <= index <= |frames| == |images|
        invariant forall j :: 0 <= j < index ==> frames[j] == Layout.ItemFrame(width, itemSize, adjustForNavigationBar, j)
      {
        var idx := if adjustForNavigationBar then index as real + 0.5 else index as real;
        var frame := Rect(leftPadding, topPadding * idx + itemSize.height * idx + topPadding, itemSize.width, itemSize.height);
        frames := frames[index := frame];
        index := index + 1;
      }
      var itemCount := |frames| as real;
      assert topPadding == Layout.Padding(width, itemSize) && itemCount == |images| as real;
      if adjustForNavigationBar {
        contentHeight := (itemCount + 0.5) * (itemSize.height + topPadding) + topPadding;
      } else {
        contentHeight := itemCount * (itemSize.height + topPadding) + topPadding;
      }
    }

    /** `indexOfTap`: the first item, in order, whose frame contains the location. */
    method IndexOfTap(location: Point) returns (index: Option<nat>)
      ensures index == HitTest.FirstHit(frames, location)
      ensures index.Some? ==> index.value < |frames| && frames[index.value].Contains(location)
      ensures index.None? ==> forall j :: 0 <= j < |frames| ==> !frames[j].Contains(location)
    {
      index := None;
      var idx := 0;
      while idx < |frames|
        invariant 0 <= idx <= |frames|
        invariant forall j :: 0 <= j < idx ==> !frames[j].Contains(location)
      {
        if frames[idx].Contains(location) {
          index := Some(idx);
          break;
        }
        idx := idx + 1;
      }
    }

    /**
     * The completion block of `dismissAnimated`: detaches from the parent, tells the
     * delegate (always with `animated: true`), lays the items out again and calls the
     * caller's completion handler. A dismissal without animation runs it at once; for an
     * animated one the host runs it through `FinishDismissAnimation`.
     */
    method DismissCompletion(finished: bool, hasCompletion: bool)
      requires Valid()
      modifies this`attached, this`events, this`frames, this`contentHeight
      ensures Valid() && !attached
      ensures events == old(events) + DismissCompletionEvents(hasDelegate, finished, hasCompletion)
      ensures frames == Layout.Frames(width, itemSize, adjustForNavigationBar, |images|)
      ensures contentHeight == Layout.ContentHeight(width, itemSize, adjustForNavigationBar, |images|)
    {
      attached := false;
      if hasDelegate {
        events := events + [DidDismiss(true)];
      }
      LayoutItems();
      if hasCompletion {
        events := events + [CompletionRan(finished)];
      }
    }

    /**
     * `dismissAnimated`: tells the delegate, then either completes at once or moves the
     * panel off screen and leaves the completion to the animation; either way the
     * sidebar is no longer open.
     */
    method DismissAnimated(animated: bool, hasCompletion: bool)
      requires Valid()
      modifies this`isCurrentlyOpen, this`events, this`contentFrame, this`attached, this`frames, this`contentHeight
      modifies this`pendingDismiss
      ensures Valid() && !isCurrentlyOpen
      ensures pendingDismiss == old(pendingDismiss) + (if animated then [hasCompletion] else [])
      ensures events == old(events) + DismissEvents(hasDelegate, animated, hasCompletion)
      ensures animated ==> contentFrame == old(contentFrame).(x := if showFromRight then viewSize.width else -width)
      ensures animated ==> attached == old(attached) && frames == old(frames) && contentHeight == old(contentHeight)
      ensures !animated ==> contentFrame == old(contentFrame) && !attached
      ensures !animated ==> frames == Layout.Frames(width, itemSize, adjustForNavigationBar, |images|)
      ensures !animated ==> contentHeight == Layout.ContentHeight(width, itemSize, adjustForNavigationBar, |images|)
    {
      if hasDelegate {
        events := events + [WillDismiss(animated)];
      }
      if animated {
        var parentWidth := viewSize.width;
        contentFrame := contentFrame.(x := if showFromRight then parentWidth else -width);
        pendingDismiss := pendingDismiss + [hasCompletion];
      } else {
        DismissCompletion(true, hasCompletion);
      }
      isCurrentlyOpen := false;
    }

    /**
     * The host's animation system runs the completion block of the animated dismissal
     * scheduled `k`-th among those still pending, with the handler it captured.
     */
    method FinishDismissAnimation(k: nat, finished: bool)
      requires Valid() && k < |pendingDismiss|
      modifies this`pendingDismiss, this`attached, this`events, this`frames, this`contentHeight
      ensures Valid() && !attached
      ensures pendingDismiss == old(pendingDismiss[..k] + pendingDismiss[k + 1..])
      ensures events == old(events) + DismissCompletionEvents(hasDelegate, finished, old(pendingDismiss[k]))
      ensures frames == Layout.Frames(width, itemSize, adjustForNavigationBar, |images|)
      ensures contentHeight == Layout.ContentHeight(width, itemSize, adjustForNavigationBar, |images|)
    {
      var hasCompletion := pendingDismiss[k];
      pendingDismiss := pendingDismiss[..k] + pendingDismiss[k + 1..];
      DismissCompletion(finished, hasCompletion);
    }

    /** The completion block of `showInViewController`, with the `animated` flag it captured. */
    method ShowCompletion(finished: bool, animated: bool)
      modifies this`events
      ensures events == old(events) + ToDelegate(hasDelegate && finished, [DidShow(animated)])
    {
      if finished && hasDelegate {
        events := events + [DidShow(animated)];
      }
    }

    /**
     * The host's animation system runs the completion block of the animated show
     * scheduled `k`-th among those still pending, with the flag it captured.
     */
    method FinishShowAnimation(k: nat, finished: bool)
      requires k < |pendingShow|
      modifies this`pendingShow, this`events
      ensures pendingShow == old(pendingShow[..k] + pendingShow[k + 1..])
      ensures events == old(events) + ToDelegate(hasDelegate && finished, [DidShow(old(pendingShow[k]))])
    {
      var animated := pendingShow[k];
      pendingShow := pendingShow[..k] + pendingShow[k + 1..];
      ShowCompletion(finished, animated);
    }

    /**
     * `showInViewController`: dismisses whatever sidebar is shown (this one included),
     * claims the shared slot, attaches to the parent, places the panel against the chosen
     * edge and lays out the items; the sidebar is then open.
     */
    method ShowInViewController(parentBounds: Size, slot: SharedSlot, animated: bool)
      requires Valid() && slot.Valid()
      modifies this`frames, this`contentHeight, this`contentFrame, this`viewSize, this`attached
      modifies this`events, this`isCurrentlyOpen, this`pendingShow, this`pendingDismiss
      modifies slot
      modifies Prev(slot)`frames, Prev(slot)`contentHeight, Prev(slot)`contentFrame, Prev(slot)`attached
      modifies Prev(slot)`events, Prev(slot)`isCurrentlyOpen, Prev(slot)`pendingDismiss
      ensures Valid() && slot.Valid()
      ensures pendingShow == old(pendingShow) + (if animated then [animated] else [])
      ensures pendingDismiss == old(pendingDismiss)
      ensures slot.current == this && isCurrentlyOpen && attached
      ensures viewSize == parentBounds
      ensures contentFrame == Rect(if showFromRight then parentBounds.width - width else 0.0, 0.0, width, parentBounds.height)
      ensures frames == Layout.Frames(width, itemSize, adjustForNavigationBar, |images|)
      ensures contentHeight == Layout.ContentHeight(width, itemSize, adjustForNavigationBar, |images|)
      ensures events == old(events)
                        + (if old(slot.current) == this then DismissEvents(hasDelegate, false, false) else [])
                        + ShowEvents(hasDelegate, animated)
      ensures var previous := old(slot.current);
              previous != null && previous != this ==>
                previous.Valid() && !previous.isCurrentlyOpen && !previous.attached
                && previous.events == old(previous.events) + DismissEvents(previous.hasDelegate, false, false)
                && previous.pendingDismiss == old(previous.pendingDismiss)
                && previous.contentFrame == old(previous.contentFrame)
                && previous.frames == Layout.Frames(previous.width, previous.itemSize, previous.adjustForNavigationBar, |previous.images|)
                && previous.contentHeight == Layout.ContentHeight(previous.width, previous.itemSize, previous.adjustForNavigationBar, |previous.images|)
    {
      LayoutItems();
      ClaimSharedSlot(slot, animated);
      Present(parentBounds, animated);
    }

    /**
     * The rest of `showInViewController` once the shared slot is claimed: place the
     * panel, then either hand the completion block, holding `animated`, to the
     * animation or run it at once; the sidebar is then open.
     */
    method Present(parentBounds: Size, animated: bool)
      requires Valid()
      modifies this`frames, this`contentHeight, this`contentFrame, this`viewSize, this`attached
      modifies this`pendingShow, this`events, this`isCurrentlyOpen
      ensures Valid() && isCurrentlyOpen && attached && viewSize == parentBounds
      ensures contentFrame == Rect(if showFromRight then parentBounds.width - width else 0.0, 0.0, width, parentBounds.height)
      ensures frames == Layout.Frames(width, itemSize, adjustForNavigationBar, |images|)
      ensures contentHeight == Layout.ContentHeight(width, itemSize, adjustForNavigationBar, |images|)
      ensures pendingShow == old(pendingShow) + (if animated then [animated] else [])
      ensures events == old(events) + ToDelegate(hasDelegate && !animated, [DidShow(false)])
    {
      PlacePanel(parentBounds);
      if animated {
        pendingShow := pendingShow + [animated];
      } else {
        ShowCompletion(true, animated);
      }
      isCurrentlyOpen := true;
    }

    /**
     * The middle of `showInViewController`: attach to the parent, take its bounds, put
     * the panel against the chosen edge at full height and lay the items out.
     */
    method PlacePanel(parentBounds: Size)
      requires Valid()
      modifies this`frames, this`contentHeight, this`contentFrame, this`viewSize, this`attached
      ensures Valid() && attached && viewSize == parentBounds
      ensures contentFrame == Rect(if showFromRight then parentBounds.width - width else 0.0, 0.0, width, parentBounds.height)
      ensures frames == Layout.Frames(width, itemSize, adjustForNavigationBar, |images|)
      ensures contentHeight == Layout.ContentHeight(width, itemSize, adjustForNavigationBar, |images|)
    {
      attached := true;
      viewSize := parentBounds;
      var parentWidth := viewSize.width;
      contentFrame := Rect(if showFromRight then parentWidth else -width, 0.0, width, parentBounds.height);
      LayoutItems();
      contentFrame := contentFrame.(x := if showFromRight then parentWidth - width else 0.0);
    }

    /**
     * The start of `showInViewController`: dismiss the shared sidebar, warn the delegate
     * and become the shared sidebar.
     */
    method ClaimSharedSlot(slot: SharedSlot, animated: bool)
      requires Valid() && slot.Valid()
      modifies this`frames, this`contentHeight, this`contentFrame, this`attached
      modifies this`events, this`isCurrentlyOpen, this`pendingDismiss
      modifies slot
      modifies Prev(slot)`frames, Prev(slot)`contentHeight, Prev(slot)`contentFrame, Prev(slot)`attached
      modifies Prev(slot)`events, Prev(slot)`isCurrentlyOpen, Prev(slot)`pendingDismiss
      ensures Valid() && slot.Valid() && slot.current == this
      ensures pendingDismiss == old(pendingDismiss) && contentFrame == old(contentFrame)
      ensures old(slot.current) == this ==> !isCurrentlyOpen && !attached
      ensures old(slot.current) != this ==>
                isCurrentlyOpen == old(isCurrentlyOpen) && attached == old(attached)
                && frames == old(frames) && contentHeight == old(contentHeight)
      ensures old(slot.current) == this ==>
                frames == Layout.Frames(width, itemSize, adjustForNavigationBar, |images|)
                && contentHeight == Layout.ContentHeight(width, itemSize, adjustForNavigationBar, |images|)
      ensures events == old(events)
                        + (if old(slot.current) == this then DismissEvents(hasDelegate, false, false) else [])
                        + ToDelegate(hasDelegate, [WillShow(animated)])
      ensures var previous := old(slot.current);
              previous != null && previous != this ==>
                previous.Valid() && !previous.isCurrentlyOpen && !previous.attached
                && previous.events == old(previous.events) + DismissEvents(previous.hasDelegate, false, false)
                && previous.pendingDismiss == old(previous.pendingDismiss)
                && previous.contentFrame == old(previous.contentFrame)
                && previous.frames == Layout.Frames(previous.width, previous.itemSize, previous.adjustForNavigationBar, |previous.images|)
                && previous.contentHeight == Layout.ContentHeight(previous.width, previous.itemSize, previous.adjustForNavigationBar, |previous.images|)
    {
      DismissShared(slot);
      if hasDelegate {
        events := events + [WillShow(animated)];
      }
      slot.current := this;
    }

    /** The first step of `showInViewController`: dismiss the shared sidebar, if any, without animation. */
    method DismissShared(slot: SharedSlot)
      requires Valid() && slot.Valid()
      modifies this`frames, this`contentHeight, this`contentFrame, this`attached
      modifies this`events, this`isCurrentlyOpen, this`pendingDismiss
      modifies Prev(slot)`frames, Prev(slot)`contentHeight, Prev(slot)`contentFrame, Prev(slot)`attached
      modifies Prev(slot)`events, Prev(slot)`isCurrentlyOpen, Prev(slot)`pendingDismiss
      ensures Valid() && slot.current == old(slot.current)
      ensures pendingDismiss == old(pendingDismiss) && contentFrame == old(contentFrame)
      ensures slot.current == this ==> !isCurrentlyOpen && !attached
      ensures slot.current != this ==> isCurrentlyOpen == old(isCurrentlyOpen) && attached == old(attached)
      ensures slot.current == this ==> events == old(events) + DismissEvents(hasDelegate, false, false)
      ensures slot.current == this ==>
                frames == Layout.Frames(width, itemSize, adjustForNavigationBar, |images|)
                && contentHeight == Layout.ContentHeight(width, itemSize, adjustForNavigationBar, |images|)
      ensures slot.current != this ==> events == old(events) && frames == old(frames) && contentHeight == old(contentHeight)
      ensures var previous := slot.current;
              previous != null && previous != this ==>
                previous.Valid() && !previous.isCurrentlyOpen && !previous.attached
                && previous.events == old(previous.events) + DismissEvents(previous.hasDelegate, false, false)
                && previous.pendingDismiss == old(previous.pendingDismiss)
                && previous.contentFrame == old(previous.contentFrame)
                && previous.frames == Layout.Frames(previous.width, previous.itemSize, previous.adjustForNavigationBar, |previous.images|)
                && previous.contentHeight == Layout.ContentHeight(previous.width, previous.itemSize, previous.adjustForNavigationBar, |previous.images|)
    {
      var bar := slot.current;
      if bar == this {
        DismissAnimated(false, false);
      } else if bar != null {
        bar.DismissAnimated(false, false);
      }
    }

    /**
     * `handleTap`: a tap outside the panel dismisses it with animation; a tap on an
     * item selects that item; a tap on the panel between items does nothing.
     */
    method HandleTap(locationInView: Point, locationInContent: Point)
      requires Valid()
      modifies this`selected, this`isCurrentlyOpen, this`events, this`contentFrame
      modifies this`attached, this`frames, this`contentHeight, this`pendingDismiss
      ensures Valid()
      ensures attached == old(attached) && frames == old(frames) && contentHeight == old(contentHeight)
      ensures var action := HitTest.ClassifyTap(old(contentFrame), old(frames), locationInView, locationInContent);
              match action
              case DismissSidebar =>
                !isCurrentlyOpen && selected == old(selected)
                && events == old(events) + DismissEvents(hasDelegate, true, false)
                && contentFrame == old(contentFrame).(x := if showFromRight then viewSize.width else -width)
                && pendingDismiss == old(pendingDismiss) + [false]
              case SelectItem(i) =>
                isCurrentlyOpen == old(isCurrentlyOpen) && contentFrame == old(contentFrame)
                && pendingDismiss == old(pendingDismiss)
                && selected == Selection.Tap(selectionStyle, borderColors.Some?, old(selected), i).selected
                && events == old(events) + TapEvents(hasDelegate, i in actionIndices, i, i !in old(selected))
              case Ignore =>
                isCurrentlyOpen == old(isCurrentlyOpen) && contentFrame == old(contentFrame)
                && pendingDismiss == old(pendingDismiss)
                && selected == old(selected) && events == old(events)
    {
      if !contentFrame.Contains(locationInView) {
        DismissAnimated(true, false);
      } else {
        var tapIndex := IndexOfTap(locationInContent);
        if tapIndex.Some? {
          SelectItemAtIndex(tapIndex.value);
        }
      }
    }
  }

  /** The module-level `sharedSidebar`: the sidebar shown last, if any. */
  class SharedSlot {
    var current: FrostedSidebar?

    ghost predicate Valid()
      reads this, current
    {
      current != null ==> current.Valid()
    }

    constructor ()
      ensures Valid() && current == null
    {
      current := null;
    }
  }
}
