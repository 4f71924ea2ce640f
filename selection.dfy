/**
 * The selection policy of FrostedSidebar: what one tap on an item does to the set of
 * selected indices under each `SidebarItemSelectionStyle`, and what assigning the
 * style does to it.
 */
module Selection {
  /** `SidebarItemSelectionStyle`. */
  datatype SelectionStyle = None | Single | All

  /** The selection after a tap, and the `didEnable` flag reported to the delegate. */
  datatype TapResult = TapResult(selected: set<nat>, didEnable: bool)

  /** The indices 0 .. n-1 (`NSIndexSet(indexesIn: NSRange(location: 0, length: n))`). */
  function AllIndices(n: nat): (r: set<nat>)
    ensures forall i: nat :: i in r <==> i < n
  {
    if n == 0 then {} else AllIndices(n - 1) + {n - 1}
  }

  /**
   * `selectItemAtIndex` on the selection alone. Without ring colours the selection is
   * left alone; with them a tap enables an unselected item (clearing the others first
   * under `.single`) and disables a selected one only under `.none`.
   */
  function Tap(style: SelectionStyle, hasColors: bool, selected: set<nat>, index: int): (r: TapResult)
    requires hasColors ==> index >= 0
    ensures r.didEnable <==> index !in selected
    ensures !hasColors ==> r.selected == selected
    ensures hasColors && r.didEnable && style == Single ==> r.selected == {index}
    ensures hasColors && r.didEnable && style != Single ==> r.selected == selected + {index}
    ensures hasColors && !r.didEnable && style == None ==> r.selected == selected - {index}
    ensures hasColors && !r.didEnable && style != None ==> r.selected == selected
  {
    var didEnable := index !in selected;
    if !hasColors then TapResult(selected, didEnable)
    else if didEnable then
      var cleared := if style == Single then {} else selected;
      TapResult(cleared + {index as nat}, true)
    else if style == None then TapResult(selected - {index as nat}, false)
    else TapResult(selected, false)
  }

  /** The selection after `selectionStyle` is assigned on a sidebar with n items. */
  function StyleAssigned(style: SelectionStyle, n: nat, selected: set<nat>): (r: set<nat>)
    ensures style == All ==> forall i: nat :: i in r <==> i < n
    ensures style != All ==> r == selected
  {
    if style == All then AllIndices(n) else selected
  }

  /** The selection after tapping the items `taps` one after the other. */
  function RunTaps(style: SelectionStyle, hasColors: bool, selected: set<nat>, taps: seq<int>): set<nat>
    requires hasColors ==> forall k :: 0 <= k < |taps| ==> taps[k] >= 0
    decreases |taps|
  {
    if taps == [] then selected
    else RunTaps(style, hasColors, Tap(style, hasColors, selected, taps[0]).selected, taps[1..])
  }

  /** Under `.none` a tap toggles: tapping the same item twice restores the selection. */
  lemma NoneTapTwiceRestores(selected: set<nat>, index: nat)
    ensures Tap(None, true, Tap(None, true, selected, index).selected, index).selected == selected
  {
  }

  /** Under `.single` and `.all` a second tap on the same item changes nothing. */
  lemma TapIdempotentUnlessNone(style: SelectionStyle, hasColors: bool, selected: set<nat>, index: nat)
    requires style != None
    ensures var once := Tap(style, hasColors, selected, index);
            Tap(style, hasColors, once.selected, index).selected == once.selected
  {
  }

  /** Without ring colours no sequence of taps changes the selection, whatever the style. */
  lemma {:induction false} NoColorsNoChange(style: SelectionStyle, selected: set<nat>, taps: seq<int>)
    ensures RunTaps(style, false, selected, taps) == selected
    decreases |taps|
  {
    if taps != [] {
      NoColorsNoChange(style, Tap(style, false, selected, taps[0]).selected, taps[1..]);
    }
  }

  /** Under `.single` at most one item is ever selected, starting from at most one. */
  lemma {:induction false} SingleKeepsAtMostOne(hasColors: bool, selected: set<nat>, taps: seq<int>)
    requires |selected| <= 1
    requires hasColors ==> forall k :: 0 <= k < |taps| ==> taps[k] >= 0
    ensures |RunTaps(Single, hasColors, selected, taps)| <= 1
    decreases |taps|
  {
    if taps != [] {
      var next := Tap(Single, hasColors, selected, taps[0]).selected;
      assert |next| <= 1;
      SingleKeepsAtMostOne(hasColors, next, taps[1..]);
    }
  }

  /**
   * Under `.all`, once every item is selected (by assigning the style), taps on items
   * never deselect anything: every item stays selected.
   */
  lemma {:induction false} AllStaysFull(hasColors: bool, n: nat, taps: seq<int>)
    requires forall k :: 0 <= k < |taps| ==> 0 <= taps[k] < n
    ensures RunTaps(All, hasColors, StyleAssigned(All, n, {}), taps) == AllIndices(n)
    decreases |taps|
  {
    if taps != [] {
      assert Tap(All, hasColors, AllIndices(n), taps[0]).selected == AllIndices(n);
      AllStaysFull(hasColors, n, taps[1..]);
    }
  }

  /** Taps on items 0 .. n-1 keep the selection within 0 .. n-1. */
  lemma {:induction false} TapsStayInRange(style: SelectionStyle, hasColors: bool, n: nat, selected: set<nat>, taps: seq<int>)
    requires forall i :: i in selected ==> i < n
    requires forall k :: 0 <= k < |taps| ==> 0 <= taps[k] < n
    ensures forall i :: i in RunTaps(style, hasColors, selected, taps) ==> i < n
    decreases |taps|
  {
    if taps != [] {
      TapsStayInRange(style, hasColors, n, Tap(style, hasColors, selected, taps[0]).selected, taps[1..]);
    }
  }
}
