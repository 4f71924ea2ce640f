# FrostedSidebar, modelled in Dafny

FrostedSidebar is an iOS view controller that slides a panel of round, selectable
"callout" items over a blurred and dimmed backdrop. This project models the part of
`FrostedSidebar.swift` that has a statable behaviour:

- the **selection policy** of `selectItemAtIndex` under the three
  `SidebarItemSelectionStyle`s, and the `selectionStyle` property observer;
- the **layout** of item frames down the panel (`layoutItems`) and the **hit-testing**
  of taps against them (`indexOfTap`, `handleTap`);
- the **open / shared-sidebar bookkeeping** of `showInViewController` and
  `dismissAnimated`, including the calls made to the delegate, the per-item actions
  and the completion handler, in order.

Modules:

- `Wrappers` (`wrappers.dfy`): `Option`, standing in for Swift optionals.
- `Geometry` (`geometry.dfy`): points, sizes and rectangles; `Rect.Contains` follows
  `CGRect.contains`, which standardises negative sizes and is half-open.
- `Layout` (`layout.dfy`): the item-frame formula and content height, and lemmas
  about them (tops increase, frames are disjoint, every item lies inside the content).
- `HitTest` (`hittest.dfy`): `FirstHit`, the specification of `indexOfTap`, and
  `ClassifyTap`, the decision made by `handleTap`.
- `Selection` (`selection.dfy`): `Tap`, the specification of what one tap does to the
  selected indices and the `didEnable` flag; `StyleAssigned`, the property observer;
  and inductive lemmas about sequences of taps.
- `Sidebar` (`sidebar.dfy`): the class `FrostedSidebar`, whose methods change its
  fields in place as the Swift methods do and are proved against the functions above,
  and the class `SharedSlot`, which holds the module-level `sharedSidebar` variable.

Modelling decisions:

- Outward calls are recorded in order in the field `events`: the delegate's
  `willShow`/`didShow`/`willDismiss`/`didDismiss`/`didTapItemAtIndex`/`didEnable`
  callbacks (only when a delegate is set, `hasDelegate`), the closure registered in
  `actionForIndex` (`actionIndices` holds that dictionary's keys) and the completion
  handler passed to `dismissAnimated` (`hasCompletion` says whether one was given).
- The completion blocks of the animations are methods of their own
  (`ShowCompletion`, `DismissCompletion`). Without animation the source runs them at
  once, and so does the model. An animated show or dismissal instead appends its block
  to `pendingShow` or `pendingDismiss`. Each entry holds the value the closure captured:
  `animated` for a show, and for a dismissal whether a completion handler was given.
  The host's animation system later runs a pending block of its choosing, through
  `FinishShowAnimation` or `FinishDismissAnimation`. So a stale dismissal completion can
  detach a sidebar that was shown again in the meantime, as in the source.
- `dismissAnimated` never clears the shared slot. Showing the same sidebar again
  therefore first dismisses it without animation. Only the fields a dismissal touches
  may change on the previously shared sidebar.
- `handleTap` reads two locations from the gesture recogniser: one in the sidebar's
  view and one in the scrolling content view. Both are parameters of `HandleTap`.
- The selected indices are a `set<nat>` because `NSIndexSet` holds unsigned indices. A
  negative index is therefore never selected, and tapping it reports `didEnable`.
- `selectItemAtIndex` indexes `borderColors` and `itemViews` only when colours were
  given. So `SelectItemAtIndex` requires `0 <= index < |images|` only in that case.
  Without colours it accepts any index and changes only the event log.
- The `selectionStyle` observer does not fire inside the initialiser. At that point
  `images` is still empty as well. So a sidebar constructed with `.all` starts with
  nothing selected; only a later `SetSelectionStyle(All)` selects every item.
- The enum's documentation says that under `.none` "no sidebar items are selected".
  The code instead toggles the tapped item, and enabling adds it under every style.
  The model follows the code.
- `dismissAnimated`'s completion block always tells the delegate
  `didDismissFromScreenAnimated: true`, even for a dismissal without animation. The
  model records `DidDismiss(true)` as written.
- Geometry is exact `real` arithmetic.

## Model

| member | source | states |
|---|---|---|
| `Selection.Tap` | FrostedSidebar/FrostedSidebar.swift:342-368 | `didEnable` holds exactly when the index was not selected. Without colours the selection is unchanged. With colours, enabling gives exactly `{index}` under `.single` and the old set plus `index` otherwise. Tapping a selected item removes exactly it under `.none` and changes nothing under `.single` and `.all`. |
| `Selection.AllIndices` | FrostedSidebar/FrostedSidebar.swift:140 | The index range holds exactly the indices below the item count. |
| `Selection.StyleAssigned` | FrostedSidebar/FrostedSidebar.swift:137-143 | Assigning `.all` makes the selection exactly `0 .. n-1`. Assigning `.none` or `.single` leaves it untouched. |
| `Selection.NoneTapTwiceRestores` | FrostedSidebar/FrostedSidebar.swift:347-367 | Under `.none` with colours, tapping the same item twice restores the original selection. |
| `Selection.TapIdempotentUnlessNone` | FrostedSidebar/FrostedSidebar.swift:347-368 | Under `.single` and `.all`, a second tap on the same item changes nothing more. |
| `Selection.NoColorsNoChange` | FrostedSidebar/FrostedSidebar.swift:343-392 | Without colours, no sequence of taps changes the selection, under any style. |
| `Selection.SingleKeepsAtMostOne` | FrostedSidebar/FrostedSidebar.swift:347-361 | Under `.single`, any sequence of taps keeps at most one item selected. |
| `Selection.AllStaysFull` | FrostedSidebar/FrostedSidebar.swift:137-143 | Under `.all`, after the style assignment selects everything, taps on items never deselect anything. |
| `Selection.TapsStayInRange` | FrostedSidebar/FrostedSidebar.swift:342-368 | Taps on items keep the selection within the item indices. |
| `Layout.ItemFrame` | FrostedSidebar/FrostedSidebar.swift:495-501 | The item has the configured size and is centred horizontally in the panel. Its top lies one gap plus `k` item-and-gap slots down, where `k` is the index, or the index plus one half under a navigation bar. |
| `Layout.Frames` | FrostedSidebar/FrostedSidebar.swift:498-502 | One frame per item, and item i's frame is `ItemFrame` of i, for every i below n. |
| `Layout.ContentHeight` | FrostedSidebar/FrostedSidebar.swift:512-517 | The content height is one top gap plus n item-and-gap slots, with half a slot more under a navigation bar. |
| `Layout.ItemTopsIncrease` | FrostedSidebar/FrostedSidebar.swift:496-501 | When an item plus its gap has positive height, item tops strictly increase with the index. |
| `Layout.ItemsDisjoint` | FrostedSidebar/FrostedSidebar.swift:496-501 | With items no wider than the panel and a non-negative height, no point lies in two item frames. |
| `Layout.ItemsInsideContent` | FrostedSidebar/FrostedSidebar.swift:496-517 | Every item starts at least one gap down and ends at least one gap above the content height. The last item ends exactly one gap above it. |
| `HitTest.FirstHit` | FrostedSidebar/FrostedSidebar.swift:520-529 | Returns the lowest index whose frame contains the point, or None exactly when no frame contains it. |
| `HitTest.HitOnLayoutIsExact` | FrostedSidebar/FrostedSidebar.swift:495-529 | On laid-out items that fit the panel, the hit index is exactly the item whose frame contains the point. |
| `HitTest.ClassifyTap` | FrostedSidebar/FrostedSidebar.swift:476-486 | A tap dismisses exactly when it falls outside the panel. Otherwise it selects the first item hit, and does nothing exactly when no item is hit. |
| `Sidebar.FrostedSidebar.constructor` | FrostedSidebar/FrostedSidebar.swift:173-205 | Requires one colour per image when colours are given. Creates one zero frame per image and the documented defaults. Nothing is selected, whatever the style. |
| `Sidebar.FrostedSidebar.SetSelectionStyle` | FrostedSidebar/FrostedSidebar.swift:137-143 | Stores the style and updates the selection as `StyleAssigned` says. |
| `Sidebar.FrostedSidebar.SelectItemAtIndex` | FrostedSidebar/FrostedSidebar.swift:342-398 | Updates the selection as `Tap` says. Then it runs the item's action and gives the delegate `didTapItemAtIndex` followed by `didEnable` with the flag. Keeps the selection within range. |
| `Sidebar.FrostedSidebar.LayoutItems` | FrostedSidebar/FrostedSidebar.swift:495-518 | Afterwards every item frame is `ItemFrame` of its index, and the content height is `ContentHeight`. |
| `Sidebar.FrostedSidebar.IndexOfTap` | FrostedSidebar/FrostedSidebar.swift:520-529 | The linear search with early exit returns `FirstHit` of the current frames. |
| `Sidebar.FrostedSidebar.DismissCompletion` | FrostedSidebar/FrostedSidebar.swift:309-316 | Detaches from the parent and reports `didDismiss` with `animated: true`. It lays the items out again, then calls the completion handler. |
| `Sidebar.FrostedSidebar.DismissAnimated` | FrostedSidebar/FrostedSidebar.swift:308-335 | Afterwards the sidebar is not open. It reports `willDismiss`. With animation, it moves the panel off screen to the chosen side and queues its completion block, holding the handler flag. Without animation, it completes at once. |
| `Sidebar.FrostedSidebar.FinishDismissAnimation` | FrostedSidebar/FrostedSidebar.swift:325-329 | Runs one pending dismissal completion with the handler flag it captured and removes it from the queue. Afterwards the sidebar is detached and re-laid out. |
| `Sidebar.FrostedSidebar.ShowCompletion` | FrostedSidebar/FrostedSidebar.swift:278-282 | Reports `didShow` only when the animation finished. |
| `Sidebar.FrostedSidebar.FinishShowAnimation` | FrostedSidebar/FrostedSidebar.swift:284-285 | Runs one pending show completion and removes it from the queue. `didShow` reports the `animated` flag that show captured. |
| `Sidebar.FrostedSidebar.DismissShared` | FrostedSidebar/FrostedSidebar.swift:240-242 | Any previously shared sidebar is dismissed without animation. It ends closed, detached, valid and re-laid out, with its panel frame unchanged. When it is this sidebar, this sidebar is closed and detached and the dismissal shows in its own events. Otherwise this sidebar is unchanged. |
| `Sidebar.FrostedSidebar.ClaimSharedSlot` | FrostedSidebar/FrostedSidebar.swift:240-246 | Dismisses the previous shared sidebar as `DismissShared` says, then reports `willShow`. Afterwards the shared slot holds this sidebar. When the previous sidebar is another one, this sidebar's open flag, attachment, frames and content height are unchanged. |
| `Sidebar.FrostedSidebar.PlacePanel` | FrostedSidebar/FrostedSidebar.swift:248-277 | Attaches to the parent and takes its bounds. Places the panel at the chosen edge at full height, and lays out the items. |
| `Sidebar.FrostedSidebar.Present` | FrostedSidebar/FrostedSidebar.swift:248-299 | Places the panel. It then queues the completion with `animated` when animated, or reports `didShow` at once. Afterwards the sidebar is open. |
| `Sidebar.FrostedSidebar.ShowInViewController` | FrostedSidebar/FrostedSidebar.swift:238-300 | Afterwards this sidebar is the shared sidebar and is open and attached. Any other previously shared sidebar is closed, detached, valid and re-laid out, with its panel frame unchanged. The selection and configuration of both are untouched. The delegate calls come in source order. An animated show queues its completion. |
| `Sidebar.FrostedSidebar.HandleTap` | FrostedSidebar/FrostedSidebar.swift:476-486 | Follows `ClassifyTap`. A tap outside dismisses with animation and queues its completion. A tap on an item selects that item as `Tap` says. Any other tap changes nothing. No tap moves the item frames or detaches the sidebar. |
| `Sidebar.SharedSlot.constructor` | FrostedSidebar/FrostedSidebar.swift:64 | The shared sidebar slot starts empty. |

## Left out

- Animation and drawing are not modelled. This covers the ring flash with its `CAShapeLayer` and `CABasicAnimation`, item border colours and corner radii, the spring-in of items (`animateSpringWithView`), and item transforms and alpha. It also covers the blur and dim views with their frames and alpha, `animationDuration`, `borderWidth` and `itemBackgroundColor`. These are Core Animation and UIKit calls with no computed result.
- View-controller containment is reduced to the flag `attached`. The appearance callbacks, `didMove`/`willMove`, view insertion and removal, `loadView`, the gesture recogniser's installation, `init(coder:)`, autorotation and `viewWillTransition` (which dismisses without animation) are UIKit lifecycle glue.
- `CalloutItem` touch darkening is not modelled. Its branch depends on UIKit decomposing a colour, and its result is floating-point colour arithmetic.
- The private `layoutSubviews` of the sidebar is not modelled. Nothing in the file calls it.
- `CGFloat` rounding is not modelled; the layout is exact real arithmetic.
- The scroll view's `contentOffset` reset and the conversion of a tap into the content view's coordinates are not modelled. The gesture recogniser supplies that location, and `HandleTap` takes it as a parameter.
- The sidebar's own view bounds before the first `showInViewController` are taken as zero. UIKit gives them a host-chosen size.
- The effects of the closures in `actionForIndex`, of the completion handler and of the delegate are not modelled. They are client code; the model records only that each was called and with what.
- The demo apps `ViewController.swift` and `TabBarController.swift` are not part of this model.
