# GPUI layout bridge and platform cores, modelled in Dafny

This project models the core of a fork of the Zed editor's GPUI framework:

- the Yoga layout bridge: the conversion of a GPUI style into the plain
  record the C++ bridge applies (`style_conversion.rs`), the bridge's node
  store, measure-callback registry and style application (`YogaBridge.cpp`),
  the FFI value types, and the Yoga layout engine's bookkeeping of layout ids,
  child lists, measure functions, external overrides and extracted bounds
  (`engine.rs`);
- the Taffy layout engine's node, parent and child tables (`taffy.rs`) and the
  shared layout vocabulary (`layout.rs`);
- the process-wide environment, the retained view tree driven by embedding
  hosts, per-frame node geometry snapshots and their registry;
- the Redwood frame bridge, panel and preview views;
- the macOS platform: event translation, window event state and prompt
  layout, the clipboard, menus and save-panel filename repair, the Swift
  window registry, the Metal 4 sprite atlas and instance-buffer pool;
- the terminal selection text assembly, the extension API build script's WIT
  rewriting and version section, the wasm host's reading of that section, and
  the IntelliJ language-service conversions.

Pure code is modelled as datatypes, functions and lemmas. Objects whose
fields the source updates in place (the node store, the layout engines, the
environment, the retained host, the Redwood views, the window state, the
clipboard, the atlas, the buffer pool) are classes whose methods state their
whole new state and keep a `Valid()` invariant. Pixel magnitudes (`f32` in
the source) are `real`.

## Model

| member | source | states |
|---|---|---|
| Layout.MinSize | crates/gpui/src/layout.rs:49-55 | min-content on both axes, the default available space |
| Layout.FromPixels | crates/gpui/src/layout.rs:57-61 | pixels become a definite available space of the same amount |
| Layout.FromSizePixels | crates/gpui/src/layout.rs:63-71 | a pixel size becomes definite available space on each axis, axis by axis |
| Layout.LayoutIdRoundTrip | crates/gpui/src/layout.rs:73-98 | `from_raw`/`to_raw` are inverse bijections between layout ids and `u64` |
| WindowAppearance.FromName | crates/gpui/src/platform/mac/window_appearance.rs:7-28 | the four canonical AppKit names map to their appearance; any other name falls back to light |
| WindowAppearance.FromNameRoundTrip | crates/gpui/src/platform/mac/window_appearance.rs:14-21 | every appearance is recognised from its canonical name |
| WindowAppearance.DarkNames | crates/gpui/src/platform/mac/window_appearance.rs:14-27 | a name reads as dark exactly when it is one of the two dark names |
| Mac.ToObjc | crates/gpui/src/platform/mac.rs:71-75 | `true` maps to YES and `false` to NO |
| Mac.Invalid | crates/gpui/src/platform/mac.rs:89-91 | the invalid range has the not-found location and length 0, and is not valid |
| Mac.ToRange | crates/gpui/src/platform/mac.rs:92-103 | an invalid range gives nothing; a valid one gives start = location and end = location + length |
| Mac.ToRangeRoundTrip | crates/gpui/src/platform/mac.rs:92-103 | `to_range` loses nothing: a valid range is recovered from the offsets it yields, and conversely |
| YogaFfi.SetMeasure | crates/gpui/src/yoga/ffi.rs:254-266 | the callback is registered under a fresh non-zero id before the node gets it; the node's previous context is dropped; a null or dead node records a fault and keeps the callback registered |
| YogaFfiTypes.UnitDiscriminant | crates/gpui/src/yoga/ffi.rs:22-27 | each value unit has one of the four `repr(C)` discriminants |
| YogaFfiTypes.AlignDiscriminant | crates/gpui/src/yoga/ffi.rs:84-93 | each modelled alignment has a discriminant below 8 |
| YogaFfiTypes.JustifyDiscriminant | crates/gpui/src/yoga/ffi.rs:96-103 | each modelled justification has a discriminant below 6 |
| YogaFfiTypes.MeasureModeDiscriminant | crates/gpui/src/yoga/ffi.rs:155-159 | each measure mode has one of the three discriminants |
| YogaFfiTypes.MeasureModeOf | crates/gpui/src/yoga/ffi.rs:155-159 | a discriminant names a measure mode exactly when it is below 3 |
| YogaFfiTypes.DiscriminantsRoundTrip | crates/gpui/src/yoga/ffi.rs:22-159 | the four `repr(C)` tables are codes: reading back gives the same measure mode, and equal discriminants mean equal units, alignments and justifications |
| YogaFfiTypes.YogaMeasure | crates/gpui/src/yoga/ffi.rs:279-291 | a registered id runs its callback on the two inputs; an unknown id yields the default (0, 0) size |
| YogaFfiTypes.MeasureRegistry.constructor | crates/gpui/src/yoga/ffi.rs:215-217 | the id counter starts at 1 with an empty callback table |
| YogaFfiTypes.MeasureRegistry.Register | crates/gpui/src/yoga/ffi.rs:258-262 | the counter's old value is the new non-zero, unused id, the counter advances, and the callback is stored under the id |
| YogaFfiTypes.MeasureRegistry.DropMeasure | crates/gpui/src/yoga/ffi.rs:293-297 | the id's callback is forgotten, an unknown id is a no-op, and the counter is unchanged |
| YogaFfiTypes.MeasureAfterDrop | crates/gpui/src/yoga/ffi.rs:279-297 | once dropped, an id measures as the default size |
| YogaFfiTypes.DropIdempotent | crates/gpui/src/yoga/ffi.rs:293-297 | dropping an id twice is dropping it once |
| YogaFfiTypes.DropIsolated | crates/gpui/src/yoga/ffi.rs:279-297 | dropping one id changes no other id's measurement |
| YogaBridge.PointLength | crates/gpui/yoga_bridge/YogaBridge.cpp:176-178 | a point length is stored undefined exactly when its magnitude is NaN |
| YogaBridge.PercentLength | crates/gpui/yoga_bridge/YogaBridge.cpp:173-175 | a percent length is stored undefined exactly when its magnitude is NaN |
| YogaBridge.CastMeasureModeByName | crates/gpui/yoga_bridge/YogaBridge.cpp:311-313 | the `static_cast` of Yoga's measure mode yields the bridge mode of the same name, both ways, for each of the three modes |
| YogaBridge.ToYgValue | crates/gpui/yoga_bridge/YogaBridge.cpp:22-34 | only Undefined gives an undefined unit; Point and Percent keep their value; Auto carries 0 |
| YogaBridge.EnumTranslationsInjective | crates/gpui/yoga_bridge/YogaBridge.cpp:68-133 | the alignment, justification and direction translations map distinct bridge values to distinct Yoga values |
| YogaBridge.ApplyDimension | crates/gpui/yoga_bridge/YogaBridge.cpp:193-216 | percent and point store the magnitude with that unit; Auto is native only where an auto setter exists and undefined otherwise; Undefined stores undefined |
| YogaBridge.ApplyEdgeValue | crates/gpui/yoga_bridge/YogaBridge.cpp:168-191 | the chosen edge gets what `apply_dimension` would store, and every other edge is unchanged |
| YogaBridge.AutoWithoutSetterIsUndefined | crates/gpui/yoga_bridge/YogaBridge.cpp:238-272 | padding, inset, min-size and max-size have no auto setter, so Auto on any of them applies exactly like Undefined |
| YogaBridge.AutoMarginIsNative | crates/gpui/yoga_bridge/YogaBridge.cpp:229-236 | Auto on any of the four margin edges is passed to Yoga as a native auto margin |
| YogaBridge.AutoWithSetterIsNative | crates/gpui/yoga_bridge/YogaBridge.cpp:261-280 | width, height and flex basis keep Auto natively, while padding and minimum width turn it into undefined |
| YogaBridge.BorderIgnoresUnit | crates/gpui/yoga_bridge/YogaBridge.cpp:247-250 | border edges take only the magnitude: changing their units changes nothing |
| YogaBridge.FlagsOff | crates/gpui/yoga_bridge/YogaBridge.cpp:274-293 | a cleared basis flag resets basis to auto and a cleared aspect flag resets the ratio to undefined, while cleared grow/shrink flags keep the node's previous values |
| YogaBridge.GapForwarding | crates/gpui/yoga_bridge/YogaBridge.cpp:295-301 | a gap with an undefined unit keeps the old gap; otherwise its magnitude is stored as points (0 for Auto), whatever its unit |
| YogaBridge.ApplyStyleIdempotent | crates/gpui/yoga_bridge/YogaBridge.cpp:218-302 | applying the same style twice equals applying it once |
| YogaBridge.ApplyStyleHistory | crates/gpui/yoga_bridge/YogaBridge.cpp:282-301 | only grow, shrink and the gaps depend on the node's previous style; with every flag and gap set the result does not depend on it at all |
| YogaBridge.ValueOrUndefined | crates/gpui/yoga_bridge/YogaBridge.cpp:135-139 | a number is passed exactly for a Definite dimension, and then it is that dimension's value |
| YogaBridge.MeasureProxy | crates/gpui/yoga_bridge/YogaBridge.cpp:304-316 | a node without a context measures (0, 0); otherwise the registry's result for the context's id, with the modes cast |
| YogaBridge.ProxyWithoutContext | crates/gpui/yoga_bridge/YogaBridge.cpp:304-309 | once its context is gone a node measures (0, 0), even if its id is still registered |
| YogaBridge.ReleaseInSteps | crates/gpui/yoga_bridge/YogaBridge.cpp:157-166 | releasing two groups of nodes one after the other releases their union, and drops the union of their context ids |
| YogaBridge.NodeStore.constructor | crates/gpui/yoga_bridge/YogaBridge.cpp:320-322 | an empty store over the given registry with handles starting at 1 |
| YogaBridge.NodeStore.CreateNode | crates/gpui/yoga_bridge/YogaBridge.cpp:320-322 | a fresh non-null handle, never live or freed before, with no children, the default style and a zero layout |
| YogaBridge.NodeStore.DropMeasureContext | crates/gpui/yoga_bridge/YogaBridge.cpp:145-155 | a node holding a context notifies the registry once with its id and loses the context; a node without one changes nothing |
| YogaBridge.NodeStore.ReleaseMeasureRecursive | crates/gpui/yoga_bridge/YogaBridge.cpp:157-166 | every context in the node's subtree is gone and its id leaves the registry; the drop log grows by exactly one notification per context-holding node of the subtree, carrying that node's id, so every released id is notified and nothing else is |
| YogaBridge.NodeStore.ReleaseChildren | crates/gpui/yoga_bridge/YogaBridge.cpp:162-165 | after the node's own context, the children's subtrees are released in turn, with one notification per context-holding node of the whole subtree |
| YogaBridge.NotifiedTwice | crates/gpui/yoga_bridge/YogaBridge.cpp:157-166 | notifying once per node for one group and then for a second group, whose earlier contexts are already gone, notifies once per node of the union |
| YogaBridge.NotifiedExtends | crates/gpui/yoga_bridge/YogaBridge.cpp:145-166 | one notification per context-holding node logs only the released contexts' ids, and every one of them |
| YogaBridge.NodeStore.FreeNode | crates/gpui/yoga_bridge/YogaBridge.cpp:324-331 | a null handle is a no-op and a dead one records a fault, notifying nothing; otherwise the subtree's contexts are released first, with exactly one drop notification per context-holding node of the subtree, then the subtree leaves the graph and every table and is recorded as freed |
| YogaBridge.NodeStore.SetStyle | crates/gpui/yoga_bridge/YogaBridge.cpp:333-339 | a live node's style becomes `ApplyStyle` of its previous style; a null or dead handle changes nothing |
| YogaBridge.NodeStore.SetChildren | crates/gpui/yoga_bridge/YogaBridge.cpp:341-361 | the handles become the parent's child list, an empty list removing every child; a dead parent or child, or a list that would close a cycle, changes nothing |
| YogaBridge.NodeStore.MarkDirty | crates/gpui/yoga_bridge/YogaBridge.cpp:363-369 | a live node becomes dirty; a null or dead handle changes nothing |
| YogaBridge.NodeStore.SetMeasure | crates/gpui/yoga_bridge/YogaBridge.cpp:371-387 | id 0 removes the measure function and any context; another id first drops the old context, then installs a new context and the proxy |
| YogaBridge.NodeStore.ClearMeasure | crates/gpui/yoga_bridge/YogaBridge.cpp:389-396 | the measure function and any context are removed, notifying the registry of the old id |
| YogaBridge.NodeStore.CalculateLayout | crates/gpui/yoga_bridge/YogaBridge.cpp:398-407 | the subtree's layouts become the solver's output for the Definite-only available size and the proxy measure; other nodes keep theirs |
| YogaBridge.NodeStore.Layout | crates/gpui/yoga_bridge/YogaBridge.cpp:409-421 | a live node's last computed layout; all zeros for a null or dead handle |
| Graph.Reach | crates/gpui/yoga_bridge/YogaBridge.cpp:157-166 | the nodes reached from a node by following child lists include the node and are all known |
| Graph.ReachHasParent | crates/gpui/yoga_bridge/YogaBridge.cpp:157-166 | every reached node but the start is a listed child of some reached node, which is why the recursive walk visits it |
| Graph.Reparent | crates/gpui/yoga_bridge/YogaBridge.cpp:341-361 | replacing a node's child list keeps the graph acyclic when the node is reachable from none of its new children |
| Graph.Prune | crates/gpui/yoga_bridge/YogaBridge.cpp:324-331 | the graph without the freed nodes and without any edge into them, other lists in order |
| Graph.PruneKeepsShape | crates/gpui/yoga_bridge/YogaBridge.cpp:324-331 | pruning keeps the graph ranked (acyclic), and closed when it was |
| Graph.PruneTwice | crates/gpui/yoga_bridge/YogaBridge.cpp:324-331 | freeing two sets one after the other prunes their union |
| ChildLists.Without | crates/gpui/src/retained.rs:308 | `retain(c != x)`: exactly the elements other than `x` are kept, never more of them |
| ChildLists.WithoutNoDuplicates | crates/gpui/src/retained.rs:337 | removal never creates a duplicate and leaves no occurrence of `x` |
| ChildLists.WithoutAppend | crates/gpui/src/retained.rs:308 | removal distributes over concatenation, so what is kept stays in the original order |
| ChildLists.Position | crates/extension_host/src/ui/redwood_panel.rs:311 | `position` finds the first occurrence: the element there is `x` and none before it is; nothing when `x` is absent |
| ChildLists.RemoveFirst | crates/extension_host/src/ui/redwood_panel.rs:311-313 | the list loses exactly one occurrence of `x` when it has one, and is unchanged otherwise |
| ChildLists.RemoveFirstUnique | crates/extension_host/src/ui/redwood_panel.rs:311-313 | on a list without duplicates, removing the first occurrence is removing every occurrence |
| ChildLists.InsertClamped | crates/zed/src/redwood_preview.rs:69-72 | `x` sits at the index clamped to 0 and to the list's end, with the elements before and after it unchanged |
| ChildLists.InsertedChildren | crates/extension_host/src/ui/redwood_panel.rs:309-316 | a listed child leaves the list alone; otherwise it is inserted at the clamped index, and a list without duplicates keeps none |
| ChildLists.WithoutEverywhere | crates/extension_host/src/ui/redwood_panel.rs:292-294 | every list loses all occurrences of `x` and nothing else; the parents stay |
| ChildLists.ListedWithoutEverywhere | crates/extension_host/src/ui/redwood_panel.rs:289-294 | removing `x` from every list unlists exactly `x` |
| ChildLists.StripEverywhere | crates/extension_host/src/ui/redwood_panel.rs:292-294 | the `values_mut` loop produces `WithoutEverywhere`, whatever order it visits the parents in |
| ChildLists.InferredRoots | crates/extension_host/src/ui/redwood_panel.rs:439-451 | an id is a root exactly when it is a known node that no child list names, and each root appears once |
| RedwoodPanel.Get | crates/extension_host/src/ui/redwood_panel.rs:848 | a JSON object's member lookup finds nothing exactly when no member has the key, and otherwise a value stored under it |
| RedwoodPanel.AsNumber | crates/extension_host/src/ui/redwood_panel.rs:860 | `as_f64` yields a number exactly for a JSON number, and then its value |
| RedwoodPanel.DpFromValue | crates/extension_host/src/ui/redwood_panel.rs:858-872 | a number is its own value; an object's numeric "value" member wins; an object with more members and no numeric "value" gives nothing; any other JSON gives nothing |
| RedwoodPanel.DpSeesThroughWrappers | crates/extension_host/src/ui/redwood_panel.rs:864-866 | however deeply a number is wrapped in one-member objects, under whatever keys, `dp_from_value` finds it |
| RedwoodPanel.ExtractFieldDp | crates/extension_host/src/ui/redwood_panel.rs:845-856 | an object's `field` member is read when present; otherwise the value itself |
| RedwoodPanel.FieldShadowsValue | crates/extension_host/src/ui/redwood_panel.rs:845-856 | the named field wins over the object's own "value" member |
| RedwoodPanel.ParseInner | crates/extension_host/src/ui/redwood_panel.rs:888-911 | start and top default to 0, end to start and bottom to top; present numeric members are taken as given |
| RedwoodPanel.ParseMargin | crates/extension_host/src/ui/redwood_panel.rs:887-923 | only objects give insets; a nested "margin" object is preferred to the object itself |
| RedwoodPanel.MarginMirrors | crates/extension_host/src/ui/redwood_panel.rs:888-911 | with only start and top given, end mirrors start and bottom mirrors top |
| RedwoodPanel.Moved | crates/extension_host/src/ui/redwood_panel.rs:340-345 | the run of `count` elements now starts at `to`, the rest keep their order, and the list is a permutation of the old one |
| RedwoodPanel.MoveBack | crates/extension_host/src/ui/redwood_panel.rs:340-345 | moving the run back to where it came from restores the list |
| RedwoodPanel.MoveBounds | crates/extension_host/src/ui/redwood_panel.rs:337-339 | the clamped from, count and to of a move stay inside a non-empty list, with a non-zero count |
| RedwoodPanel.MoveSegment | crates/extension_host/src/ui/redwood_panel.rs:340-345 | the splice-then-insert loop produces `Moved` |
| RedwoodPanel.ChildAdded | crates/extension_host/src/ui/redwood_panel.rs:296-317 | another slot changes nothing; otherwise the parent's list exists, gains the child at the clamped index unless already listed, other lists stay, and the child's first occurrence leaves the roots |
| RedwoodPanel.ChildMoved | crates/extension_host/src/ui/redwood_panel.rs:318-347 | another slot, an unknown parent, an empty list or a zero count change nothing; otherwise the list keeps its length and elements and other lists stay |
| RedwoodPanel.RemoveBounds | crates/extension_host/src/ui/redwood_panel.rs:367-368 | the clamped start lies inside the list and the clamped run never passes its end |
| RedwoodPanel.ChildrenRemoved | crates/extension_host/src/ui/redwood_panel.rs:348-371 | another slot, an unknown parent or an empty list change nothing; otherwise exactly the clamped run leaves the list, the rest in order |
| RedwoodPanel.PropertySet | crates/extension_host/src/ui/redwood_panel.rs:372-391 | a known node stores the decoded value under the property; an unknown node or undecodable JSON changes nothing |
| RedwoodPanel.ParsedModifiers | crates/extension_host/src/ui/redwood_panel.rs:394-413 | one modifier per element, in order, with its tag, and a value only when the element's JSON decodes |
| RedwoodPanel.ParseModifiers | crates/extension_host/src/ui/redwood_panel.rs:394-413 | the element loop builds `ParsedModifiers` |
| RedwoodPanel.ModifiersSet | crates/extension_host/src/ui/redwood_panel.rs:392-416 | a known node's whole modifier list is replaced; an unknown node changes nothing |
| RedwoodPanel.Created | crates/extension_host/src/ui/redwood_panel.rs:285-288 | a node with no properties or modifiers, and an existing child list kept (an empty one made otherwise) |
| RedwoodPanel.Destroyed | crates/extension_host/src/ui/redwood_panel.rs:289-295 | the node and its own list go and the id leaves every other list, which keep everything else; the roots are untouched |
| RedwoodPanel.FrameApplied | crates/extension_host/src/ui/redwood_panel.rs:276-281 | after every change of the frame the roots are cleared |
| RedwoodPanel.AddChildNeverDuplicates | crates/extension_host/src/ui/redwood_panel.rs:309-316 | however often a child is added, it is listed once under its parent |
| RedwoodPanel.DestroyUnlistsOnlyTarget | crates/extension_host/src/ui/redwood_panel.rs:289-295 | destroy unlists exactly the destroyed id |
| RedwoodPanel.RedwoodPanelView.constructor | crates/extension_host/src/ui/redwood_panel.rs:263-274 | a new panel has no nodes, lists or roots |
| RedwoodPanel.RedwoodPanelView.ApplyChange | crates/extension_host/src/ui/redwood_panel.rs:283-418 | the panel's state becomes `Step` of its old state |
| RedwoodPanel.RedwoodPanelView.ApplyFrame | crates/extension_host/src/ui/redwood_panel.rs:276-281 | the panel's state becomes `FrameApplied` of its old state |
| RedwoodPanel.RedwoodPanelView.Render | crates/extension_host/src/ui/redwood_panel.rs:428-458 | the waiting frames are applied; the virtual root 0's list is drawn when it exists, else the roots; the roots are those the frames left, replaced by the unlisted nodes, each once, only when there is no virtual root and none are left |
| RedwoodPanel.Flushed | crates/extension_host/src/ui/redwood_panel.rs:211-222 | the queued frames handed to the channel one by one, front first |
| RedwoodPanel.PanelRegistry.constructor | crates/extension_host/src/ui/redwood_panel.rs:174-179 | no senders, pending frames or event queues |
| RedwoodPanel.PanelRegistry.DispatchFrame | crates/extension_host/src/ui/redwood_panel.rs:181-206 | an open registered sender receives the frame; otherwise it is queued behind the panel's earlier pending frames |
| RedwoodPanel.PanelRegistry.RegisterPanelChannel | crates/extension_host/src/ui/redwood_panel.rs:208-223 | the sender is stored; on an open one all pending frames are sent front first and the queue goes; on a closed one the first frame is lost and the rest stay queued |
| RedwoodPanel.PanelRegistry.UnregisterPanelChannel | crates/extension_host/src/ui/redwood_panel.rs:225-229 | the panel's sender, pending frames and events all go |
| RedwoodPanel.PanelRegistry.QueueEvent | crates/extension_host/src/ui/redwood_panel.rs:461-467 | the event goes at the end of the panel's queue |
| RedwoodPanel.PanelRegistry.DrainEvents | crates/extension_host/src/ui/redwood_panel.rs:469-471 | every queued event, oldest first, and the queue is gone |
| RedwoodPanel.PanelRegistry.EmitButtonClick | crates/extension_host/src/ui/redwood_panel.rs:491-493 | a button click with no arguments is queued |
| RedwoodPanel.PanelRegistry.EmitToggleChange | crates/extension_host/src/ui/redwood_panel.rs:495-503 | a toggle change goes out under the button widget tag with "true" or "false" |
| RedwoodPanel.PanelRegistry.EmitTextChange | crates/extension_host/src/ui/redwood_panel.rs:505-513 | a text change goes out under the text-input tags with the JSON-encoded value |
| RedwoodPanel.PanelRegistry.EmitMenuSelect | crates/extension_host/src/ui/redwood_panel.rs:515-523 | a menu selection goes out under the button widget tag and the image-click event tag |
| RedwoodPanel.FlushedSnoc | crates/extension_host/src/ui/redwood_panel.rs:211-222 | a frame queued behind earlier ones is flushed after them |
| RedwoodPreview.NewNode | crates/zed/src/redwood_preview.rs:47-57 | a created node has the requested kind and every field at its default |
| RedwoodPreview.Created | crates/zed/src/redwood_preview.rs:47-57 | the handle holds a fresh node of the kind, other nodes stay, its child list is kept when present and made empty otherwise, other lists and the roots stay |
| RedwoodPreview.Destroyed | crates/zed/src/redwood_preview.rs:58-63 | the node and its own list go; the handle leaves every other list and the roots, each of which keeps everything else |
| RedwoodPreview.Appended | crates/zed/src/redwood_preview.rs:64-68 | the child goes at the end of the parent's list even when already listed, other lists and nodes stay, and one occurrence leaves the roots when it was a root |
| RedwoodPreview.Inserted | crates/zed/src/redwood_preview.rs:69-74 | a negative index inserts at the front and one past the end appends; other lists and nodes stay; one occurrence leaves the roots |
| RedwoodPreview.Removed | crates/zed/src/redwood_preview.rs:75-77 | every occurrence of the child leaves the parent's list (made empty for an unknown parent); everything else stays |
| RedwoodPreview.Set | crates/zed/src/redwood_preview.rs:78-91 | a setter changes only the named node, keeps its kind, and changes nothing unless the node exists and is of the setter's variant |
| RedwoodPreview.DestroyUnlistsOnlyTarget | crates/zed/src/redwood_preview.rs:58-63 | destroy unlists exactly the destroyed handle |
| RedwoodPreview.WrappedIndexInsertsAtFront | crates/zed/src/redwood_preview.rs:69-72 | an index of 2^31 or more wraps negative on its way through the bridge and inserts at the front |
| RedwoodPreview.RootsStayDistinct | crates/zed/src/redwood_preview.rs:45-93 | no command makes the roots list a handle twice |
| RedwoodPreview.RedwoodPreviewView.constructor | crates/zed/src/redwood_preview.rs:38-43 | a new view has no nodes, lists or roots |
| RedwoodPreview.RedwoodPreviewView.ApplyCmd | crates/zed/src/redwood_preview.rs:45-93 | the view's state becomes `Apply` of its old state |
| RedwoodPreview.RedwoodPreviewView.Render | crates/zed/src/redwood_preview.rs:97-114 | the waiting commands are applied; the virtual root 0's list is drawn when present, else the roots, inferred when empty as exactly the unlisted nodes, each once |
| StyleConversion.ConvertPosition | crates/gpui/src/yoga/style_conversion.rs:83-88 | the position is Absolute exactly for an absolute style |
| StyleConversion.ConvertOverflow | crates/gpui/src/yoga/style_conversion.rs:90-96 | Hidden exactly for Hidden or Clip, Visible and Scroll exactly for themselves |
| StyleConversion.ConvertFlexDirection | crates/gpui/src/yoga/style_conversion.rs:98-105 | each direction maps to its own Yoga direction, both ways |
| StyleConversion.ConvertFlexWrap | crates/gpui/src/yoga/style_conversion.rs:107-113 | each wrap mode maps to its own Yoga mode, both ways |
| StyleConversion.ConvertJustifyContent | crates/gpui/src/yoga/style_conversion.rs:115-126 | FlexStart exactly for unset, Start, FlexStart and the unsupported Stretch |
| StyleConversion.ConvertAlign | crates/gpui/src/yoga/style_conversion.rs:128-135 | a set alignment maps to one of the five Yoga alignments it names |
| StyleConversion.ConvertAlignItems | crates/gpui/src/yoga/style_conversion.rs:128-137 | unset is Stretch, and Auto never comes out |
| StyleConversion.ConvertAlignSelf | crates/gpui/src/yoga/style_conversion.rs:139-148 | Auto exactly when unset |
| StyleConversion.ConvertAlignContent | crates/gpui/src/yoga/style_conversion.rs:150-161 | unset is FlexStart; SpaceAround exactly for SpaceAround and the unsupported SpaceEvenly; never Auto or Baseline |
| StyleConversion.ConvertAbsoluteLength | crates/gpui/src/yoga/style_conversion.rs:187-201 | always a point value: pixels times the scale, rems through the rem size first |
| StyleConversion.ConvertDefiniteLength | crates/gpui/src/yoga/style_conversion.rs:173-185 | a percentage exactly for a fraction, a hundred times it; a point value exactly for an absolute length |
| StyleConversion.ConvertLength | crates/gpui/src/yoga/style_conversion.rs:163-171 | the Auto unit exactly for Auto, with value 0; a definite length converts as such |
| StyleConversion.ConvertDisplay | crates/gpui/src/yoga/style_conversion.rs:29-44 | Grid falls back to a wrapping flex container, None is None with no wrap, Flex and Block are flex with the style's wrap |
| StyleConversion.ConvertStyleToYoga | crates/gpui/src/yoga/style_conversion.rs:27-81 | the display pair, overflow from the x axis, grow and shrink passed through with their flags set exactly when they differ from the defaults, basis flagged unless Auto, aspect ratio NaN when unset |
| StyleConversion.NoAutoWherePaddingAndBorder | crates/gpui/src/yoga/style_conversion.rs:59-67 | padding, border and gap never carry Auto, and border is always points |
| StyleConversion.NoUndefinedUnit | crates/gpui/src/yoga/style_conversion.rs:163-201 | no converted length is Undefined |
| StyleConversion.OverflowUsesX | crates/gpui/src/yoga/style_conversion.rs:49 | the y overflow never reaches the record |
| StyleConversion.AlignmentDefaults | crates/gpui/src/yoga/style_conversion.rs:115-161 | an unset style gets FlexStart justify, Stretch items, Auto self and FlexStart content |
| StyleConversion.ScaleIsLinear | crates/gpui/src/yoga/style_conversion.rs:187-201 | an absolute length's value is linear in the scale factor |
| StyleConversion.ConversionExamples | crates/gpui/src/yoga/style_conversion.rs:283-315 | half a container is 50 percent; 1rem at 16px is 16 points; 10px at scale 2 is 20 points |
| StyleConversion.RemsArePixels | crates/gpui/src/yoga/style_conversion.rs:192-195 | r rems and r times the rem size in pixels convert alike |
| StyleConversion.StaleFlexGrow | crates/gpui/src/yoga/style_conversion.rs:73 | restyling a grown node with grow 0 leaves the earlier factor on the node |
| StyleConversion.StaleFlexShrink | crates/gpui/src/yoga/style_conversion.rs:74 | restyling with the default shrink 1 leaves an earlier shrink factor on the node |
| StyleConversion.BasisAndAspectReset | crates/gpui/src/yoga/style_conversion.rs:75-79 | an Auto basis and an unset aspect ratio do reset the node |
| StyleConversion.FractionalGapBecomesPoints | crates/gpui/yoga_bridge/YogaBridge.cpp:295-301 | a half-container gap becomes a 50-point gap, since the bridge sets gaps in points whatever the unit |
| Taffy.AbsoluteToTaffy | crates/gpui/src/taffy.rs:421-434 | the number handed to Taffy is the one the Yoga conversion puts in its point value |
| Taffy.DefiniteToTaffy | crates/gpui/src/taffy.rs:458-513 | a percentage exactly for a fraction, which Yoga's value is a hundred times; never auto; absolute lengths agree with Yoga |
| Taffy.LengthToTaffy | crates/gpui/src/taffy.rs:436-456 | auto exactly for Auto; a definite length converts as such |
| Taffy.LengthAgreesWithYoga | crates/gpui/src/taffy.rs:421-513 | the two engines agree on the unit kind and absolute magnitudes, and Yoga's percentage is a hundred times Taffy's fraction |
| Taffy.ToTaffySpace | crates/gpui/src/taffy.rs:606-614 | converting to Taffy's available space and back is the identity |
| Taffy.FromTaffySpace | crates/gpui/src/taffy.rs:616-624 | definite, min-content and max-content map to themselves with the same value |
| Taffy.SpaceRoundTrip | crates/gpui/src/taffy.rs:606-624 | converting from Taffy's side and back is the identity too |
| Taffy.Scaled | crates/gpui/src/taffy.rs:205-215 | definite space is scaled, the content sizes pass unchanged |
| Taffy.Unscaled | crates/gpui/src/taffy.rs:232-242 | unscaling is undone by scaling |
| Taffy.UnscaledScaled | crates/gpui/src/taffy.rs:205-242 | scaling then unscaling gives the caller's space back |
| Taffy.MeasureCallback | crates/gpui/src/taffy.rs:220-248 | without a node context the measured size is zero |
| Taffy.MeasureSeesLogicalPixels | crates/gpui/src/taffy.rs:220-248 | with the space the engine scaled and known sizes in device pixels, the measure function sees exactly the caller's logical space and sizes, and its result comes back scaled |
| Taffy.KnownRoundTrip | crates/gpui/src/taffy.rs:227-230 | a known size in device pixels unscales to the logical size it came from |
| Taffy.KeptStyles | crates/gpui/src/taffy.rs:67-79 | an override with a style records it, and none loses an existing style |
| Taffy.StyleOverridesDiverge | crates/gpui/src/taffy.rs:67-79 | an id whose overrides carry no style keeps its style here, where the Yoga engine drops it |
| Taffy.Adopted | crates/gpui/src/taffy.rs:96-102 | the new node becomes the parent of every child, other links stay |
| Taffy.Orphaned | crates/gpui/src/taffy.rs:285-292 | removal drops the node's own parent link and its children's |
| Taffy.RemovalIsPrune | crates/gpui/src/taffy.rs:285-292 | removing a node from its parent's list is pruning it from every list, since no other list names it |
| Taffy.RemovalKeepsParents | crates/gpui/src/taffy.rs:285-292 | after removal, lists and parent links still agree |
| Taffy.PurgeStep | crates/gpui/src/taffy.rs:189-201 | one pop-and-push of the purge keeps the set still to be cleared, minus the popped node, and lowers a count of paths, so the walk ends |
| Taffy.RemovalKeepsTree | crates/gpui/src/taffy.rs:285-292 | removing a known node keeps the tree acyclic with lists and links agreeing |
| Taffy.AddKeepsTree | crates/gpui/src/taffy.rs:81-106 | a fresh node adopting parentless known children keeps the tree well formed |
| Taffy.TaffyLayoutEngine.constructor | crates/gpui/src/taffy.rs:33-44 | an empty tree and empty side tables |
| Taffy.TaffyLayoutEngine.Clear | crates/gpui/src/taffy.rs:46-52 | the tree and every side table are emptied |
| Taffy.TaffyLayoutEngine.SetExternalBounds | crates/gpui/src/taffy.rs:59-61 | the bounds are stored for the id, nothing else changes |
| Taffy.TaffyLayoutEngine.ApplyExternalOverrides | crates/gpui/src/taffy.rs:67-79 | every override's bounds are recorded, last one winning, and its style when it has one |
| Taffy.TaffyLayoutEngine.RequestLayout | crates/gpui/src/taffy.rs:81-106 | a fresh id, a leaf for no children, otherwise the parent of exactly the children in order; the side tables are unchanged |
| Taffy.TaffyLayoutEngine.RequestMeasuredLayout | crates/gpui/src/taffy.rs:108-123 | a fresh leaf carrying the measure function; nothing else changes |
| Taffy.TaffyLayoutEngine.RemoveNode | crates/gpui/src/taffy.rs:285-292 | an unknown id changes nothing; a known one leaves the tree and then the bounds, style and computed tables |
| Taffy.TaffyLayoutEngine.TreeRemove | crates/gpui/src/taffy.rs:285-287 | the node leaves its parent's list, its children lose their parent link, and it goes |
| Taffy.TaffyLayoutEngine.ComputeLayout | crates/gpui/src/taffy.rs:171-251 | the id is marked computed; on a repeat the cached bounds of the id and everything below it are dropped; the solver's layouts are stored |
| Taffy.TaffyLayoutEngine.Purge | crates/gpui/src/taffy.rs:189-201 | the stack walk drops exactly the cached bounds of the subtree |
| Taffy.TaffyLayoutEngine.LayoutBounds | crates/gpui/src/taffy.rs:253-277 | the cached bounds when present, else the layout in logical pixels moved by the parent's absolute origin; it is cached, and no other cache entry changes except ancestors filled with their own absolute bounds |
| Retained.NewNode | crates/gpui/src/retained.rs:290-301 | a created view has its id and kind, no parent, no children and no optional style |
| Retained.ParseKind | crates/gpui/src/retained.rs:271-288 | no type name is `Other("")`; any name parses to a kind whose name it is, unknown names kept as `Other` |
| Retained.KindRoundTrip | crates/gpui/src/retained.rs:271-288 | every known kind is parsed back from its name |
| Retained.SortedByZOrders | crates/gpui/src/retained.rs:1013-1021 | the paint order is a permutation of the child list, z-index descending |
| Retained.SortedByZStable | crates/gpui/src/retained.rs:1013-1021 | children of equal z-index keep their list order |
| Retained.StoredBorder | crates/gpui/src/retained.rs:372-387 | a border is stored exactly when some part of it is set, and then as given |
| Retained.Positive | crates/gpui/src/retained.rs:372-387 | a width or radius is kept exactly when positive |
| Retained.KeptTextStyle | crates/gpui/src/retained.rs:550-558 | a text style is kept exactly when some attribute is set |
| Retained.StoredContentStyle | crates/gpui/src/retained.rs:499-522 | a scroll content style is stored exactly when something is set |
| Retained.RetainedHost.constructor | crates/gpui/src/retained.rs:254-259 | an empty host with no root |
| Retained.RetainedHost.CreateView | crates/gpui/src/retained.rs:290-301 | the id holds a new node of the parsed kind, replacing any earlier one; a root view becomes the root |
| Retained.RetainedHost.DeleteView | crates/gpui/src/retained.rs:303-316 | the view goes, its recorded parent's list loses it, every other view stays, and the root is cleared when it was the root |
| Retained.RetainedHost.InsertChild | crates/gpui/src/retained.rs:318-331 | an unknown parent changes nothing; otherwise the child is in the parent's list once, at the clamped index when new, and an existing child points at the parent; nothing else changes |
| Retained.RetainedHost.RemoveChild | crates/gpui/src/retained.rs:333-343 | the child leaves the parent's list wholly and loses its parent link whichever parent it named; nothing else changes |
| Retained.RetainedHost.Update | crates/gpui/src/retained.rs:345-572 | an existing node is replaced and nothing else changes, keeping the host's invariant |
| Retained.RetainedHost.SetLayout | crates/gpui/src/retained.rs:345-352 | an unknown id changes nothing; otherwise the node's frame is set |
| Retained.RetainedHost.SetBackground | crates/gpui/src/retained.rs:354-361 | an unknown id changes nothing; otherwise the node's background is set |
| Retained.RetainedHost.SetOpacity | crates/gpui/src/retained.rs:363-370 | an unknown id changes nothing; otherwise the node's opacity is set |
| Retained.RetainedHost.SetBorder | crates/gpui/src/retained.rs:372-387 | an unknown id changes nothing; otherwise width and radius are kept only when positive and the border is stored only when not empty |
| Retained.RetainedHost.SetBorderStyle | crates/gpui/src/retained.rs:389-402 | an unknown id changes nothing; otherwise the border style is set and the border stored only when not empty |
| Retained.RetainedHost.SetBorderEdgeWidths | crates/gpui/src/retained.rs:404-420 | an unknown id changes nothing; otherwise the four edge widths are set top, right, bottom, left, the border stored only when not empty |
| Retained.RetainedHost.SetBorderEdgeColors | crates/gpui/src/retained.rs:422-438 | an unknown id changes nothing; otherwise the four edge colors are set, the border stored only when not empty |
| Retained.RetainedHost.SetBorderEdgeStyles | crates/gpui/src/retained.rs:440-456 | an unknown id changes nothing; otherwise the four edge styles are set, the border stored only when not empty |
| Retained.RetainedHost.SetBorderCornerRadii | crates/gpui/src/retained.rs:458-474 | an unknown id changes nothing; otherwise the four corner radii are set top-left, top-right, bottom-right, bottom-left, the border stored only when not empty |
| Retained.RetainedHost.SetShadow | crates/gpui/src/retained.rs:476-488 | an unknown id changes nothing; otherwise the shadow is set |
| Retained.RetainedHost.SetClip | crates/gpui/src/retained.rs:490-497 | an unknown id changes nothing; otherwise the clip flag is set |
| Retained.RetainedHost.SetScrollContentStyle | crates/gpui/src/retained.rs:499-522 | an unknown id changes nothing; otherwise the content padding and alignment are set, stored only when not empty |
| Retained.RetainedHost.SetTransform | crates/gpui/src/retained.rs:524-539 | an unknown id changes nothing; otherwise the transform is set |
| Retained.RetainedHost.SetZIndex | crates/gpui/src/retained.rs:541-548 | an unknown id changes nothing; otherwise the z-index is set |
| Retained.RetainedHost.SetText | crates/gpui/src/retained.rs:550-558 | an unknown id changes nothing; otherwise the text is set and its style kept only when some attribute is set |
| Retained.RetainedHost.SetScroll | crates/gpui/src/retained.rs:560-572 | an unknown id changes nothing; otherwise the scroll offset and content size are set |
| Retained.RetainedHost.SetImageUri | crates/gpui/src/retained.rs:1036-1043 | an unknown id changes nothing; otherwise the image URI is set |
| Retained.RetainedHost.SetSwitchChecked | crates/gpui/src/retained.rs:1045-1052 | an unknown id changes nothing; otherwise the switch's checked state is set |
| Retained.RetainedHost.SetSwitchDisabled | crates/gpui/src/retained.rs:1054-1061 | an unknown id changes nothing; otherwise the switch's disabled state is set |
| Retained.RetainedHost.SetInputPlaceholder | crates/gpui/src/retained.rs:1063-1070 | an unknown id changes nothing; otherwise the placeholder is set |
| Retained.RetainedHost.SetInputEditable | crates/gpui/src/retained.rs:1072-1079 | an unknown id changes nothing; otherwise the editable flag is set |
| Retained.RetainedHost.HasRoot | crates/gpui/src/retained.rs:1081-1085 | true exactly when a root is set, and the root is then a stored view |
| Retained.RetainedHost.SortedChildren | crates/gpui/src/retained.rs:1013-1021 | a permutation of the node's children, z-index descending, stable among equal z-indices |
| NodeGeometry.VisitStep | crates/gpui/src/node_geometry.rs:143-152 | visiting one more key keeps the visit order listing exactly the visited keys, each once |
| NodeGeometry.WithoutMember | crates/gpui/src/node_geometry.rs:163-173 | the layout leaves the entry of every container in the lineage, an entry left empty is deleted, and other entries stay |
| NodeGeometry.WithMember | crates/gpui/src/node_geometry.rs:154-161 | the layout joins the entry of every container in the lineage, created when missing, and other entries stay |
| NodeGeometry.DropKeepsIndexed | crates/gpui/src/node_geometry.rs:132-141 | dropping a snapshot with its memberships keeps the scroll index the exact inverse of the lineages |
| NodeGeometry.RecordKeepsIndexed | crates/gpui/src/node_geometry.rs:106-126 | recording a snapshot swaps the node's old memberships for its new ones, keeping the index exact |
| NodeGeometry.SkipEntry | crates/gpui/src/node_geometry.rs:144 | deleting one container's entry leaves the index exact elsewhere, and the entry listed exactly the snapshots under that container |
| NodeGeometry.ExemptionLifted | crates/gpui/src/node_geometry.rs:143-152 | once no snapshot lists the removed container, the index is exact again |
| NodeGeometry.NodeGeometryStore.constructor | crates/gpui/src/node_geometry.rs:92-98 | no snapshots, an empty index and a zero version counter |
| NodeGeometry.NodeGeometryStore.Clear | crates/gpui/src/node_geometry.rs:100-104 | every snapshot and index entry goes and the counter restarts at 0 |
| NodeGeometry.NodeGeometryStore.Record | crates/gpui/src/node_geometry.rs:106-126 | the counter steps by one modulo 2^64 and stamps the new snapshot, which replaces any earlier one, and the index memberships move from the old lineage to the new one |
| NodeGeometry.NodeGeometryStore.Snapshot | crates/gpui/src/node_geometry.rs:128-130 | the stored snapshot exactly when there is one |
| NodeGeometry.NodeGeometryStore.Invalidate | crates/gpui/src/node_geometry.rs:132-141 | true exactly when a snapshot existed; it and its memberships go; in both cases the registry drops the window's copy and runs the key's callbacks with Invalidated |
| NodeGeometry.NodeGeometryStore.ScrollContainerUpdated | crates/gpui/src/node_geometry.rs:143-152 | the container's entry goes and every snapshot it listed is dropped with its memberships; each listed layout, once, in some order, is invalidated in the registry and its callbacks run |
| NodeGeometry.NodeGeometryStore.DropSnapshot | crates/gpui/src/node_geometry.rs:146-148 | the snapshot and its memberships go, keeping the index exact except for the container being removed |
| NodeGeometry.NodeGeometryStore.AddScrollMembership | crates/gpui/src/node_geometry.rs:154-161 | the index becomes `WithMember` of the old one |
| NodeGeometry.NodeGeometryStore.RemoveScrollMembership | crates/gpui/src/node_geometry.rs:163-173 | the index becomes `WithoutMember` of the old one |
| NodeGeometry.Callbacks | crates/gpui/src/node_geometry.rs:291-304 | one callback per subscription entry, in order |
| NodeGeometry.Invocations | crates/gpui/src/node_geometry.rs:357-366 | each callback is run once, in order, with the change |
| NodeGeometry.CallbackSets | crates/gpui/src/node_geometry.rs:238-244 | only non-empty callback lists, at most one per visited key |
| NodeGeometry.WithoutSubscriber | crates/gpui/src/node_geometry.rs:283 | exactly the entries with another subscriber id are kept |
| NodeGeometry.CallbackSetsLog | crates/gpui/src/node_geometry.rs:318-326 | running the non-empty callback lists runs every dropped key's callbacks: empty lists contribute nothing |
| NodeGeometry.GlobalNodeGeometry.constructor | crates/gpui/src/node_geometry.rs:187-195 | no snapshots or subscriptions, and subscriber ids start at 1 |
| NodeGeometry.GlobalNodeGeometry.Record | crates/gpui/src/node_geometry.rs:198-207 | the window's copy is stored and the key's callbacks returned |
| NodeGeometry.GlobalNodeGeometry.Snapshot | crates/gpui/src/node_geometry.rs:209-211 | the window's copy exactly when there is one |
| NodeGeometry.GlobalNodeGeometry.Invalidate | crates/gpui/src/node_geometry.rs:213-225 | the copy goes; callbacks come back only when a copy existed or the key has subscribers |
| NodeGeometry.GlobalNodeGeometry.ClearWindow | crates/gpui/src/node_geometry.rs:227-250 | every snapshot and subscription of the window goes; the non-empty callback lists of its snapshots' keys come back, each key once |
| NodeGeometry.GlobalNodeGeometry.CollectCallbacks | crates/gpui/src/node_geometry.rs:238-244 | every target key visited once, collecting its non-empty callback list |
| NodeGeometry.GlobalNodeGeometry.Subscribe | crates/gpui/src/node_geometry.rs:252-275 | the callback is appended under the key with the current id, which is never 0; the id advances, wrapping past 2^64 - 1 to 1 |
| NodeGeometry.GlobalNodeGeometry.RemoveSubscription | crates/gpui/src/node_geometry.rs:277-289 | the subscriber's entries leave the key's list, and the key goes once its list is empty |
| NodeGeometry.GlobalNodeGeometry.Notify | crates/gpui/src/node_geometry.rs:357-366 | each callback is run once, in order, with the change |
| NodeGeometry.GlobalNodeGeometry.RecordAndNotify | crates/gpui/src/node_geometry.rs:306-316 | the copy is stored and the key's subscribers are told it was updated |
| NodeGeometry.GlobalNodeGeometry.InvalidateAndNotify | crates/gpui/src/node_geometry.rs:328-335 | the copy goes and the key's subscribers are told it was invalidated |
| NodeGeometry.GlobalNodeGeometry.ClearAndNotify | crates/gpui/src/node_geometry.rs:318-326 | the window's snapshots and subscriptions go and each dropped snapshot's subscribers are told once |
| NodeGeometry.NodeGeometrySubscription.constructor | crates/gpui/src/node_geometry.rs:52-57 | an active handle for the key and subscriber |
| NodeGeometry.NodeGeometrySubscription.IsActive | crates/gpui/src/node_geometry.rs:61-64 | whether the handle is still active |
| NodeGeometry.NodeGeometrySubscription.Teardown | crates/gpui/src/node_geometry.rs:66-83 | an active handle removes its subscription and becomes inactive; later calls change nothing |
| Environment.Environment.constructor | crates/gpui/src/environment.rs:44-46 | a fresh application has no environment state, empty caches and no notifications |
| Environment.Environment.Init | crates/gpui/src/environment.rs:44-73 | the first call installs the system locale, zero-size metrics at scale 1 and font scale 1, no observers, and fills both caches; later calls change nothing |
| Environment.Environment.CurrentLocale | crates/gpui/src/environment.rs:76-79 | the installed locale, which the cache mirrors |
| Environment.Environment.CurrentWindowMetrics | crates/gpui/src/environment.rs:81-84 | the installed metrics, which the cache mirrors |
| Environment.Environment.CachedLocale | crates/gpui/src/environment.rs:125-128 | nothing before initialisation, the current locale after |
| Environment.Environment.CachedWindowMetrics | crates/gpui/src/environment.rs:130-133 | nothing before initialisation, the current metrics after |
| Environment.Environment.SetLocale | crates/gpui/src/environment.rs:86-100 | the locale becomes the new one; when it differed, the cache follows and every locale observer is notified once, in order; otherwise nothing changes |
| Environment.Environment.SetWindowMetrics | crates/gpui/src/environment.rs:102-120 | the metrics become the new ones; when they differed, the cache follows and every metrics observer is notified once, in order; otherwise nothing changes |
| Environment.Environment.OnLocaleChanged | crates/gpui/src/environment.rs:135-149 | the callback is appended to the locale observers; nothing else changes |
| Environment.Environment.OnWindowMetricsChanged | crates/gpui/src/environment.rs:151-165 | the callback is appended to the metrics observers; nothing else changes |
| WasmHost.FromBigEndian | crates/extension_host/src/wasm_host.rs:101 | two bytes give a value below 2^16 |
| WasmHost.ParseVersionSection | crates/extension_host/src/wasm_host.rs:101 | a version exactly for six bytes, each part below 2^16 |
| WasmHost.VersionBytesRoundTrip | crates/extension_host/src/wasm_host.rs:101 | the bytes the build writes decode to the version they encode |
| WasmHost.SectionBytesRoundTrip | crates/extension_host/src/wasm_host.rs:101 | every six-byte section is the encoding of the version it decodes to |
| WasmHost.ParseExtensionVersion | crates/extension_host/src/wasm_host.rs:99 | the payload loop computes `ScanVersion`: a parse error, an invalid version section, the last version, or a missing-section error |
| WasmHost.LastSectionWins | crates/extension_host/src/wasm_host.rs:99 | in a well-formed module the last version section decides the version, and without one the version is missing |
| WasmHost.NoVersionSection | crates/extension_host/src/wasm_host.rs:99 | a module with no version section reports it missing |
| WasmHost.InvalidSectionFails | crates/extension_host/src/wasm_host.rs:99 | a reached version section of the wrong length is an error whatever follows |
| WasmHost.CacheWeight | crates/extension_host/src/wasm_host.rs:106 | key plus value length, saturating at the largest u32 |
| ExtensionApiBuild.Find | crates/extension_api/build.rs:181-182 | the first position of the character, or none when absent |
| ExtensionApiBuild.FindAt | crates/extension_api/build.rs:181-182 | the position found holds the character and nothing before it does |
| ExtensionApiBuild.IndentLength | crates/extension_api/build.rs:139-140 | the length of the leading whitespace, which is all whitespace and is followed by none |
| ExtensionApiBuild.TrimEnd | crates/extension_api/build.rs:160 | a prefix with every trailing copy of the character removed |
| ExtensionApiBuild.RewritePackage | crates/extension_api/build.rs:157-165 | a package line without '@' is kept as it is |
| ExtensionApiBuild.RewriteVersionedPackage | crates/extension_api/build.rs:157-165 | "package name@version" becomes "package name;" |
| ExtensionApiBuild.VersionEnd | crates/extension_api/build.rs:183-195 | the version run after position i ends at or after i, covers only version characters and stops at the first that is not |
| ExtensionApiBuild.WithoutVersionSuffix | crates/extension_api/build.rs:181-201 | without '@' the segment is unchanged, otherwise shorter |
| ExtensionApiBuild.RemoveVersionSuffix | crates/extension_api/build.rs:181-201 | the scanning loop computes `WithoutVersionSuffix` |
| ExtensionApiBuild.RemovesVersion | crates/extension_api/build.rs:181-201 | what precedes the first '@' and what follows the maximal version run after it are kept |
| ExtensionApiBuild.ConvertPathSegment | crates/extension_api/build.rs:167-179 | a line whose path is not `zed:` or `redwood:` is kept as it is, and the keyword always stays in front |
| ExtensionApiBuild.ConvertNamespacedPath | crates/extension_api/build.rs:167-179 | a versioned `zed:`/`redwood:` path keeps only what follows its first segment, without the version |
| ExtensionApiBuild.NamespacedPath | crates/extension_api/build.rs:167-179 | such a path is converted from what follows its colon, after the prefix |
| ExtensionApiBuild.ConvertLine | crates/extension_api/build.rs:138-155 | package lines are dropped from the base modules and rewritten for extension files, import/use lines with ':' are converted keeping the indent, other lines are kept |
| ExtensionApiBuild.Lines | crates/extension_api/build.rs:128 | no line holds '\n', and only the empty text has no lines |
| ExtensionApiBuild.ConvertWit | crates/extension_api/build.rs:125-136 | the loop computes `Converted` of the lines |
| ExtensionApiBuild.ConvertedLineCount | crates/extension_api/build.rs:125-136 | the output has one line per kept input line, and an extension file keeps them all |
| ExtensionApiBuild.BigEndian | crates/extension_api/build.rs:209-211 | two bytes whose big-endian value is the number |
| ExtensionApiBuild.VersionBytes | crates/extension_api/build.rs:213-216 | six bytes: major, minor and patch, each big-endian |
| ExtensionApiBuild.DigitParts | crates/extension_api/build.rs:208 | the text always splits into at least one part |
| ExtensionApiBuild.ParseU16 | crates/extension_api/build.rs:209-211 | a value only for a non-empty digit run, and then one below 2^16 |
| ExtensionApiBuild.VersionFileContents | crates/extension_api/build.rs:203-218 | the written bytes are six long, when the first three digit runs parse |
| ExtensionApiBuild.VersionFileOfVersion | crates/extension_api/build.rs:203-218 | a version "major.minor.patch" is written as the six bytes of its three numbers |
| GhosttyBackend.RowCells | crates/terminal/src/ghostty_backend.rs:105-118 | a row buffer of exactly the terminal width, holding what the library wrote and zeroed cells beyond |
| GhosttyBackend.Ordered | crates/terminal/src/ghostty_backend.rs:101-102 | the selection corners sorted, whatever order they came in |
| GhosttyBackend.ColumnsAsWritten | crates/terminal/src/ghostty_backend.rs:119-121 | as written, the columns read stay inside the row except on the last row, whose end is the larger column however wide it is |
| GhosttyBackend.ColumnsAsWrittenOverrun | crates/terminal/src/ghostty_backend.rs:119-121 | as written, a one-row selection ending at column 80 of an 80-column viewport reads past the last cell |
| GhosttyBackend.Columns | crates/terminal/src/ghostty_backend.rs:119-120 | the columns read on a row lie inside the row |
| GhosttyBackend.ColumnsWithinRow | crates/terminal/src/ghostty_backend.rs:119-121 | the corrected columns are the columns the code reads, cut at the row's width, and equal them when the end column is inside the row |
| GhosttyBackend.Rows | crates/terminal/src/ghostty_backend.rs:104-130 | one text per selected row |
| GhosttyBackend.RowsStep | crates/terminal/src/ghostty_backend.rs:104-130 | each row's text follows the earlier rows, which end with '\n' |
| GhosttyBackend.ReadSelectionText | crates/terminal/src/ghostty_backend.rs:97-132 | nothing exactly for a terminal without columns; otherwise the selected cells' text, row by row, joined by '\n' |
| GhosttyBackend.AppendCells | crates/terminal/src/ghostty_backend.rs:121-128 | the inner loop appends exactly the text of the cells in the range |
| GhosttyBackend.SelectionSymmetric | crates/terminal/src/ghostty_backend.rs:101-102 | swapping the corners, or their columns, gives the same text |
| GhosttyBackend.SelectionLines | crates/terminal/src/ghostty_backend.rs:104-130 | with no line break inside a cell, the rows are separated by exactly one '\n' each, none after the last |
| GhosttyBackend.ToIo | crates/terminal/src/ghostty_backend.rs:181 | an error code of 0 becomes -1, never success; any other code is kept |
| RedwoodBridge.AsI32 | crates/redwood_gpui_bridge/src/lib.rs:103-104 | the same 32 bits read as two's complement: in the i32 range, congruent modulo 2^32, negative exactly from 2^31 on |
| RedwoodBridge.AsI64 | crates/redwood_gpui_bridge/src/lib.rs:100-118 | the same 64 bits read as two's complement: in the i64 range, congruent modulo 2^64, negative exactly from 2^63 on |
| RedwoodBridge.AsI64Injective | crates/redwood_gpui_bridge/src/lib.rs:100-118 | distinct frame ids stay distinct handles |
| RedwoodBridge.KindOf | crates/redwood_gpui_bridge/src/lib.rs:14-18 | converting a widget to a node kind and back gives the widget |
| RedwoodBridge.StrOf | crates/redwood_gpui_bridge/src/lib.rs:100 | the string at the id in the frame's table, or empty past its end |
| RedwoodBridge.Translate | crates/redwood_gpui_bridge/src/lib.rs:101-128 | a command exactly when the record carries its kind's payload, of the variant that kind becomes |
| RedwoodBridge.SetEnabledDrivesButton | crates/redwood_gpui_bridge/src/lib.rs:119-121 | a set-enabled record becomes a button-enabled command with its own id and value |
| RedwoodBridge.Commands | crates/redwood_gpui_bridge/src/lib.rs:101-128 | one command per record carrying its payload, so never more than the records |
| RedwoodBridge.CommandsFromRecords | crates/redwood_gpui_bridge/src/lib.rs:101-128 | every command is some record's translation |
| RedwoodBridge.CommandsAppend | crates/redwood_gpui_bridge/src/lib.rs:101-128 | translating a concatenation translates each part, keeping the frame's order |
| RedwoodBridge.Deliveries | crates/redwood_gpui_bridge/src/lib.rs:44-46 | nothing without a channel; otherwise each command to it, in order |
| RedwoodBridge.DeliveredCommands | crates/redwood_gpui_bridge/src/lib.rs:44-52 | whichever channel is chosen receives exactly the commands, in order |
| RedwoodBridge.Bridge.constructor | crates/redwood_gpui_bridge/src/lib.rs:37-38 | no preview sender, no panel senders, nothing sent |
| RedwoodBridge.Bridge.Target | crates/redwood_gpui_bridge/src/lib.rs:48-52 | the panel's own channel when registered, else the preview's |
| RedwoodBridge.Bridge.RegisterUiSender | crates/redwood_gpui_bridge/src/lib.rs:40 | the preview sender is replaced; nothing else changes |
| RedwoodBridge.Bridge.RegisterPanelSender | crates/redwood_gpui_bridge/src/lib.rs:41 | the panel's sender is stored or replaced; nothing else changes |
| RedwoodBridge.Bridge.UnregisterPanelSender | crates/redwood_gpui_bridge/src/lib.rs:42 | the panel's sender goes; nothing else changes |
| RedwoodBridge.Bridge.Emit | crates/redwood_gpui_bridge/src/lib.rs:44-46 | the command goes to the preview channel, or is dropped when there is none |
| RedwoodBridge.Bridge.EmitTo | crates/redwood_gpui_bridge/src/lib.rs:48-52 | the command goes to the panel's channel, falling back to `emit` |
| RedwoodBridge.Bridge.Apply | crates/redwood_gpui_bridge/src/lib.rs:98-129 | every payload-carrying record's command, in order, goes to the preview channel |
| RedwoodBridge.Bridge.ApplyTo | crates/redwood_gpui_bridge/src/lib.rs:136-150 | the same commands go to the panel's channel or the fallback |
| RedwoodBridge.ApplyAgreesWithApplyTo | crates/redwood_gpui_bridge/src/lib.rs:98-150 | both entry points hand their channel the same command sequence |
| Metal4Renderer.InstanceBufferPool.constructor | crates/gpui/src/platform/mac/metal4_renderer.rs:68-70 | an empty pool of 2 MiB buffers |
| Metal4Renderer.InstanceBufferPool.Acquire | crates/gpui/src/platform/mac/metal4_renderer.rs:71-82 | the most recently released buffer if any, else a new one; always of the pool's size |
| Metal4Renderer.InstanceBufferPool.Release | crates/gpui/src/platform/mac/metal4_renderer.rs:83-87 | a buffer of the pool's size is kept for reuse, any other dropped |
| Metal4Renderer.AlignOffset | crates/gpui/src/platform/mac/metal4_renderer.rs:603 | the least multiple of 256 not below the offset |
| Metal4Renderer.AlignOffsetIdempotent | crates/gpui/src/platform/mac/metal4_renderer.rs:603 | aligning twice is aligning once |
| Metal4Renderer.PackedSnoc | crates/gpui/src/platform/mac/metal4_renderer.rs:622-878 | an upload at the aligned end of the previous ones keeps them packed |
| Metal4Renderer.PackedAligned | crates/gpui/src/platform/mac/metal4_renderer.rs:622-878 | in packed uploads every start is aligned and every upload fits in the buffer |
| Metal4Renderer.PackedDisjoint | crates/gpui/src/platform/mac/metal4_renderer.rs:622-878 | packed uploads never overlap and their batches come in order |
| Metal4Renderer.PlaceUpload | crates/gpui/src/platform/mac/metal4_renderer.rs:626-636 | the offset is aligned; the upload is placed there exactly when it fits, and the uploads stay packed |
| Metal4Renderer.PlacePathUploads | crates/gpui/src/platform/mac/metal4_renderer.rs:641-744 | each path upload is placed when it fits and skipped otherwise, keeping the earlier uploads and packing |
| Metal4Renderer.PlaceSurfaces | crates/gpui/src/platform/mac/metal4_renderer.rs:787-876 | surfaces are placed until one does not fit, which then did not fit at the frontier |
| Metal4Renderer.PlaceBatch | crates/gpui/src/platform/mac/metal4_renderer.rs:622-878 | the pass stops exactly when a non-empty instance batch does not fit, placing nothing; otherwise that batch's bytes are uploaded |
| Metal4Renderer.PlaceBatches | crates/gpui/src/platform/mac/metal4_renderer.rs:622-878 | all uploads packed and from handled batches; the loop stops only at a batch that did not fit, and every handled instance batch was uploaded |
| Metal4Renderer.DrawUploads | crates/gpui/src/platform/mac/metal4_renderer.rs:597-881 | one frame's uploads in a fresh pool buffer are packed, and stop only at a batch that did not fit |
| Metal4Atlas.BytesPerPixel | crates/gpui/src/platform/mac/metal4_renderer.rs:1108-1115 | one byte for the single-channel formats, four otherwise |
| Metal4Atlas.BytesPerPixelOfKind | crates/gpui/src/platform/mac/metal4_renderer.rs:1108-1115 | monochrome textures hold one byte per pixel, polychrome four |
| Metal4Atlas.ClampSide | crates/gpui/src/platform/mac/metal4_renderer.rs:1018 | a side clamped into [1024, 16384], unchanged when already inside |
| Metal4Atlas.AtlasSize | crates/gpui/src/platform/mac/metal4_renderer.rs:1010-1018 | each side of a new texture lies in [1024, 16384] and holds the request unless it exceeds the maximum |
| Metal4Atlas.TryAllocate | crates/gpui/src/platform/mac/metal4_renderer.rs:1093-1106 | a tile exactly when the allocator has room, and the texture then holds one more key |
| Metal4Atlas.NewestFit | crates/gpui/src/platform/mac/metal4_renderer.rs:997 | the newest texture with room, searching from the last; none when no texture has room |
| Metal4Atlas.PushTexture | crates/gpui/src/platform/mac/metal4_renderer.rs:1005-1065 | a new empty texture sized for the request, in the last freed slot when there is one and in a new slot otherwise, other slots unchanged and the list kept valid |
| Metal4Atlas.Allocated | crates/gpui/src/platform/mac/metal4_renderer.rs:987-1003 | the newest texture of the kind with room serves the request; failing that a pushed texture is tried, which stays even when it cannot hold the request |
| Metal4Atlas.GetOrInserted | crates/gpui/src/platform/mac/metal4_renderer.rs:934-955 | a cached tile is returned unchanged; a build error or nothing built changes nothing; a built image gets a tile that is then cached under the key |
| Metal4Atlas.CachedAfterInsert | crates/gpui/src/platform/mac/metal4_renderer.rs:934-955 | a key once given a tile is served from the cache, whatever the build callback would return |
| Metal4Atlas.FindSlot | crates/gpui/src/platform/mac/metal4_renderer.rs:1067-1075 | the first slot holding the texture with the id, or none when no slot does |
| Metal4Atlas.FindSlotIsIndex | crates/gpui/src/platform/mac/metal4_renderer.rs:1067-1075 | in a valid list the search lands on the id's own index |
| Metal4Atlas.Removed | crates/gpui/src/platform/mac/metal4_renderer.rs:957-984 | the atlas stays valid and at most the removed key leaves the cache |
| Metal4Atlas.LastKeyFreesSlot | crates/gpui/src/platform/mac/metal4_renderer.rs:957-984 | removing a texture's last key empties it and its slot is the next one a pushed texture of that kind takes |
| Metal4Atlas.RemoveSharedKey | crates/gpui/src/platform/mac/metal4_renderer.rs:957-984 | removing a key of a texture that holds others only drops one reference: the key stays cached |
| Metal4Atlas.RepeatedRemoveEmptiesSharedTexture | crates/gpui/src/platform/mac/metal4_renderer.rs:957-984 | with two keys in one texture, removing the same key twice empties the texture |
| Metal4Atlas.Metal4AtlasObject.constructor | crates/gpui/src/platform/mac/metal4_renderer.rs:914-920 | no textures and no tiles |
| Metal4Atlas.Metal4AtlasObject.GetOrInsertWith | crates/gpui/src/platform/mac/metal4_renderer.rs:934-955 | the atlas state becomes `GetOrInserted` of the old one, staying valid |
| Metal4Atlas.Metal4AtlasObject.Remove | crates/gpui/src/platform/mac/metal4_renderer.rs:957-984 | the atlas state becomes `Removed` of the old one, staying valid |
| IntellijService.MapSeverity | crates/intellij_service/src/lib.rs:218-229 | none exactly for Unknown; otherwise an LSP severity from Error to Hint that maps back to it |
| IntellijService.MapCompletionKind | crates/intellij_service/src/lib.rs:269-300 | none exactly for Unknown; otherwise an LSP kind code in 1..25 that maps back to it |
| IntellijService.CompletionKindsDistinct | crates/intellij_service/src/lib.rs:269-300 | two different kinds never share a code |
| IntellijService.ConvertPosition | crates/intellij_service/src/lib.rs:238-243 | negative line or character becomes 0, the others are kept |
| IntellijService.ConvertPositionMonotone | crates/intellij_service/src/lib.rs:238-243 | clamping keeps the order of lines |
| IntellijService.ConvertDiagnostic | crates/intellij_service/src/lib.rs:203-216 | range converted, severity mapped, code, source and message kept |
| IntellijService.ConvertDiagnostics | crates/intellij_service/src/lib.rs:185-201 | ids, version and full flag carried over with the document's URI, each diagnostic converted in order |
| IntellijService.ConvertAllAppend | crates/intellij_service/src/lib.rs:185-201 | converting a batch is converting its parts, so diagnostics are never reordered |
| IntellijService.ConvertCompletionItem | crates/intellij_service/src/lib.rs:258-267 | texts kept; the kind is set exactly when known, and maps back to the item's kind |
| IntellijService.ConvertCompletionResponse | crates/intellij_service/src/lib.rs:245-256 | always a list, with the incomplete flag kept and each item converted in order |
| IntellijService.Skipped | crates/intellij_service/src/lib.rs:158-178 | the diagnostics notifications for unknown documents before the first reportable one are skipped, and no more |
| IntellijService.PollPastDropped | crates/intellij_service/src/lib.rs:158-178 | dropping one notification does not change what a poll reports |
| IntellijService.ReportedDiagnosticsAreTracked | crates/intellij_service/src/lib.rs:158-178 | a reported diagnostics update belongs to an open document and carries the URI it was opened with |
| IntellijService.IntellijBackend.constructor | crates/intellij_service/src/lib.rs:47-70 | no documents, no calls, no pending notifications |
| IntellijService.IntellijBackend.OpenDocument | crates/intellij_service/src/lib.rs:90-110 | a bad URI fails before any call; a failed request records nothing; otherwise the document is recorded with its URI and the reply's diagnostics are converted |
| IntellijService.IntellijBackend.ChangeDocument | crates/intellij_service/src/lib.rs:112-127 | an unknown document fails before any call; otherwise the reply's diagnostics carry the URI recorded at open |
| IntellijService.IntellijBackend.CloseDocument | crates/intellij_service/src/lib.rs:129-133 | the document is forgotten whatever the bridge replies, and the reply is returned |
| IntellijService.IntellijBackend.RequestCompletion | crates/intellij_service/src/lib.rs:135-146 | the request is sent; an error passes through, a reply is converted |
| IntellijService.IntellijBackend.PollNotification | crates/intellij_service/src/lib.rs:158-178 | the first notification worth reporting, the rest staying queued |
| MacEvents.FunctionKeyName | crates/gpui/src/platform/mac/events.rs:124-127 | a name "f" followed by the number |
| MacEvents.FunctionKeyNumber | crates/gpui/src/platform/mac/events.rs:124-127 | a number in 1..35 exactly when the name is that function key's name |
| MacEvents.FunctionKeyNameRoundTrip | crates/gpui/src/platform/mac/events.rs:124-127 | function-key names read back as the number they were written from |
| MacEvents.NativeCode | crates/gpui/src/platform/mac/events.rs:78-131 | every named key's code is space, backspace, escape or a function-key character |
| MacEvents.KeyToNative | crates/gpui/src/platform/mac/events.rs:78-131 | a named key becomes the one character of its code; any other string is returned unchanged |
| MacEvents.ParsedKeyName | crates/gpui/src/platform/mac/events.rs:350-413 | only space, tab and the two enter codes type their own character |
| MacEvents.KeyNameRoundTrip | crates/gpui/src/platform/mac/events.rs:78-131 | every key `key_to_native` names is read back by the keystroke parser as the same key |
| MacEvents.ParsedNameIsNative | crates/gpui/src/platform/mac/events.rs:350-413 | every key the parser names, except tab and enter, has the code it was parsed from in the native table |
| MacEvents.AsciiUppercase | crates/gpui/src/platform/mac/events.rs:445-446 | ASCII letters are uppercased, everything else kept |
| MacEvents.UppercaseChangesLowercase | crates/gpui/src/platform/mac/events.rs:445-446 | an ASCII-lowercase string changes under uppercasing exactly when it is not empty |
| MacEvents.CommandLayoutChars | crates/gpui/src/platform/mac/events.rs:427-450 | with Command held or a non-ASCII layout the Command layout's characters stand in; the shifted ones are Command-Shift's when they differ, else Command's uppercased |
| MacEvents.TypingMask | crates/gpui/src/platform/mac/events.rs:452-461 | the typing mask has Shift and Option set exactly as held |
| MacEvents.FirstCode | crates/gpui/src/platform/mac/events.rs:339 | a code exactly for a non-empty string, truncated to 16 bits |
| MacEvents.KeystrokeModifiers | crates/gpui/src/platform/mac/events.rs:344-349 | Control, Option and Command pass through; Function survives only when the key is not itself a function-key character |
| MacEvents.KeystrokeNamed | crates/gpui/src/platform/mac/events.rs:350-413 | a named first character gives that key with its own text and Shift as held |
| MacEvents.KeystrokeShift | crates/gpui/src/platform/mac/events.rs:462-474 | Shift is kept only beside an all-lowercase ASCII key, else cleared and the shifted characters used; text is typed exactly without Control, Command or Function |
| MacEvents.KeystrokeRoundTrip | crates/gpui/src/platform/mac/events.rs:78-131 | a key equivalent written by `key_to_native` parses back to its name, whatever the layout and modifiers |
| MacEvents.ParseKeystroke | crates/gpui/src/platform/mac/events.rs:332-489 | the step-by-step parser builds `KeystrokeOf` the event |
| MacEvents.MouseButtonFrom | crates/gpui/src/platform/mac/events.rs:175-182 | a tracked button exactly for button numbers 0 to 4 |
| MacEvents.MouseButtonRoundTrip | crates/gpui/src/platform/mac/events.rs:175-182 | button numbers and tracked buttons correspond one to one |
| MacEvents.ScrollPhase | crates/gpui/src/platform/mac/events.rs:257-263 | Started exactly when the scroll may begin or has begun, Ended exactly when it ended otherwise |
| MacEvents.SwipeDirection | crates/gpui/src/platform/mac/events.rs:228-233 | a navigation exactly for an ended swipe that moved: rightwards back, leftwards forward |
| MacEvents.FromNative | crates/gpui/src/platform/mac/events.rs:145-330 | types outside AppKit's enumeration give nothing; flags, keys, buttons, drags, swipes, scrolls, moves and exits give their events, those needing a window only with its height, and untracked buttons nothing |
| MacWindow.LastNonCancel | crates/gpui/src/platform/mac/window.rs:1164-1168 | the index found is the last answer before the bound that does not cancel, and every answer after it cancels; none only when all cancel |
| MacWindow.FocusedAnswer | crates/gpui/src/platform/mac/window.rs:1164-1169 | the answer moved last is a non-cancelling answer after the first and every later answer cancels; none only when every answer after the first cancels |
| MacWindow.IndicesExceptListsOthers | crates/gpui/src/platform/mac/window.rs:1190-1193 | the enumerated answers kept by the filter are every index but the moved one, each once, in increasing order |
| MacWindow.PromptOrder | crates/gpui/src/platform/mac/window.rs:1190-1210 | every index in the order of buttons is an answer's index |
| MacWindow.PromptOrderCoversAnswers | crates/gpui/src/platform/mac/window.rs:1146-1210 | every answer gets exactly one button; the other answers keep their order; when a non-cancelling answer follows the first, it is the last button added, the one macOS focuses |
| MacWindow.IndicesExceptLength | crates/gpui/src/platform/mac/window.rs:1190-1193 | the filter drops exactly one index when the moved answer exists, none otherwise |
| MacWindow.AddAlertButtons | crates/gpui/src/platform/mac/window.rs:1190-1210 | the buttons added carry, in the order above, each answer's title and index as tag, with Escape bound to the cancelling ones |
| MacWindow.TabbingPreference | crates/gpui/src/platform/mac/window.rs:923-943 | "manual" and only it means never, "always" and only it means always; anything else, absent or not a string, means in full screen |
| MacWindow.TabbingAction | crates/gpui/src/platform/mac/window.rs:820-850 | a new window becomes a tab exactly when tabbing is allowed, another main window exists, the preference asks for it and the main window can tab and is visible; it is ordered front only when added as a tab |
| MacWindow.TabbingFromDefault | crates/gpui/src/platform/mac/window.rs:820-850 | in terms of the stored default: a tab is added exactly when it reads "always", or it is not "manual" and the main window is full screen |
| MacWindow.CtrlClickRemapped | crates/gpui/src/platform/mac/window.rs:1845-1899 | a left press or release with Control held becomes a right one with Control cleared and a click count of one; every other event is left alone |
| MacWindow.RemapLeavesNoControlLeft | crates/gpui/src/platform/mac/window.rs:1845-1899 | after remapping no left press or release holds Control, and remapping twice equals remapping once |
| MacWindow.MacWindowState.constructor | crates/gpui/src/platform/mac/window.rs:677-689 | a new window has no key equivalent recorded, a zero drag counter, no modifiers event, no external drag, no first mouse and no callback |
| MacWindow.MacWindowState.SetEventCallback | crates/gpui/src/platform/mac/window.rs:1427-1429 | an event callback is installed |
| MacWindow.MacWindowState.HandleKeyEvent | crates/gpui/src/platform/mac/window.rs:1717-1752 | a key-equivalent key-down is recorded and dispatched; a plain key-down clears the record and is dropped exactly when it repeats the recorded one; other events leave the record alone |
| MacWindow.MacWindowState.AcceptsFirstMouse | crates/gpui/src/platform/mac/window.rs:2420-2425 | the next left click is marked as the focusing click and the window accepts it |
| MacWindow.MacWindowState.HandleViewEvent | crates/gpui/src/platform/mac/window.rs:1835-1963 | on the remapped event: a move with a button pressed starts a synthetic drag with a fresh id unless files are being dragged in; a release bumps the drag counter; a focusing left press is marked first-mouse once; a repeated modifiers event is dropped; otherwise the callback receives the event |
| MacWindow.MacWindowState.SyntheticDragTick | crates/gpui/src/platform/mac/window.rs:2534-2553 | a synthetic drag replays its event exactly while the drag counter still equals its id |
| MacWindow.MacWindowState.DraggingEntered | crates/gpui/src/platform/mac/window.rs:2453-2464 | an entered file-drop event is delivered exactly when paths exist and a callback takes it, and then the external-drag flag is set |
| MacWindow.MacWindowState.DraggingExited | crates/gpui/src/platform/mac/window.rs:2480-2487 | an exited event goes to the callback when there is one, and the external-drag flag is cleared |
| MacPlatform.ScalarWidth | crates/gpui/src/platform/mac/platform.rs:1307 | a well-formed scalar at the head of the bytes is at most four bytes long and lies within them |
| MacPlatform.Utf8Concat | crates/gpui/src/platform/mac/platform.rs:1307 | two well-formed UTF-8 strings put together are well-formed |
| MacPlatform.InvalidWidth | crates/gpui/src/platform/mac/platform.rs:1307 | the maximal ill-formed part at the head of bytes that do not start with a scalar is at least one byte and within the input, so lossy decoding always advances |
| MacPlatform.LossyIsUtf8 | crates/gpui/src/platform/mac/platform.rs:1307 | lossy decoding of any bytes gives well-formed UTF-8, as a Rust `String` requires |
| MacPlatform.LossyKeepsUtf8 | crates/gpui/src/platform/mac/platform.rs:1307 | lossy decoding leaves well-formed UTF-8 exactly as it is |
| MacPlatform.BeBytes | crates/gpui/src/platform/mac/platform.rs:1310-1311 | the big-endian encoding has exactly the requested number of bytes |
| MacPlatform.BeRoundTrip | crates/gpui/src/platform/mac/platform.rs:1310-1311 | a number that fits in `n` bytes is read back from its big-endian bytes |
| MacPlatform.BeValueRoundTrip | crates/gpui/src/platform/mac/platform.rs:1310-1311 | bytes read as a big-endian number fit in their width and are written back unchanged |
| MacPlatform.EveryFormatListed | crates/gpui/src/platform/mac/platform.rs:1183-1188 | every image format is among those the clipboard reader tries |
| MacPlatform.TypeOfName | crates/gpui/src/platform/mac/platform.rs:1660-1707 | a pasteboard name is recognised only as the type that bears that name |
| MacPlatform.TypeNameRoundTrip | crates/gpui/src/platform/mac/platform.rs:1660-1707 | every pasteboard type, including the "zed-text-hash" and "zed-metadata" types, has a name of its own that maps back to it |
| MacPlatform.ReadString | crates/gpui/src/platform/mac/platform.rs:1302-1325 | metadata is returned exactly when the stored hash is the eight big-endian bytes of the decoded text's hash and the stored metadata is there and is UTF-8 |
| MacPlatform.HashBytes | crates/gpui/src/platform/mac/platform.rs:1310-1311 | eight stored bytes convert to a hash exactly when they are that hash's big-endian bytes |
| MacPlatform.ReadImage | crates/gpui/src/platform/mac/platform.rs:1376-1399 | no image exactly when the pasteboard holds none of the formats; otherwise an image of a listed format held on the pasteboard, with its bytes and their hash as id |
| MacPlatform.Clipboard.constructor | crates/gpui/src/platform/mac/platform.rs:204-206 | a new pasteboard is empty |
| MacPlatform.Clipboard.WritePlaintext | crates/gpui/src/platform/mac/platform.rs:1328-1359 | the pasteboard holds exactly the text, plus its hash and metadata when metadata is given |
| MacPlatform.Clipboard.WriteImage | crates/gpui/src/platform/mac/platform.rs:1361-1374 | the pasteboard holds exactly the image bytes under its format's type |
| MacPlatform.Clipboard.WriteToClipboard | crates/gpui/src/platform/mac/platform.rs:1064-1155 | the pasteboard holds what writing the item leaves: nothing, one string or image, or the joined text of several entries |
| MacPlatform.Clipboard.ReadFromClipboard | crates/gpui/src/platform/mac/platform.rs:1157-1191 | the item read is the pasteboard's string first, else its first image, else nothing |
| MacPlatform.EmptyReadsNothing | crates/gpui/src/platform/mac/platform.rs:1716-1718 | an empty item clears the pasteboard and an empty pasteboard reads as nothing |
| MacPlatform.StringRoundTrip | crates/gpui/src/platform/mac/platform.rs:1720-1730 | a string written alone, with or without metadata, reads back unchanged |
| MacPlatform.ImageRoundTrip | crates/gpui/src/platform/mac/platform.rs:1361-1399 | an image written alone reads back with its bytes and format, under its content hash |
| MacPlatform.SeveralEntriesReadAsText | crates/gpui/src/platform/mac/platform.rs:1064-1120 | several entries read back as one string of their joined text, without metadata |
| MacPlatform.ReplacedTextDropsMetadata | crates/gpui/src/platform/mac/platform.rs:1732-1748 | text another application puts on the pasteboard reads back as itself, with the old metadata only when its hash equals the old text's hash |
| MacPlatform.MenuSelector | crates/gpui/src/platform/mac/platform.rs:344-352 | cut, copy, paste and select-all, and only they, get AppKit's standard selectors, each the one for its own action; undo, redo and the rest go through the GPUI handler |
| MacPlatform.MenuKeyEquivalent | crates/gpui/src/platform/mac/platform.rs:354-404 | a key equivalent exists exactly for a binding of one keystroke; its key is the keystroke's native character and its mask carries the keystroke's command, control, option and shift modifiers |
| MacPlatform.ItemTagsNumbered | crates/gpui/src/platform/mac/platform.rs:314-454 | a built item has one tag per action it registers, numbered one by one from the count registered before it |
| MacPlatform.ListTagsNumbered | crates/gpui/src/platform/mac/platform.rs:249-293 | the items of a menu have one tag per action they register, numbered one by one from the count registered before them |
| MacPlatform.TagsFindTheirActions | crates/gpui/src/platform/mac/platform.rs:406-408 | every tag of a built item indexes its own action in the registered actions |
| MacPlatform.MenuActionFor | crates/gpui/src/platform/mac/platform.rs:1518-1558 | a tag selects an action exactly when it indexes the registered actions, and it selects the action at that index |
| MacPlatform.MenuState.constructor | crates/gpui/src/platform/mac/platform.rs:180-215 | a new platform has no menu actions, no menu callbacks and no menus |
| MacPlatform.MenuState.CreateMenuItem | crates/gpui/src/platform/mac/platform.rs:314-454 | the item's actions are appended to the registered ones and the native item is the one built from the previous count; nothing else changes |
| MacPlatform.MenuState.CreateMenuItems | crates/gpui/src/platform/mac/platform.rs:249-293 | a menu's items are built in order, their actions appended in the same order; nothing else changes |
| MacPlatform.MenuState.CreateTopLevelItem | crates/gpui/src/platform/mac/platform.rs:249-293 | a top-level item is a submenu titled with the menu's name over its built items |
| MacPlatform.MenuState.SetMenus | crates/gpui/src/platform/mac/platform.rs:948-964 | the menu actions become the old ones followed by every menu's actions in order; the bar is one submenu per menu holding its items tagged from the running count; the windows menu is the last menu named "Window", and exists exactly when one is; the menus are kept |
| MacPlatform.MenuState.CreateMenuBar | crates/gpui/src/platform/mac/platform.rs:249-294 | the bar and the appended actions are those of all the menus in order, and the windows menu is the last one named "Window" |
| MacPlatform.MenuState.AppendTopLevelItem | crates/gpui/src/platform/mac/platform.rs:267-291 | one pass of the loop adds the next menu's submenu to the bar and its actions to the registered ones |
| MacPlatform.MenuBarAt | crates/gpui/src/platform/mac/platform.rs:267-291 | the submenu at index i holds menu i's items, tagged after the actions of the menus before it |
| MacPlatform.WindowMenuIsLast | crates/gpui/src/platform/mac/platform.rs:289-291 | the windows menu is the last menu named "Window", and there is one exactly when some menu has that name |
| MacPlatform.MenuBarTagsFindActions | crates/gpui/src/platform/mac/platform.rs:1518-1534 | after `set_menus`, every tag in a submenu of the bar indexes that menu's own action in the registered actions |
| MacPlatform.MenuState.SetDockMenu | crates/gpui/src/platform/mac/platform.rs:971-977 | the dock menu is built from the items, registering their actions after the existing ones |
| MacPlatform.MenuState.HandleMenuItem | crates/gpui/src/platform/mac/platform.rs:1518-1534 | an action is dispatched exactly when a menu callback is registered and the tag indexes the actions, and it is the action at that index |
| MacPlatform.MenuState.ValidateMenuItem | crates/gpui/src/platform/mac/platform.rs:1536-1558 | an item is enabled exactly when the validation callback is registered, the tag indexes an action and the callback accepts it |
| MacPlatform.Split | crates/gpui/src/platform/mac/platform.rs:831-834 | splitting on dots yields at least one part and no part holds a dot |
| MacPlatform.JoinSplit | crates/gpui/src/platform/mac/platform.rs:831-834 | the parts joined with dots give the name back |
| MacPlatform.SplitJoin | crates/gpui/src/platform/mac/platform.rs:831-834 | dot-free parts joined with dots split back into the same parts |
| MacPlatform.SequoiaFilename | crates/gpui/src/platform/mac/platform.rs:836-852 | the name changes exactly when it has three parts whose middle begins with the last and macOS is 15 or later; then only the last part and its dot are dropped |
| MacPlatform.SequoiaFilenameIdempotent | crates/gpui/src/platform/mac/platform.rs:836-852 | repairing a repaired name changes nothing |
| SwiftWindow.BitsOf | crates/gpui/src/platform/mac/gpui_macos_ffi.h:95-102 | the mask Swift sends for a set of modifiers never has the Caps Lock bit |
| SwiftWindow.ModifiersRoundTrip | crates/gpui/src/platform/mac/swift_window.rs:182-190 | decoding the mask Swift sends for a set of modifiers gives the same modifiers back |
| SwiftWindow.ModifierBitsRoundTrip | crates/gpui/src/platform/mac/swift_window.rs:182-190 | decoding reads only the five modifier bits: re-encoding gives the mask with every other bit cleared |
| SwiftWindow.CapsLockIsNoModifier | crates/gpui/src/platform/mac/swift_window.rs:182-190 | the Caps Lock bit changes none of the decoded modifiers |
| SwiftWindow.MouseButtonFrom | crates/gpui/src/platform/mac/swift_window.rs:192-198 | a reported button is left, right or middle, never a navigation button |
| SwiftWindow.MouseButtonFromInjective | crates/gpui/src/platform/mac/swift_window.rs:192-198 | distinct Swift buttons become distinct GPUI buttons |
| SwiftWindow.MouseInput | crates/gpui/src/platform/mac/swift_window.rs:141-159 | each mouse event type becomes its own input: a press or release of its button with its click count, a move without a pressed button for both moves and drags, a scroll by lines; every input keeps the position and the decoded modifiers |
| SwiftWindow.KeyInput | crates/gpui/src/platform/mac/swift_window.rs:161-179 | each key phase becomes its own input: a key-down held exactly when it repeats, a key-up, or a modifiers change reporting Caps Lock from its own bit |
| SwiftWindow.FileDropInput | crates/gpui/src/platform/mac/swift_window.rs:281-303 | phases 0 to 3, and only they, become file-drop inputs: entered with the paths (none when absent), pending, exited and submitted at the given point |
| SwiftWindow.FileDropRoundTrip | crates/gpui/src/platform/mac/swift_window.rs:281-303 | every file-drop event comes back unchanged from the phase, point and paths Swift sends for it |
| SwiftWindow.CastToI32 | crates/gpui/src/platform/mac/swift_window.rs:122-139 | the cast rounds toward zero within the range of i32 and saturates at its ends; non-negative values stay non-negative |
| SwiftWindow.DrawableSize | crates/gpui/src/platform/mac/swift_window.rs:122-139 | a window at a non-negative scale has a non-negative drawable size in device pixels |
| SwiftWindow.RangeOf | crates/gpui/src/platform/mac/swift_window.rs:221-258 | the range Swift means starts at the location and spans the length |
| SwiftWindow.SelectedRangeReport | crates/gpui/src/platform/mac/swift_window.rs:201-209 | a report exists exactly when there is a selection; it carries the selection's start, length and direction |
| SwiftWindow.RangeRoundTrip | crates/gpui/src/platform/mac/swift_window.rs:201-219 | a forward range within 32 bits is recovered from its reported start and length |
| SwiftWindow.RangeReportWraps | crates/gpui/src/platform/mac/swift_window.rs:206 | beyond 32 bits the report wraps: a range starting at 2^32 is reported as starting at 0 |
| SwiftWindow.Live | crates/gpui/src/platform/mac/swift_window.rs:111-120 | a handle names a window exactly when it is registered and still alive |
| SwiftWindow.ShouldClose | crates/gpui/src/platform/mac/swift_window.rs:335-345 | a window refuses to close only when it is live, has a should-close callback and the callback says no; an unknown handle may close |
| SwiftWindow.Closed | crates/gpui/src/platform/mac/swift_window.rs:347-356 | the close callback runs exactly when the window is live and still has it; afterwards it is gone, and no other window changes |
| SwiftWindow.CloseFiresOnce | crates/gpui/src/platform/mac/swift_window.rs:347-356 | a second close finds no callback to run |
| SwiftWindow.Registry.constructor | crates/gpui/src/platform/mac/swift_window.rs:111-114 | the registry starts empty |
| SwiftWindow.Registry.Register | crates/gpui/src/platform/mac/swift_window.rs:115-119 | the handle now names the window |
| SwiftWindow.Registry.Unregister | crates/gpui/src/platform/mac/swift_window.rs:120 | the handle no longer names any window |
| SwiftWindow.Registry.Deliver | crates/gpui/src/platform/mac/swift_window.rs:141-179 | input reaches a window exactly when it is live and has an event callback |
| SwiftWindow.Registry.HandleMouseEvent | crates/gpui/src/platform/mac/swift_window.rs:141-159 | a live window with an event callback receives the mouse event's input |
| SwiftWindow.Registry.HandleKeyEvent | crates/gpui/src/platform/mac/swift_window.rs:161-179 | a live window with an event callback receives the key event's input |
| SwiftWindow.Registry.HandleFileDropEvent | crates/gpui/src/platform/mac/swift_window.rs:281-303 | a live window with an event callback receives the file drop of a known phase; unknown phases are dropped |
| SwiftWindow.Registry.HandleShouldClose | crates/gpui/src/platform/mac/swift_window.rs:335-345 | the answer is the window's should-close decision |
| SwiftWindow.Registry.HandleWindowClosed | crates/gpui/src/platform/mac/swift_window.rs:347-356 | the registry and whether the callback ran are those of closing the window |
| SwiftWindow.Registry.ImeSelectedRange | crates/gpui/src/platform/mac/swift_window.rs:201-209 | a range is reported only for a live window with an input handler, and it is that handler's selection reported as start, length and direction |
| SwiftWindow.Registry.ImeMarkedRange | crates/gpui/src/platform/mac/swift_window.rs:211-219 | a range is reported exactly when a live window's input handler has marked text, as its start and length |
| YogaEngine.LiveHandlesMembers | crates/gpui/src/yoga/engine.rs:101-116 | the handles passed to Yoga for a child list are exactly the nodes of the listed ids that have one |
| YogaEngine.MirrorRanked | crates/gpui/src/yoga/engine.rs:101-116 | while the engine's child lists mirror Yoga's, the engine's tree is acyclic, ranked by its nodes' ranks in Yoga |
| YogaEngine.KnownDimension | crates/gpui/src/yoga/engine.rs:452-458 | a known size exists exactly for an Exactly input, and scaled back it is the input's device-pixel value |
| YogaEngine.AvailableSpaceOf | crates/gpui/src/yoga/engine.rs:460-466 | an Undefined input, and only it, is max-content; no input is min-content; a definite size scaled back is the input's value |
| YogaEngine.EngineMeasure | crates/gpui/src/yoga/engine.rs:167-210 | without a measure context or without a function for the id the callback yields (0, 0); otherwise it runs the id's function on the unscaled inputs and scales its result up |
| YogaEngine.NoContextMeasuresNothing | crates/gpui/src/yoga/engine.rs:167-175 | a callback Yoga runs outside compute_layout yields (0, 0) whatever functions are registered |
| YogaEngine.KnownDimensionRoundTrip | crates/gpui/src/yoga/engine.rs:452-466 | an Exactly input is a known size that scales back to the input; an AtMost input is unknown but a definite available size |
| YogaEngine.WindowBounds | crates/gpui/src/yoga/engine.rs:131-154 | scaled by the factor, the bounds sit at the parent's origin plus Yoga's offset and have Yoga's size |
| YogaEngine.ChildrenRankBelow | crates/gpui/src/yoga/engine.rs:122-165 | every known child of a known id ranks below it, so extraction terminates |
| YogaEngine.Extracted | crates/gpui/src/yoga/engine.rs:122-165 | extraction writes bounds for the id itself and only for known ids |
| YogaEngine.ExtractedList | crates/gpui/src/yoga/engine.rs:158-164 | extracting a child list writes bounds only for known ids |
| YogaEngine.ExtractedListStep | crates/gpui/src/yoga/engine.rs:158-164 | each further child adds its own subtree's bounds, which win over earlier ones; an unknown child adds nothing |
| YogaEngine.ExtractedRanked | crates/gpui/src/yoga/engine.rs:122-165 | extraction writes only ids ranked no higher than the id it starts from |
| YogaEngine.ExtractedRoot | crates/gpui/src/yoga/engine.rs:122-165 | no write below a node overwrites the node's own bounds |
| YogaEngine.ExtractedListPick | crates/gpui/src/yoga/engine.rs:158-164 | an id written below one child keeps that child's bounds unless a later sibling's subtree writes it again |
| YogaEngine.ExtractedChildOrigin | crates/gpui/src/yoga/engine.rs:122-165 | a child's window origin is its parent's origin plus the child's Yoga offset divided by the scale factor, unless a later sibling overwrites it |
| YogaEngine.YogaAvailableAsWritten | crates/gpui/src/yoga/engine.rs:351-380 | as written, a definite available size is handed to Yoga with its logical-pixel value unscaled; min- and max-content keep their kind |
| YogaEngine.YogaAvailable | crates/gpui/src/yoga/engine.rs:351-380 | a definite available size is handed to Yoga in device pixels; min- and max-content as written |
| YogaEngine.AvailableRoundTrip | crates/gpui/src/yoga/engine.rs:351-406 | with the scaled conversion, a root filling a definite available size comes back from extraction with exactly that logical size; other sizes reach Yoga as undefined |
| YogaEngine.AvailableAsWrittenScalesDown | crates/gpui/src/yoga/engine.rs:351-406 | as written, a root filling a definite available size comes back divided by the scale factor, so at any factor other than 1 it does not fill the window |
| YogaEngine.LastOverride | crates/gpui/src/yoga/engine.rs:424-435 | the position found is the last override addressing the id; none only when no override addresses it |
| YogaEngine.LastOverrideWins | crates/gpui/src/yoga/engine.rs:424-435 | after a batch, an id's external bounds are those of its last override and its style is that override's style, or none; ids no override addresses keep theirs |
| YogaEngine.ExternalMergeInvisible | crates/gpui/src/yoga/engine.rs:402-418 | copying external bounds into the computed ones at the end of compute_layout changes no id's resolved bounds |
| YogaEngine.OverridesResolve | crates/gpui/src/yoga/engine.rs:410-435 | after a batch, an id's resolved bounds are those of its last override; other ids resolve as before |
| YogaEngine.ListedIds | crates/gpui/src/yoga/engine.rs:281-284 | the set holds exactly the ids that some child list names |
| YogaEngine.RootUnlisted | crates/gpui/src/yoga/engine.rs:285-291 | while the engine agrees with Yoga, the node of an id no list names is no node's child, so clear frees it as a root |
| YogaEngine.ListedHasParent | crates/gpui/src/yoga/engine.rs:285-291 | while the engine agrees with Yoga, the node of a listed id is some node's child, freed with its parent |
| YogaEngine.AllRootsFreed | crates/gpui/src/yoga/engine.rs:285-291 | once every root's subtree is freed, no node the engine knew is left |
| YogaEngine.AllCallbacksReleased | crates/gpui/src/yoga/engine.rs:285-295 | freeing every node releases every context and drops every registered callback |
| YogaEngine.YogaLayoutEngine.constructor | crates/gpui/src/yoga/engine.rs:67-78 | a new engine over an empty Yoga store is sound, has ids starting at 1 and every table empty |
| YogaEngine.YogaLayoutEngine.NextLayoutId | crates/gpui/src/yoga/engine.rs:80-84 | the id handed out is the counter, which then advances by one |
| YogaEngine.YogaLayoutEngine.CreateStyledNode | crates/gpui/src/yoga/engine.rs:93-94 | a fresh childless Yoga node is created; nothing is freed or faulted |
| YogaEngine.YogaLayoutEngine.AllocateNode | crates/gpui/src/yoga/engine.rs:86-99 | the next id is recorded with a fresh Yoga node and an empty child list; a sound engine stays sound |
| YogaEngine.YogaLayoutEngine.ChildHandles | crates/gpui/src/yoga/engine.rs:104-112 | the handles are found exactly when every child id is known, and they are those ids' nodes in order |
| YogaEngine.YogaLayoutEngine.ApplyChildren | crates/gpui/src/yoga/engine.rs:101-116 | false, changing nothing, when the parent or any child is unknown; otherwise the children are recorded and, in a sound engine keeping Yoga's tree a tree, the parent's Yoga children are their nodes |
| YogaEngine.YogaLayoutEngine.FreshLeafKeepsTree | crates/gpui/src/yoga/engine.rs:312-322 | a fresh node that no list names can take any children without closing a cycle |
| YogaEngine.YogaLayoutEngine.RequestLayout | crates/gpui/src/yoga/engine.rs:312-322 | a fresh id with the converted style; its children are recorded when all are known, else it stays a leaf; a sound engine stays sound with the node's Yoga children mirroring its list |
| YogaEngine.YogaLayoutEngine.RequestMeasuredLayout | crates/gpui/src/yoga/engine.rs:324-335 | a fresh childless id whose measure function is recorded with a fresh measure handle; a sound engine stays sound |
| YogaEngine.YogaLayoutEngine.CreateExternalNode | crates/gpui/src/yoga/engine.rs:213-221 | a fresh childless id with the converted style; a sound engine stays sound |
| YogaEngine.YogaLayoutEngine.KnownIsLive | crates/gpui/src/yoga/engine.rs:224-238 | a known id's node is live in Yoga while the engine is sound |
| YogaEngine.YogaLayoutEngine.SetNodeStyle | crates/gpui/src/yoga/engine.rs:224-238 | false for an unknown id, changing nothing; otherwise the node holds the converted style applied to its old one and is marked dirty |
| YogaEngine.YogaLayoutEngine.SetNodeChildren | crates/gpui/src/yoga/engine.rs:241-249 | as apply_children, and on success the parent is marked dirty; on failure nothing changes |
| YogaEngine.YogaLayoutEngine.ReleaseMeasure | crates/gpui/src/yoga/engine.rs:261-265 | the id's handle and function are removed; a previous handle's callback leaves the registry and is dropped twice, once with the handle and once by clear_measure |
| YogaEngine.YogaLayoutEngine.InstallMeasure | crates/gpui/src/yoga/engine.rs:267-272 | the function is recorded and a fresh measure id, registered with the callback built for the id, becomes its handle |
| YogaEngine.YogaLayoutEngine.SetNodeMeasure | crates/gpui/src/yoga/engine.rs:252-276 | false for an unknown id; otherwise the old handle and function go, and a given function is installed under a fresh handle; the handle and function tables keep the same ids and a sound engine stays sound |
| YogaEngine.YogaLayoutEngine.ExtractBoundsRecursive | crates/gpui/src/yoga/engine.rs:122-165 | an unknown id writes nothing; otherwise the bounds written are exactly those of the extraction function |
| YogaEngine.YogaLayoutEngine.OverlayExternalBounds | crates/gpui/src/yoga/engine.rs:402-405 | every external bound is copied over the computed ones |
| YogaEngine.YogaLayoutEngine.RunYoga | crates/gpui/src/yoga/engine.rs:382-397 | the measure context holds the scale factor while Yoga lays out the node's subtree and is cleared afterwards |
| YogaEngine.YogaLayoutEngine.CollectBounds | crates/gpui/src/yoga/engine.rs:399-400 | the computed bounds are exactly the extraction of the id from the origin |
| YogaEngine.YogaLayoutEngine.ComputeLayoutAsWritten | crates/gpui/src/yoga/engine.rs:337-406 | an unknown id changes nothing; otherwise Yoga lays out the subtree under the unscaled available size, the context is cleared, and the computed bounds are the extraction overlaid with the external bounds |
| YogaEngine.YogaLayoutEngine.ComputeLayout | crates/gpui/src/yoga/engine.rs:337-406 | as above, with the available size handed to Yoga in device pixels |
| YogaEngine.YogaLayoutEngine.LayoutBounds | crates/gpui/src/yoga/engine.rs:410-418 | an id's bounds are its external override, else its computed bounds, else zero bounds |
| YogaEngine.YogaLayoutEngine.SetExternalBounds | crates/gpui/src/yoga/engine.rs:420-422 | the id's external bounds are replaced, and the id then reads exactly those bounds |
| YogaEngine.YogaLayoutEngine.ApplyExternalOverrides | crates/gpui/src/yoga/engine.rs:424-435 | the external bounds and styles are those of applying the overrides in order |
| YogaEngine.YogaLayoutEngine.RemoveNodeAsWritten | crates/gpui/src/yoga/engine.rs:300-310 | as written: the id is forgotten in every table, but Yoga frees the node's whole subtree, so in a sound engine every known child of it is left known with a freed node |
| YogaEngine.YogaLayoutEngine.RemovedChildrenReached | crates/gpui/src/yoga/engine.rs:300-310 | every known child of a known id is another id whose node lies in the subtree Yoga frees with it |
| YogaEngine.YogaLayoutEngine.ForgetId | crates/gpui/src/yoga/engine.rs:302-308 | the id is removed from every table and nothing else changes |
| YogaEngine.YogaLayoutEngine.RemoveNode | crates/gpui/src/yoga/engine.rs:300-310 | the id is forgotten in every table and only its own node is freed, detached from its children; an engine that agreed with Yoga still does |
| YogaEngine.YogaLayoutEngine.CollectChildIds | crates/gpui/src/yoga/engine.rs:281-284 | the ids collected are exactly those named by some child list |
| YogaEngine.YogaLayoutEngine.FreeRoots | crates/gpui/src/yoga/engine.rs:285-291 | in a sound engine, freeing every unlisted id's node empties the Yoga store, frees every node once and drops every context and callback |
| YogaEngine.YogaLayoutEngine.DropHandles | crates/gpui/src/yoga/engine.rs:293 | every measure handle is dropped, and its callback leaves the registry |
| YogaEngine.YogaLayoutEngine.Clear | crates/gpui/src/yoga/engine.rs:280-298 | every table is emptied and ids restart at 1; a sound engine stays sound with every Yoga node freed and no callback left |

## Left out

- The Yoga and Taffy layout solvers themselves are parameters: a function from the node tree and available space to computed layouts. What the engines do around the solver (style conversion, child lists, measure callbacks, extraction, overrides) is modelled.
- `f32` arithmetic is read as exact `real` arithmetic: rounding is not modelled, and NaN (Yoga's undefined) is a separate value rather than a float.
- 64-bit and `usize` counters (layout ids, node ids, versions, tags) do not wrap; wrap-around is modelled only where the source casts explicitly (geometry versions, the Swift window's `u32` and `i32` casts).
- Yoga handles are never reused once freed; layout ids restart at 1 after `clear`, as in the source, so an id handed out before a clear can name a new node afterwards; the allocator's reuse of addresses is not modelled.
- YogaBridge.NodeStore.FreeNode: frees every node reachable from the handle, whereas `YGNodeFreeRecursive` frees only the children the node owns; a child listed under two parents is freed here with the first, not left to its owner.
- Taffy.TaffyLayoutEngine.RequestLayout: requires the children to be known and parentless; the source panics on an unknown child, and for a child that already has a parent it re-parents without detaching it from the earlier parent's list, which the model does not capture.
- Environment methods require the global to be installed; the source panics when it is missing.
- Environment.Environment.OnLocaleChanged: returns nothing where the source returns a `Subscription`; dropping that subscription removes the observer, and the model never removes one.
- Environment.Environment.OnWindowMetricsChanged: likewise returns no `Subscription`, so a metrics observer is never removed.
- Taffy.TaffyLayoutEngine.ComputeLayout: requires the id to be a known node; the source panics through `expect` on an unknown id, and that panic path is not modelled.
- Taffy.TaffyLayoutEngine.LayoutBounds: requires the id to be a known node; the source returns cached bounds for any id that has them and panics through `expect` on an unknown id without them, and neither case for an unknown id is modelled.
- Mac.ToRange: the end `location + length` is the exact sum; the `usize` overflow of that sum (a panic in debug builds, a wrap in release builds) is not modelled.
- SwiftWindow.RangeOf: requires `loc + len` to fit in `usize`; the overflow of `loc + len` in the IME range forwarding is excluded rather than modelled.
- The window and application pointers stored in the Yoga measure context are not modelled; a measure callback is named by an integer and run as a parameter.
- Concurrency is not modelled: locks, channels, executor spawns and main-thread dispatch become sequential calls on one object.
- AppKit, Metal and the Swift runtime are not modelled: window creation, texture creation and pixel upload, drawing of elements and the rendering pass. Only the bookkeeping around them is.
- The keyboard layout (`UCKeyTranslate` and the current input source) is a parameter of keystroke parsing.
- Callbacks are presence flags or integers, and a weak window reference is an alive flag.
- The IME `text_for_range`, `replace_text`, `unmark_text` and bounds forwarding; the active, moved, hover, visibility and appearance callbacks; the resize callback beyond the drawable size; and the timer behind synthetic drags (each tick is an explicit call) are not modelled.
- The window's input context and input handler, and the part of `handle_key_event` after the key-equivalent dedupe, are not modelled.
- JSON decoding of frames, property values and bridge replies is a parser parameter.
- Hash-map iteration order is not modelled: where the source iterates a map, the model states the result as a set or in key order.
- The text hash and image hash of the clipboard are parameters.
- The pasteboard is a map from type to data; a type listed without data is not modelled.
- URI parsing and the IntelliJ bridge client are parameters; each request it would send is an input.
- The terminal library's cell retrieval is abstracted as a `Grid` of cells per viewport row.
- wasmtime and wasmparser are not modelled beyond reading the version custom section from a list of sections.
- The staging of the WIT directory and all file I/O of the build script are not modelled; the rewrite works on file contents.

## Findings

| source | as written | input that shows it | evidently intended | confidence | as-written member | corrected member |
|---|---|---|---|---|---|---|
| crates/gpui/src/yoga/engine.rs:351-380 | the available space is passed to Yoga in logical pixels, while the style is scaled to device pixels and extracted bounds are divided by the scale factor | `Definite(800)` at scale factor 2: Yoga lays out in 800 device pixels, and a root that fills the space is extracted as 400 logical pixels | scale the available space by the scale factor, so that extraction gives back the logical size | not executed | YogaEngine.YogaAvailableAsWritten, YogaEngine.YogaLayoutEngine.ComputeLayoutAsWritten, YogaEngine.AvailableAsWrittenScalesDown | YogaEngine.YogaAvailable, YogaEngine.YogaLayoutEngine.ComputeLayout, YogaEngine.AvailableRoundTrip |
| crates/gpui/src/yoga/engine.rs:300-310 | `remove_node` frees the node's whole Yoga subtree but forgets only the removed id | removing a parent whose child id is still known: the child id keeps a handle to a freed node | free only the removed node, detached from its children, so that every id still known keeps a live node | not executed | YogaEngine.YogaLayoutEngine.RemoveNodeAsWritten | YogaEngine.YogaLayoutEngine.RemoveNode |
| crates/terminal/src/ghostty_backend.rs:119-121 | the last row of a selection reads up to column `c1` with `get_unchecked`, without clamping to the row width | a selection from (0, 0) to (0, 80) in an 80-column viewport reads column 80 | clamp the end column to the last column of the row | not executed | GhosttyBackend.ColumnsAsWritten, GhosttyBackend.ColumnsAsWrittenOverrun | GhosttyBackend.Columns, GhosttyBackend.ColumnsWithinRow |
