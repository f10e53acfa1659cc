# InspectWidgets: the view-tree dump and the bind-result decoder in Dafny

InspectWidgets is an Android app that hosts home-screen widgets and shows their
view hierarchy as a debug overlay. Two pieces of its `MainActivity.kt` hold logic
of their own, and this project models both:

- **`tree(view)`** flattens the hierarchy under a `ViewGroup` into a pre-order
  list of `(label, view)` pairs. Each child yields `"+- "` followed by its class
  name, with every occurrence of `android.widget.` and then of
  `RemoteViewsAdapter$RemoteViews` removed. A child that is itself a group is
  then descended into. The labels of its subtree get one `"|  "` prefix as the
  recursion returns.
- **`RequestWidgetBind.parseResult`** reads the bound widget id back from the
  intent returned by the system's bind screen. It uses `-1` for "no id".

Files:

- `wrappers.dfy` (module `Wrappers`): `Option`, which stands for Kotlin's nullable types.
- `strings.dfy` (module `Strings`): Kotlin's `String.replace` as `ReplaceAll`,
  and the class-name shortening `ShortName`.
- `view_tree.dfy` (module `ViewTree`): views as a rose tree
  `Node = Leaf(cls, id) | Group(cls, id, children)`, and the dump as `Dump`/`Tree`.
  It also holds three independent descriptions of a hierarchy: `Size` (a node
  count), `Preorder` (the pre-order node list) and `Walk` (pre-order with each
  view's depth, computed top-down). Lemmas tie the dump to each of them.
- `widget_bind.dfy` (module `WidgetBind`): intents and their extras bundle,
  `Bundle.getInt`, and `ParseResult`.

The dump builds its bars bottom-up: a subtree's lines are indented after they
are produced. `Walk` assigns depths top-down. The main theorem,
`DumpIsLabelledWalk`, says the two agree. So a view at depth `d` below the
root's children carries `d` bars, then `"+- "`, then its short class name.

## Model

| member | source | states |
|---|---|---|
| Strings.ReplaceAll | app/src/main/java/io/github/ebraminio/inspectwidgets/MainActivity.kt:116-120 | Removing a non-empty pattern, or replacing it by something no longer, never makes a class name longer. |
| Strings.ReplaceAllAbsent | app/src/main/java/io/github/ebraminio/inspectwidgets/MainActivity.kt:116-120 | A non-empty pattern that occurs nowhere in the name leaves it unchanged, whatever the replacement. |
| Strings.RemoveAllShrinks | app/src/main/java/io/github/ebraminio/inspectwidgets/MainActivity.kt:116-120 | Removing a pattern that does occur makes the name strictly shorter. |
| Strings.RemoveAllFixedIff | app/src/main/java/io/github/ebraminio/inspectwidgets/MainActivity.kt:116-120 | Removing a non-empty pattern leaves the name unchanged if and only if the pattern does not occur in it. |
| Strings.ReplaceAllLeading | app/src/main/java/io/github/ebraminio/inspectwidgets/MainActivity.kt:116-117 | A match at the start of the name is replaced, and the scan resumes right after it. |
| Strings.ShortName | app/src/main/java/io/github/ebraminio/inspectwidgets/MainActivity.kt:116-120 | The shortened class name is never longer than the runtime class name. |
| Strings.ShortNameFixedIff | app/src/main/java/io/github/ebraminio/inspectwidgets/MainActivity.kt:116-120 | A class name is shown unchanged if and only if it contains neither `android.widget.` nor `RemoteViewsAdapter$RemoteViews`. |
| Strings.ShortNameOfWidget | app/src/main/java/io/github/ebraminio/inspectwidgets/MainActivity.kt:116-117 | `android.widget.C` is shown as `C` when `C` contains neither prefix. |
| Strings.ShortNameOfRemoteViews | app/src/main/java/io/github/ebraminio/inspectwidgets/MainActivity.kt:116-120 | `android.widget.RemoteViewsAdapter$RemoteViewsC` is shown as `C` when `C` has no dot and no adapter prefix. |
| Strings.ShortNameTextView | app/src/main/java/io/github/ebraminio/inspectwidgets/MainActivity.kt:116-117 | `android.widget.TextView` is shown as `TextView`. |
| Strings.ShortNameForeignClass | app/src/main/java/io/github/ebraminio/inspectwidgets/MainActivity.kt:116-120 | A class outside both prefixes, `com.example.ClockView`, is shown in full. |
| ViewTree.Tree | app/src/main/java/io/github/ebraminio/inspectwidgets/MainActivity.kt:113-124 | `tree(g)` lists one line per proper descendant of `g`, and equals the top-down depth walk of the children of `g` with each view labelled by its depth. |
| ViewTree.Dump | app/src/main/java/io/github/ebraminio/inspectwidgets/MainActivity.kt:114-123 | The lines yielded for a list of children number exactly the views in those children's subtrees. |
| ViewTree.DumpIsLabelledWalk | app/src/main/java/io/github/ebraminio/inspectwidgets/MainActivity.kt:113-124 | The bottom-up indentation of the dump equals labelling each view by its top-down depth. |
| ViewTree.TreeLabels | app/src/main/java/io/github/ebraminio/inspectwidgets/MainActivity.kt:116-122 | Every line of `tree(g)` is `d` bars, then `"+- "`, then the short class name of its view, where `d` is the view's depth below the children of `g`. Direct children get no bar. |
| ViewTree.TreeNodes | app/src/main/java/io/github/ebraminio/inspectwidgets/MainActivity.kt:120-122 | The views of `tree(g)` are the descendants of `g`, unchanged and in pre-order, with `g` itself left out. |
| ViewTree.TreeOmitsRoot | app/src/main/java/io/github/ebraminio/inspectwidgets/MainActivity.kt:113-114 | Every listed view is strictly smaller than the root, so the root never appears. |
| ViewTree.DumpRoots | app/src/main/java/io/github/ebraminio/inspectwidgets/MainActivity.kt:114-122 | The lines that carry no bar are exactly the direct children, in their original order. |
| ViewTree.DumpAppend | app/src/main/java/io/github/ebraminio/inspectwidgets/MainActivity.kt:114-123 | The dump of a child list is the dump of its first part followed by the dump of the rest, so siblings keep their order. |
| ViewTree.DumpAround | app/src/main/java/io/github/ebraminio/inspectwidgets/MainActivity.kt:114-122 | Around any child, the output is: the earlier siblings' lines, then the child's own line, then its subtree's lines, then the later siblings' lines. |
| ViewTree.SingleLine | app/src/main/java/io/github/ebraminio/inspectwidgets/MainActivity.kt:122 | A child yields exactly one line if and only if it is a leaf or a group without children. |
| WidgetBind.GetIntPut | app/src/main/java/io/github/ebraminio/inspectwidgets/MainActivity.kt:271 | Reading the id extra gives back an `Int` just stored under its key, and the caller's default once the key is removed; `parseResult` passes `-1` as that default. |
| WidgetBind.ParseResult | app/src/main/java/io/github/ebraminio/inspectwidgets/MainActivity.kt:270-272 | A widget id is returned exactly when there is an intent with extras holding an `Int` id other than `-1`; it is that id, so `-1` is never returned. |
| WidgetBind.ReplyRoundTrip | app/src/main/java/io/github/ebraminio/inspectwidgets/MainActivity.kt:270-272 | A reply carrying any id other than `-1` is read back as that id, whatever other extras it holds. |
| WidgetBind.ResultCodeIgnored | app/src/main/java/io/github/ebraminio/inspectwidgets/MainActivity.kt:270-271 | The result code has no effect on the decoded id. |
| WidgetBind.NoWidgetCases | app/src/main/java/io/github/ebraminio/inspectwidgets/MainActivity.kt:271 | No intent, no extras, a missing id, an id of another type, or an id of `-1` each decode to no widget. |

## Left out

- The Compose UI in `MainActivity.onCreate` and `Content` is not modelled: theming, layout, scrolling, recomposition through `refreshToken`, and the show/hide toggle. It is declarative rendering with no state of its own worth stating.
- The AppWidget framework calls are not modelled, because their behaviour lives in the platform. These are `AppWidgetHost`, `AppWidgetManager`, `createView`, `bindAppWidgetIdIfAllowed`, `allocateAppWidgetId`, `deleteAppWidgetId` and `updateAppWidgetSize`.
- `RequestWidgetBind.createIntent` is not modelled. It only fills an OS intent, and the reply comes from the OS, so the model starts from that reply.
- Bitmap capture, PNG compression, the Base64 data URL and the clipboard write are not modelled. They are library I/O and a coroutine launch.
- Provider metadata is not modelled: sizes divided by the screen density (floating point), preview images and descriptions (foreign calls).
- Toasts and the branches on the SDK version are not modelled.
- `tree` returns a lazy Kotlin `Sequence` that reads `view.children` while it is consumed. The model computes the finite list for a hierarchy that does not change during the walk.
- `View` and `ViewGroup` are reduced to their runtime class name, a distinguishing id and, for a group, its children. `javaClass.name` is taken as given in `cls`.
- Strings.ReplaceAll: works on Unicode scalar values, not on Kotlin's UTF-16 code units. The two differ only for an empty pattern applied to text outside the Basic Multilingual Plane, which the dump never does: both of its patterns are non-empty ASCII.
- The resultCode is kept as a parameter only because the source ignores it; what the system puts in it is not modelled.
