# usvg normalisation core, modelled in Dafny

usvg turns an arbitrary SVG document into a small canonical tree: paths
made of MoveTo/LineTo/CurveTo/ClosePath, fills and strokes with every
default applied, plain user-unit numbers, and no `use`, `a`, `switch`,
nested `svg`, inheritance or unresolved references. It works in two
stages. A series of preprocessing passes rewrites the parsed svgdom
document in place; the conversion then builds the typed render tree from
what the passes left.

This project models that core and proves what each step promises:

- **Geometry and paint lowering.** These are `Shapes`, `PathConv`,
  `StrokeConv`, `FillConv` and `Geom`:
  - shape elements become path segments;
  - path data, taken as absolute segments, has its smooth curves reflected;
  - control points are snapped when the path is stroked;
  - the stroke and fill are sanitised, including the dasharray rules.
- **Numbers and units.** These are `ConvUnits`, `ResolveFontSize` and
  `GradientStops`:
  - lengths are converted to user units;
  - font sizes cascade down the tree;
  - gradient stop offsets are normalised by the five sweeps of
    `fix_gradient_stops`.
- **The preprocessing passes** over the svgdom document, one module each.
- **The typed lookups** of `traits.rs` (`Traits`) and the render tree's
  node kinds (`TreeNode`).
- **The render tree** (`RenderTree`). It is an arena: node kinds,
  parents and child lists indexed by node number, with the root `Svg`
  at 0 and its `Defs` child at 1. `class Tree` holds that arena in
  fields that `append_kind`, `append_to_defs` and `detach` update in
  place. Every state the methods leave is tied to a function on the
  arena (`Appended`, `Detached`), and the invariant they keep is
  `Sound`.
- **The conversion to the render tree.** These are `Convert`,
  `GradientConv`, `ClipPathConv`, `MaskConv`, `ImageConv` and
  `ConvertBase`:
  - `convert_doc` builds the tree, first the referenced children of
    `defs`, then the rest of the document;
  - a group whose clip path or mask does not resolve is dropped with
    its subtree;
  - no clip path, mask or pattern is left without children;
  - image hrefs are data URLs or checked files.
- **The dump back to svgdom** (`Dump`). Each render-tree node `j` is
  written with uid 2j+2, the text node of a span with 2j+3, and the new
  document's root with 0. Each writer has a round-trip lemma: reading
  the written element back with the conversion's own readers gives the
  node that was written.

## How the document is represented

- **The svgdom document is a value tree,** built from
  `Dom.Node(uid, kind, id, attrs, children)`.
  - A node's attributes are a map from attribute id to value.
  - A link (Link, FuncLink, Paint) carries the uid of its target.
  - A parent is not stored. Every walk passes the chain of ancestors
    down, nearest first, so "the nearest ancestor that has the
    attribute" is a search along that chain (`Traits.FirstHaving`).
- **The passes are functions from document to document.**
  - A loop that runs over a list in the source is a method. Its loop
    invariant ties it to the function.
  - Each pass's promise is proved about its function: every node of the
    result, in document order, against the node it came from.
- **svgdom's own operations are modelled in `Dom` and `DocDrain`.**
  - `Dom` holds `remove_node` (removal of subtrees by uid, which drops
    the links into them), `copy_node` and `copy_node_deep`, `append`,
    and the pre-order traversals.
  - `DocDrain` holds `drain`. It visits the uids of the original
    pre-order in turn. Each node still present is checked against the
    document as the earlier removals left it.
  - The lemmas about what a drain leaves assume that no two nodes share a
    uid (`DocDrain.HeadUnique`). svgdom's nodes are distinct objects, so
    this holds of every document it builds.
  - svgdom is a separate library. The rows for `Dom` and `DocDrain` cite
    the passes that use them.
- **Floating-point numbers are reals.**
  - `fuzzy_eq` is exact equality.
  - `f64::EPSILON` is 2^-52.

## Model

| member | source | states |
|---|---|---|
| Geom.F64Bound | src/geom.rs:13-21 | max above the range, min below it (the upper test first), the value inside it; within [min, max] whenever min <= max |
| Geom.BoundIdempotent | src/geom.rs:13-21 | bounding an already bounded value changes nothing |
| Geom.BoundMonotone | src/geom.rs:13-21 | the bound is monotone in the value |
| FillConv.ConvertPaint | src/convert/fill.rs:27-62 | a colour gives that colour; a FuncLink gives a link to its target's id exactly when the target is a gradient or pattern found in Defs; any other value gives no paint |
| FillConv.Convert | src/convert/fill.rs:23-83 | no fill attribute or no usable paint gives None; otherwise the paint, fill-opacity defaulting to 1, and EvenOdd exactly when fill-rule is the evenodd keyword |
| Shapes.Convert | src/convert/shapes.rs:22-32 | dispatch on the shape kind; a line always converts, and any converted shape has at least two segments starting with a move |
| Shapes.NonNegative | src/convert/shapes.rs:76-85 | a negative radius counts as absent; a non-negative one is kept |
| Shapes.ResolveRadii | src/convert/shapes.rs:88-93 | both absent gives (0, 0); a single given radius is copied to the other; given radii are kept |
| Shapes.RectRadii | src/convert/shapes.rs:68-103 | after resolving and clamping, 0 <= rx <= width/2 and 0 <= ry <= height/2 |
| Shapes.ConvertRect | src/convert/shapes.rs:35-131 | None exactly when width or height (missing counts as 0) is not positive; otherwise a path of at least five segments starting with a move |
| Shapes.RectPathShape | src/convert/shapes.rs:107-128 | rx = 0 gives exactly M(x,y) H(x+w) V(y+h) H(x) Z whatever ry is; otherwise nine segments from M(x+rx, y), four line/arc pairs with large-arc false and sweep true, the last arc ending at the start, no ClosePath |
| Shapes.ConvertLine | src/convert/shapes.rs:133-147 | always M(x1, y1) L(x2, y2), missing coordinates 0 |
| Shapes.PointsPath | src/convert/shapes.rs:177-185 | one segment per point, in order: a move to the first, a line to each later one |
| Shapes.PointsToPath | src/convert/shapes.rs:162-188 | None exactly when `points` is missing or has fewer than two entries; otherwise the point path |
| Shapes.PointsToPathLoop | src/convert/shapes.rs:177-185 | the pushing loop builds exactly the point path |
| Shapes.ConvertPolygon | src/convert/shapes.rs:153-160 | the polyline path followed by exactly one ClosePath, None when that is None |
| Shapes.EllipsePathShape | src/convert/shapes.rs:226-235 | six segments from (cx+rx, cy), four arcs whose end points lie on the ellipse, the last back at the start, then ClosePath |
| Shapes.ConvertCircle | src/convert/shapes.rs:190-203 | None exactly when r (missing counts as 0) is not positive; otherwise the ellipse path with both radii r |
| Shapes.ConvertEllipse | src/convert/shapes.rs:205-224 | None exactly when rx or ry (missing counts as 0) is not positive; otherwise the ellipse path |
| PathConv.QuadToCurve | src/convert/path.rs:217-238 | the cubic ends at the quadratic's end point and its two controls lie two thirds of the way from each end towards the quadratic's control |
| PathConv.PushSegment | src/convert/path.rs:71-162 | the match of the loop body pushes exactly what the conversion step emits for that segment and leaves the quadratic control the step records |
| PathConv.RememberLast | src/convert/path.rs:164-188 | the current and MoveTo points are updated from the last output segment as the step function does; ClosePath returns to the MoveTo point |
| PathConv.SnapControlPoints | src/convert/path.rs:191-212 | the in-place snapping loop gives every segment snapped, in order |
| PathConv.ConvertPath | src/convert/path.rs:53-215 | the whole loop with its px/py/pmx/pmy/ptx/pty state computes the fold of the step function over the input, snapped when stroked |
| PathConv.SnapCoord | src/convert/path.rs:206-209 | a control coordinate closer than 0.25 to its end point coordinate becomes it; otherwise it is kept |
| PathConv.SnapSegment | src/convert/path.rs:202-211 | only a CurveTo's control coordinates move; end points and every other segment are unchanged |
| PathConv.RunTracksCurrentPoint | src/convert/path.rs:164-188 | after any prefix the tracked point is the end of the last output segment (the last MoveTo point after a ClosePath) and the tracked MoveTo point is the last MoveTo |
| PathConv.CopiedOneToOne | src/convert/path.rs:72-86 | MoveTo, LineTo, CurveTo and ClosePath inputs are copied one output each with the same coordinates |
| PathConv.HorizontalVertical | src/convert/path.rs:78-83 | H x gives LineTo(x, current y); V y gives LineTo(current x, y) |
| PathConv.SmoothCurveReflects | src/convert/path.rs:87-109 | S after an output CurveTo takes 2·end − its second control as first control; after any other segment the current point; with an empty output it emits nothing |
| PathConv.QuadraticRecordsControl | src/convert/path.rs:110-116 | Q records 2·(x, y) − (x1, y1) as the control for a following T |
| PathConv.SmoothQuadraticUsesControl | src/convert/path.rs:117-138 | T uses the recorded control and re-records 2·(x, y) − control; with none recorded it uses the current point and leaves the record |
| PathConv.ControlNeverCleared | src/convert/path.rs:110-138 | no segment kind other than Q and T changes the recorded control |
| PathConv.ArcEndsAtTarget | src/convert/path.rs:139-158 | when the approximator's last cubic ends at the arc's end point, so does the current point after the arc |
| PathConv.EmitMoveTo | src/convert/path.rs:72-74 | only a MoveTo input emits a MoveTo, and then exactly one |
| PathConv.SnapIdempotent | src/convert/path.rs:202-211 | snapping twice is snapping once |
| PathConv.SnapOnlyControls | src/convert/path.rs:191-212 | without a stroke nothing is snapped; with one, segment count, kinds and end points are kept |
| StrokeConv.Dasharray | src/convert/stroke.rs:111-152 | a dash array exists exactly for a NumberList with no negative entry and a non-zero sum; an odd-length list is repeated once, an even one kept; the result has even length and no negative entry |
| StrokeConv.ConvDasharray | src/convert/stroke.rs:111-152 | the summing loop computes exactly the dash array the rules above define |
| StrokeConv.ConvertLineCap | src/convert/stroke.rs:77-83 | round and square map to themselves, every other keyword to butt |
| StrokeConv.ConvertLineJoin | src/convert/stroke.rs:85-91 | round and bevel map to themselves, every other keyword to miter |
| StrokeConv.Convert | src/convert/stroke.rs:24-107 | a stroke exists exactly when the width (default 1) is positive and the paint resolves; miter limit defaults to 4 and is raised to at least 1; opacity defaults to 1, dash offset to 0; cap, join and dash array follow their rules |
| StrokeConv.DasharrayIdempotent | src/convert/stroke.rs:111-152 | a converted dash array passes the checks again unchanged |
| GradientStops.WithOffset | src/preproc/fix_gradient_stops.rs:97 | setting an offset stores that Number and changes nothing else of the stop |
| GradientStops.NonStopChildren | src/preproc/fix_gradient_stops.rs:15-22 | the sibling walk of one gradient collects exactly its children that are not stops |
| GradientStops.FirstSweepLeavesStops | src/preproc/fix_gradient_stops.rs:14-23 | after the first sweep every child of every gradient is a stop |
| GradientStops.ClampOne | src/preproc/fix_gradient_stops.rs:28-32 | a Number offset is clamped into [0, 1] (kept when already inside); any other offset value, and everything but the offset, is left alone |
| GradientStops.Clamped | src/preproc/fix_gradient_stops.rs:26-34 | the clamping sweep rewrites each stop of a gradient separately, keeping their number and order |
| GradientStops.ClampOffsets | src/preproc/fix_gradient_stops.rs:27-33 | the clamping loop computes the clamping sweep |
| GradientStops.ClampIdempotent | src/preproc/fix_gradient_stops.rs:26-34 | clamping twice is clamping once |
| GradientStops.Collapse | src/preproc/fix_gradient_stops.rs:51-68 | the intended triple sweep never adds stops and leaves lists of fewer than three stops alone |
| GradientStops.CollapseSubset | src/preproc/fix_gradient_stops.rs:61-64 | the triple sweep only removes stops |
| GradientStops.CollapseKeepsPrefix | src/preproc/fix_gradient_stops.rs:55-67 | the stops up to the scan position stay in place |
| GradientStops.CollapseKeepsLast | src/preproc/fix_gradient_stops.rs:55-67 | the last stop is never removed |
| GradientStops.CollapseLeavesNoTriple | src/preproc/fix_gradient_stops.rs:55-67 | after the sweep no three consecutive stops have equal offsets |
| GradientStops.CollapseIdempotent | src/preproc/fix_gradient_stops.rs:51-68 | the triple sweep is idempotent |
| GradientStops.StaleVectorStep | src/preproc/fix_gradient_stops.rs:63-64 | removing index 1 of the working vector, not i+1, keeps it equal to the intended vector from i+1 on and equal in offset at i |
| GradientStops.RemoveEqualOffsets | src/preproc/fix_gradient_stops.rs:44-69 | the loop as written, with `stops.remove(1)`, removes from a gradient exactly the stops the intended triple sweep removes |
| GradientStops.ShiftStep | src/preproc/fix_gradient_stops.rs:85-104 | a zero offset resets the running previous to 0 and writes nothing; an offset not above the previous becomes it and its previous sibling becomes previous − EPSILON; a larger one is kept and becomes the previous |
| GradientStops.Shifted | src/preproc/fix_gradient_stops.rs:82-106 | after k stops only offsets have changed, the untouched tail is as it was, and the running previous is the offset of stop k−1 |
| GradientStops.ShiftOffsets | src/preproc/fix_gradient_stops.rs:83-105 | the shifting loop computes the whole shift sweep |
| GradientStops.ShiftSeparates | src/preproc/fix_gradient_stops.rs:93-104 | right after its step a stop with a non-zero offset lies strictly above its previous sibling |
| GradientStops.ShiftWritesNumbers | src/preproc/fix_gradient_stops.rs:103 | every passed stop with a non-zero offset holds a Number offset |
| GradientStops.ShiftKeepsZeros | src/preproc/fix_gradient_stops.rs:87-90 | with no negative offsets the running previous is never negative, so a zero offset is never rewritten |
| GradientStops.ZeroFixed | src/preproc/fix_gradient_stops.rs:125-134 | only the first two stops are examined; when both are zero the second becomes first + EPSILON, no other stop changes, and no leading zero pair remains |
| GradientStops.ZeroOffsets | src/preproc/fix_gradient_stops.rs:125-134 | the zero loop stops after one rewrite and computes the zero sweep |
| GradientStops.MapGradients | src/preproc/fix_gradient_stops.rs:11 | a per-gradient sweep changes no node's own data outside gradients' children |
| GradientStops.FixGradientStops | src/preproc/fix_gradient_stops.rs:10-136 | the five sweeps in order over every gradient; the root is kept |
| GradientStops.SweepsOnlyWriteOffsets | src/preproc/fix_gradient_stops.rs:20-130 | no sweep adds a stop, the triple sweep only removes, and the others rewrite nothing but offsets |
| ConvUnits.Convert | src/preproc/conv_units.rs:162-176 | none and px give n; em n·font-size; ex n·font-size/2; in n·dpi; cm n·dpi/2.54; mm n·dpi/25.4; pt n·dpi/72; pc n·dpi/6; a percentage is not accepted |
| ConvUnits.AbsoluteUnitsAgree | src/preproc/conv_units.rs:169-173 | at 96 dpi, 1in = 2.54cm = 25.4mm = 72pt = 6pc = 96px |
| ConvUnits.ExIsHalfEm | src/preproc/conv_units.rs:167-168 | an ex converts to half of an em |
| ConvUnits.ConvertLinear | src/preproc/conv_units.rs:162-176 | conversion is linear in the number |
| ConvUnits.ConvertLen | src/preproc/conv_units.rs:38-48 | a percentage on x, cx, width scales the viewBox width, on y, cy, height its height, on anything else the diagonal length, as base·num/100; other units go through `convert` |
| ConvUnits.LengthValue | src/preproc/conv_units.rs:70-85 | a zero number gives 0 whatever the unit; a percentage in a bounding-box paint server or on `offset` gives num/100; anything else goes through the closure |
| ConvUnits.FractionIgnoresViewBox | src/preproc/conv_units.rs:73-78 | such a fraction does not depend on the viewBox |
| ConvUnits.LengthListValue | src/preproc/conv_units.rs:91-94 | a LengthList becomes a list of the same length, each entry through the closure |
| ConvUnits.ConvertAttrs | src/preproc/conv_units.rs:66-100 | the same attribute keys; no SVG attribute is left a Length or LengthList; other values are untouched; each LengthList becomes a NumberList of the same length |
| ConvUnits.ConvertAttrsIdempotent | src/preproc/conv_units.rs:66-100 | converting converted attributes changes nothing |
| ConvUnits.ConvertLengths | src/preproc/conv_units.rs:69-86 | the first attribute loop turns exactly the SVG Length attributes into their Numbers |
| ConvUnits.ConvertLengthLists | src/preproc/conv_units.rs:89-100 | the second loop turns exactly the SVG LengthList attributes into NumberLists |
| ConvUnits.ConvertNodeUnits | src/preproc/conv_units.rs:66-100 | the two loops together give the converted attributes |
| ConvUnits.FontSizeValue | src/preproc/conv_units.rs:127-135 | a Length font size is converted against the parent's size; any other value becomes 12 |
| ConvUnits.FontSizeWalk | src/preproc/conv_units.rs:104-137 | fails exactly when a percentage font size would reach `convert`; otherwise every element's font size is a Number, node identities kept |
| ConvUnits.FontSizeFromParent | src/preproc/conv_units.rs:110-135 | an element's converted font size depends only on its own value and its parent's numeric size |
| ConvUnits.ResolveViewBox | src/preproc/conv_units.rs:139-160 | an existing viewBox is used as it is; otherwise 0 0 w h from the converted width and height is stored and used, failing where the library would panic |
| ConvUnits.UnitsWalk | src/preproc/conv_units.rs:51-101 | every visited element ends with no Length or LengthList attribute, node identities kept; a missing font size fails |
| ConvUnits.ConvertUnits | src/preproc/conv_units.rs:19-102 | font sizes first, then the viewBox, then every element; a result holds no Length anywhere, and a percentage font size fails |
| ResolveFontSize.PowI | src/preproc/resolve_font_size.rs:140 | `powi`: positive for a positive base, the power for a non-negative exponent, its reciprocal for a negative one |
| ResolveFontSize.NamedFactor | src/preproc/resolve_font_size.rs:119-133 | xx-small..xx-large map to −3..3, smaller to −1, larger to 1, anything else to 0 |
| ResolveFontSize.NamedSizesStep | src/preproc/resolve_font_size.rs:138-140 | adjacent named sizes differ by a factor 1.2 |
| ResolveFontSize.PercentFontSizeAsWritten | src/preproc/resolve_font_size.rs:104-114 | 12 when the parent is the root; otherwise num × parent's number × 0.01 as a plain number, the parent's unit dropped |
| ResolveFontSize.NamedFontSizeAsWritten | src/preproc/resolve_font_size.rs:118-142 | the parent's number (12 at the root) × 1.2^factor as a plain number |
| ResolveFontSize.PercentDropsParentUnit | src/preproc/resolve_font_size.rs:108-112 | 150% under a 2em parent gives 3 user units although the parent's size is 24 and 150% of it is 36 |
| ResolveFontSize.NamedDropsParentUnit | src/preproc/resolve_font_size.rs:135-141 | `larger` under a 2em parent gives 2.4 user units instead of 28.8 |
| ResolveFontSize.PercentFontSize | src/preproc/resolve_font_size.rs:104-114 | corrected: 12 at the root, otherwise a fraction of an em, never a percentage |
| ResolveFontSize.NamedFontSize | src/preproc/resolve_font_size.rs:118-142 | corrected: 12·1.2^factor at the root, 1.2^factor em below an element |
| ResolveFontSize.RelativeSizesFollowParent | src/preproc/resolve_font_size.rs:104-142 | below an element the corrected sizes convert to that share of the parent's converted size, whatever its unit |
| ResolveFontSize.PercentUnderNumberParent | src/preproc/resolve_font_size.rs:104-114 | under a plain-number parent the corrected and written percentage agree, so 150% of 10 is 15 |
| ResolveFontSize.NamedUnderNumberParent | src/preproc/resolve_font_size.rs:118-142 | under a plain-number parent the corrected and written named sizes agree |
| ResolveFontSize.Inherited | src/preproc/resolve_font_size.rs:30-62 | a missing size takes the parent's (12 at the root), an em becoming 1em and an ex 2ex |
| ResolveFontSize.FontSizeOf | src/preproc/resolve_font_size.rs:26-81 | corrected (percentages and named sizes by `PercentFontSize` and `NamedFontSize`, see Findings): an own Length is kept (a percentage resolved against the parent), a String is a named size, any other value 12, a missing one inherited; never a percentage |
| ResolveFontSize.ResolveNode | src/preproc/resolve_font_size.rs:83-89 | corrected (percentages and named sizes by `PercentFontSize` and `NamedFontSize`, see Findings): the node gets its size, and the `resolved-font-size` marker exactly when it had no size of its own |
| ResolveFontSize.WalkNode | src/preproc/resolve_font_size.rs:19-94 | corrected (percentages and named sizes by `PercentFontSize` and `NamedFontSize`, see Findings): an element is resolved and its children see its new size; other nodes are skipped with their subtree; the result is resolved throughout |
| ResolveFontSize.Walk | src/preproc/resolve_font_size.rs:18-95 | corrected (percentages and named sizes by `PercentFontSize` and `NamedFontSize`, see Findings): each child walked in order with the same parent size; every element reached ends with a non-percentage Length size |
| ResolveFontSize.ResolveFontSizes | src/preproc/resolve_font_size.rs:12-14 | corrected (percentages and named sizes by `PercentFontSize` and `NamedFontSize`, see Findings): the root is kept and every element below it reachable through elements is resolved |
| ResolveFontSize.ConvertChain | src/preproc/resolve_font_size.rs:35-60 | through the unit conversion a chain of nested sizes becomes each converted against the one before it |
| ResolveFontSize.EmInheritanceExample | src/preproc/resolve_font_size.rs:39-47 | sizes 12, 3em and none on three nested groups end as 12, 36 and 36 |
| Traits.FromValue | src/traits.rs:79-113 | Some exactly when the value is of the asked-for variant, and then the value itself; always Some for `AValue` |
| Traits.GetType | src/traits.rs:152-164 | None when the attribute is absent or holds another variant, otherwise its value |
| Traits.GetNumberIsGetType | src/traits.rs:119-121 | `get_number` finds a number exactly when `get_type` does, and the same one |
| Traits.GetViewbox | src/traits.rs:37-43 | Some exactly when a ViewBox value is present, its x, y, w, h copied into the rectangle |
| Traits.SvgElement | src/traits.rs:51-55 | the root child found is an `svg` element; None only when no root child is one |
| Traits.DefsElement | src/traits.rs:50-71 | Some exactly when the svg element exists and its first child is a `defs`, and then that child |
| Traits.FindAttributeWithNode | src/traits.rs:180-192 | a result carries a node that has the attribute and its value, of the asked-for variant |
| Traits.FindAttribute | src/traits.rs:176-178 | a result is of the asked-for variant |
| Traits.FindNodeWithAttribute | src/traits.rs:194-202 | a result is a node of the chain that has the attribute; None only when no node of the chain has it |
| Traits.FirstHaving | src/traits.rs:181-182 | the nearest position whose node has the attribute, none before it having it |
| Traits.FindAttributeWithNodeIsFirst | src/traits.rs:180-192 | the answer comes from the nearest node having the attribute, and is Some exactly when its value matches |
| Traits.FindAttributeWithNodeNone | src/traits.rs:180-202 | with no node having the attribute both searches give None |
| Traits.FindNodeWithAttributeIsFirst | src/traits.rs:194-202 | `find_node_with_attribute` returns the nearest node having the attribute |
| Traits.FindAttributeStopsAtMismatch | src/traits.rs:183-188 | a wrong-variant value at the nearest node gives None even when a node further up matches |
| RmNonSvgData.Drops | src/preproc/rm_non_svg_data.rs:11 | exactly the uids of the nodes below the root that are neither SVG elements nor text |
| RmNonSvgData.SvgOnly | src/preproc/rm_non_svg_data.rs:17 | exactly the SVG attributes of the map, with their values |
| RmNonSvgData.RetainSvgAttrs | src/preproc/rm_non_svg_data.rs:16-17 | the retain loop leaves exactly the SVG attributes |
| RmNonSvgData.StripOne | src/preproc/rm_non_svg_data.rs:14-18 | an element keeps only its SVG attributes; other nodes and the children are untouched |
| RmNonSvgData.RemoveNonSvgData | src/preproc/rm_non_svg_data.rs:8-20 | the root keeps its uid and kind |
| RmNonSvgData.StripHeads | src/preproc/rm_non_svg_data.rs:13-19 | in document order, each node of the result is the drained node with its attributes stripped |
| RmNonSvgData.OnlySvgAndText | src/preproc/rm_non_svg_data.rs:9-11 | below the root only SVG elements and text nodes remain |
| RmNonSvgData.OnlySvgAttrs | src/preproc/rm_non_svg_data.rs:15-17 | every SVG element left holds only SVG attributes |
| RmNonSvgData.ResultClean | src/preproc/rm_non_svg_data.rs:13-19 | no element of the result, root included, carries a non-SVG attribute |
| RmNonSvgData.StripNothing | src/preproc/rm_non_svg_data.rs:13-19 | the attribute loop changes nothing on a forest already clean |
| RmNonSvgData.Idempotent | src/preproc/rm_non_svg_data.rs:8-20 | running the pass twice gives what running it once does |
| RmNonSvgData.SvgAttrsUnchanged | src/preproc/rm_non_svg_data.rs:11-17 | each surviving element keeps exactly its original SVG attributes, minus links into removed nodes |
| UngroupA.Ungroup | src/preproc/ungroup_a.rs:13-23 | an `a` becomes a `tspan` exactly when inside a `text`, a `g` otherwise, and loses its href; any other node is unchanged |
| UngroupA.WalkNode | src/preproc/ungroup_a.rs:12-24 | the node is ungrouped and its children walked as inside a `text` when it is one or an ancestor is |
| UngroupA.Walk | src/preproc/ungroup_a.rs:12-24 | each node of the forest walked in order |
| UngroupA.UngroupAnchors | src/preproc/ungroup_a.rs:11-25 | the root is left as it is unless it is itself an `a` |
| UngroupA.WalkPairwise | src/preproc/ungroup_a.rs:12-24 | in document order, each result node is its original: unchanged, or a `g`/`tspan` without href where it was an `a` |
| UngroupA.NoAnchorsLeft | src/preproc/ungroup_a.rs:11-25 | no `a` element is left below the root |
| UngroupA.WalkNothing | src/preproc/ungroup_a.rs:12-24 | a forest without `a` elements is left as it is |
| UngroupA.Idempotent | src/preproc/ungroup_a.rs:11-25 | running the pass twice gives what running it once does |
| UngroupA.AnchorInText | src/preproc/ungroup_a.rs:16-20 | an `a` directly inside a `text` becomes a `tspan`, one at the top a `g` |
| RmDescElems.Drops | src/preproc/rm_desc_elems.rs:12-14 | exactly the uids of the `title`, `desc` and `metadata` elements below the root |
| RmDescElems.RemoveDescElements | src/preproc/rm_desc_elems.rs:8-15 | the root keeps its uid and kind |
| RmDescElems.NoDescLeft | src/preproc/rm_desc_elems.rs:11-14 | no `title`, `desc` or `metadata` element is left |
| RmDescElems.KeepsTheRest | src/preproc/rm_desc_elems.rs:11-14 | what remains is, in document order, exactly the nodes neither one of the three nor below one, their attributes unchanged but for links into removed subtrees |
| RmDescElems.Idempotent | src/preproc/rm_desc_elems.rs:8-15 | running the pass twice gives what running it once does |
| ResolveInherit.InheritedValue | src/preproc/resolve_inherit.rs:38-54 | the value of the nearest strict ancestor having the attribute; without one, the attribute's default, or None (removal) when it has none |
| ResolveInherit.ResolvedAttrs | src/preproc/resolve_inherit.rs:20-35 | every attribute not holding `inherit` is kept; an inherited one holds its inherited value, or is removed when there is none |
| ResolveInherit.InheritIds | src/preproc/resolve_inherit.rs:24-29 | the collected ids are exactly the SVG attributes holding `inherit` |
| ResolveInherit.ApplyIsPartial | src/preproc/resolve_inherit.rs:32-34 | resolving the ids one after another gives each its own choice, whatever their order |
| ResolveInherit.PartialAll | src/preproc/resolve_inherit.rs:32-34 | with exactly the inherited ids, the result is `ResolvedAttrs` |
| ResolveInherit.ResolveIds | src/preproc/resolve_inherit.rs:32-34 | the loop applies `resolve_impl` to each id in order |
| ResolveInherit.ResolveNode | src/preproc/resolve_inherit.rs:21-34 | both loops over one node leave its attributes resolved and nothing else changed |
| ResolveInherit.Visit | src/preproc/resolve_inherit.rs:20 | only SVG elements are touched; uid, kind, id and children are kept |
| ResolveInherit.Walk | src/preproc/resolve_inherit.rs:20-35 | each node is visited before its children, which see it resolved as their nearest ancestor |
| ResolveInherit.ResolveInheritDoc | src/preproc/resolve_inherit.rs:17-36 | the root itself is left as it is |
| ResolveInherit.DefaultsAreNotInherit | src/preproc/resolve_inherit.rs:45-46 | no default value is `inherit` |
| ResolveInherit.ResolvedHasNoInherit | src/preproc/resolve_inherit.rs:38-54 | an element resolved against clean ancestors holds no `inherit` |
| ResolveInherit.WalkLeavesNoInherit | src/preproc/resolve_inherit.rs:17-36 | when only elements carried `inherit`, none is left anywhere after the walk |
| ResolveInherit.NoInheritLeft | src/preproc/resolve_inherit.rs:17-36 | on a document whose root and non-elements are clean, nothing holds `inherit` afterwards |
| FixXlinks.DropNonLink | src/preproc/fix_xlinks.rs:11-21 | an href that is not a Link is removed from every node but an image; nothing else changes |
| FixXlinks.DropWrongKind | src/preproc/fix_xlinks.rs:25-38 | a gradient's Link href must reach a gradient and a pattern's a pattern, or it is removed; other elements keep theirs |
| FixXlinks.FixXlinksEffect | src/preproc/fix_xlinks.rs:8-39 | node by node in document order: uid, kind, id and all other attributes kept; a kept href is the original, a Link outside images, and of the right target kind |
| FixXlinks.OneNode | src/preproc/fix_xlinks.rs:11-38 | the two sweeps on a single node give the effect above |
| FixXlinks.TargetTagKept | src/preproc/fix_xlinks.rs:25-30 | the first sweep changes no node's tag, so the second sees the targets' kinds as they were |
| FixXlinks.FirstWithUidAligned | src/preproc/fix_xlinks.rs:29-30 | two pre-orders agreeing on uids and kinds resolve a link to the same kind |
| FixXlinks.DropHref | src/preproc/fix_xlinks.rs:43-49 | every node but an image loses its href |
| FixXlinks.RemoveXlinksEffect | src/preproc/fix_xlinks.rs:42-50 | node by node: images unchanged, every other node without href and otherwise unchanged |
| FixXlinks.FixXlinksDoc | src/preproc/fix_xlinks.rs:8-39 | the non-Link sweep, then the wrong-kind sweep against the document the first one left (`FixXlinksEffect`) |
| ResolveGradientStops.Source | src/preproc/resolve_gradient_stops.rs:38-59 | the href chain, followed through gradients only, ends at a gradient without an href |
| ResolveGradientStops.ShallowCopy | src/preproc/resolve_gradient_stops.rs:54 | `copy_node` keeps kind and attributes, with no id, no children and a new uid |
| ResolveGradientStops.ShallowCopies | src/preproc/resolve_gradient_stops.rs:53-56 | one copy per child, in order, uids numbered from the base |
| ResolveGradientStops.AppendCopies | src/preproc/resolve_gradient_stops.rs:53-56 | the loop appends the copies of the source's children, in order, after the gradient's own children |
| Dom.CopyBase | src/preproc/resolve_gradient_stops.rs:54 | the copies made for a node are numbered past every uid of the document |
| ResolveGradientStops.Fill | src/preproc/resolve_gradient_stops.rs:24-27 | a gradient gains the copies of its source's children, or nothing when the chain fails; its own head is kept |
| Dom.FillWalk | src/preproc/resolve_gradient_stops.rs:20-27 | each node the test picks is replaced by its filled form; every other node is walked into, and the forest keeps its length |
| ResolveGradientStops.DropGradientHref | src/preproc/resolve_gradient_stops.rs:30-35 | a gradient loses its href; other nodes are unchanged |
| ResolveGradientStops.NoGradientHref | src/preproc/resolve_gradient_stops.rs:29-35 | afterwards no gradient carries an href |
| ResolveGradientStops.OnlyEmptyGradientsFilled | src/preproc/resolve_gradient_stops.rs:20-27 | only childless gradients with an href gain children, exactly the copies of the source's; other nodes keep their heads and child counts |
| ResolveGradientStops.CopiesAreFresh | src/preproc/resolve_gradient_stops.rs:53-56 | one shallow copy per child of the source, same kind and attributes, no id, no children, a uid unused in the document |
| ResolveGradientStops.NonGradientInChain | src/preproc/resolve_gradient_stops.rs:39-42 | a chain reaching a non-gradient copies nothing |
| ResolveGradientStops.SourceFollowsHref | src/preproc/resolve_gradient_stops.rs:44-48 | a gradient's source is its target's source |
| ResolvePatternChildren.Source | src/preproc/resolve_pattern_children.rs:25-42 | the href chain, followed through any element, ends at a node without an href |
| ResolvePatternChildren.DeepCopies | src/preproc/resolve_pattern_children.rs:36-39 | `copy_node_deep` of each child, in order |
| ResolvePatternChildren.DeepCopiesFlat | src/preproc/resolve_pattern_children.rs:37 | a deep copy has as many nodes as its original, each with the same kind and attributes, no id, uids consecutive in document order |
| ResolvePatternChildren.AppendDeepCopies | src/preproc/resolve_pattern_children.rs:36-39 | the loop appends the deep copies of the source's children after the pattern's own |
| ResolvePatternChildren.DeepCopiesAppend | src/preproc/resolve_pattern_children.rs:36-39 | copying two forests one after the other numbers the second past the first |
| ResolvePatternChildren.Fill | src/preproc/resolve_pattern_children.rs:12-15 | a pattern gains the deep copies of its source's children, or nothing when the chain fails |
| ResolvePatternChildren.DropPatternHref | src/preproc/resolve_pattern_children.rs:18-22 | a pattern loses its href; other nodes are unchanged |
| ResolvePatternChildren.NoPatternHref | src/preproc/resolve_pattern_children.rs:17-22 | afterwards no pattern carries an href |
| ResolvePatternChildren.CopiesAreFresh | src/preproc/resolve_pattern_children.rs:36-39 | the copied subtrees match the source's node for node in kind and attributes, with no ids and uids unused in the document |
| ResolvePatternChildren.SourceFollowsAnyHref | src/preproc/resolve_pattern_children.rs:26-30 | there is no kind check: a pattern's source is its target's source, whatever the target is |
| ResolveGradientStops.ResolveGradientStopsDoc | src/preproc/resolve_gradient_stops.rs:19-36 | the two loops in order: the childless gradients with an href filled, then every gradient's href dropped (`OnlyEmptyGradientsFilled`, `NoGradientHref`) |
| ResolvePatternChildren.ResolvePatternChildrenDoc | src/preproc/resolve_pattern_children.rs:8-23 | the two loops in order: the childless patterns with an href filled one after another, each turn on the document the earlier turns left, then every pattern's href dropped (`NoPatternHref`, `TurnCopiesAreFresh`, `NestedSourceCopied`) |
| ResolvePatternChildren.FillableUids | src/preproc/resolve_pattern_children.rs:9-11 | the patterns the first loop visits, in document order: each is a pattern with an href and no children |
| ResolvePatternChildren.FillOne | src/preproc/resolve_pattern_children.rs:12-15 | one turn of the first loop, filling the picked pattern from its source in the current document, leaves the root's uid, kind, id and attributes as they were |
| ResolvePatternChildren.FillableUidsComplete | src/preproc/resolve_pattern_children.rs:9-11 | every pattern with an href and no children is picked by the first loop |
| ResolvePatternChildren.FillPatterns | src/preproc/resolve_pattern_children.rs:9-15 | the first loop, turn by turn on the live document, ends in the fold `FillAll` over the picked patterns |
| ResolvePatternChildren.FillAllStep | src/preproc/resolve_pattern_children.rs:12-15 | the first `i + 1` turns are turn `i` applied to the document the first `i` turns left |
| ResolvePatternChildren.TurnCopiesAreFresh | src/preproc/resolve_pattern_children.rs:12-15 | turn `i` extends the fold by one fill of the document the earlier turns left; its copies match that document's source subtree node for node, with no ids and uids unused in that document |
| ResolvePatternChildren.SourceOneHop | src/preproc/resolve_pattern_children.rs:26-35 | a link straight to a node without an href makes that node the source |
| ResolvePatternChildren.DeepCopiesOne | src/preproc/resolve_pattern_children.rs:36-39 | copying one node gives one id-less node of the same kind and attributes, its children copied below it |
| ResolvePatternChildren.FillFromSingle | src/preproc/resolve_pattern_children.rs:36-39 | a childless pattern whose source has one child with one child gains one copy of each, kinds kept |
| ResolvePatternChildren.NestedSourceOrder | src/preproc/resolve_pattern_children.rs:9-11 | on a document where pattern 2 sits inside pattern 1 and links to pattern 3, and pattern 5 links to pattern 1, the first loop picks 2 then 5 |
| ResolvePatternChildren.NestedSourceFirstSource | src/preproc/resolve_pattern_children.rs:25-42 | on that document pattern 2's source is pattern 3 |
| ResolvePatternChildren.NestedSourceFirstTurn | src/preproc/resolve_pattern_children.rs:12-15 | the first turn fills pattern 2 inside pattern 1 and leaves pattern 5 alone |
| ResolvePatternChildren.NestedSourceRectCopy | src/preproc/resolve_pattern_children.rs:36-39 | after the first turn pattern 2 holds one copy of the rect |
| ResolvePatternChildren.NestedSourceSecondSource | src/preproc/resolve_pattern_children.rs:25-35 | the second turn finds pattern 5's source, pattern 1, as the first turn left it |
| ResolvePatternChildren.NestedSourceSecondTurn | src/preproc/resolve_pattern_children.rs:12-15 | the second turn gives pattern 5 a copy of the filled pattern 2, which holds a copy of the rect |
| ResolvePatternChildren.NestedSourceCopied | src/preproc/resolve_pattern_children.rs:8-23 | after the pass pattern 5 holds a pattern without an href that holds a rect: a source filled by an earlier turn is copied filled |
| FixRecursivePattern.CheckAttr | src/preproc/fix_recursive_pattern.rs:18-35 | the node's paint is set to none exactly when it links to the pattern, or to an element some node below which (itself included) paints the same attribute with the pattern; otherwise nothing changes |
| FixRecursivePattern.CheckNodesSnoc | src/preproc/fix_recursive_pattern.rs:17-39 | one more node of the inner loop is one more fill check and stroke check |
| FixRecursivePattern.CheckPatternLoop | src/preproc/fix_recursive_pattern.rs:17-39 | the inner loop checks every node of the pattern, pattern included, in document order |
| FixRecursivePattern.FixRecursivePatternLoop | src/preproc/fix_recursive_pattern.rs:16-40 | the outer loop handles every pattern in document order, each seeing what the earlier ones left |
| FixRecursivePattern.AlignedTrans | src/preproc/fix_recursive_pattern.rs:16-40 | weakening one paint after another is still a weakening |
| FixRecursivePattern.AlignedKeepsUnique | src/preproc/fix_recursive_pattern.rs:16-40 | a weakening keeps uids unique |
| FixRecursivePattern.FindIsOnly | src/preproc/fix_recursive_pattern.rs:21 | with unique uids, the node a link reaches is the only one with that uid |
| FixRecursivePattern.SetOneWeakens | src/preproc/fix_recursive_pattern.rs:22 | setting a painted fill or stroke to none weakens the node |
| FixRecursivePattern.CheckAttrAligned | src/preproc/fix_recursive_pattern.rs:18-35 | one check keeps every node in place and at most turns one Paint into none |
| FixRecursivePattern.CheckNodesAligned | src/preproc/fix_recursive_pattern.rs:17-39 | the inner loop only turns Paints into none |
| FixRecursivePattern.CheckPatternsAligned | src/preproc/fix_recursive_pattern.rs:16-40 | the outer loop only turns Paints into none |
| FixRecursivePattern.OnlyPaintsBecomeNone | src/preproc/fix_recursive_pattern.rs:10-41 | every node is kept in order with its uid, kind, id and attribute set; only a Paint-valued fill or stroke may become none |
| FixRecursivePattern.CheckedCleared | src/preproc/fix_recursive_pattern.rs:20-33 | after a check whose condition held, the node paints that attribute with none |
| FixRecursivePattern.AlignedKeepsClear | src/preproc/fix_recursive_pattern.rs:16-40 | a later weakening cannot reintroduce a paint with the pattern |
| FixRecursivePattern.CheckAttrClears | src/preproc/fix_recursive_pattern.rs:18-35 | after a check the node no longer paints that attribute with the pattern |
| FixRecursivePattern.CheckNodeClears | src/preproc/fix_recursive_pattern.rs:37-38 | after both checks neither fill nor stroke paints with the pattern |
| FixRecursivePattern.CheckNodesClear | src/preproc/fix_recursive_pattern.rs:17-39 | after the inner loop no checked node paints with the pattern |
| FixRecursivePattern.FindMapped | src/preproc/fix_recursive_pattern.rs:17 | a uid-keeping rewrite finds the rewritten node at the same place |
| FixRecursivePattern.DescendantUidsMapped | src/preproc/fix_recursive_pattern.rs:17 | a uid-keeping rewrite leaves every pattern the same descendants |
| FixRecursivePattern.CheckAttrKeepsShape | src/preproc/fix_recursive_pattern.rs:18-35 | a check leaves every pattern's descendants as they were |
| FixRecursivePattern.CheckNodesKeepShape | src/preproc/fix_recursive_pattern.rs:17-39 | the inner loop leaves every pattern's descendants as they were |
| FixRecursivePattern.CheckPatternsKeepShape | src/preproc/fix_recursive_pattern.rs:16-40 | the outer loop leaves every pattern's descendants as they were |
| FixRecursivePattern.CheckPatternsClear | src/preproc/fix_recursive_pattern.rs:16-40 | after the handled patterns, none of their nodes paints with its pattern |
| FixRecursivePattern.NoPatternPaintsItself | src/preproc/fix_recursive_pattern.rs:10-41 | once the pass is done, no node of a pattern, the pattern included, paints its fill or stroke with that pattern |
| FixRecursivePattern.CheckPatterns | src/preproc/fix_recursive_pattern.rs:16-40 | the outer loop over the listed patterns, each checked against the document the earlier ones left (`CheckPatternsAligned`, `CheckPatternsClear`) |
| FixRecursivePattern.FixRecursivePatternDoc | src/preproc/fix_recursive_pattern.rs:10-41 | the outer loop over every pattern of the document in document order (`OnlyPaintsBecomeNone`, `NoPatternPaintsItself`) |
| RmUnusedDefs.UsedUids | src/preproc/rm_unused_defs.rs:37-41 | exactly the uids of the used children, in order |
| RmUnusedDefs.UngroupChildren | src/preproc/rm_unused_defs.rs:33-45 | the used children are queued for moving, in order, and the node for removal |
| RmUnusedDefs.UsedUidsPrefix | src/preproc/rm_unused_defs.rs:37-41 | one more child of the loop queues it exactly when it is used |
| RmUnusedDefs.UsedUidsSnoc | src/preproc/rm_unused_defs.rs:37-41 | the used uids of a longer child list extend those of the shorter |
| RmUnusedDefs.AppendTo | src/preproc/rm_unused_defs.rs:24-26 | `append` adds the node as the last child of the parent, and changes nothing else |
| RmUnusedDefs.Visit | src/preproc/rm_unused_defs.rs:16-22 | an unused referenced child is queued with its used children and the document untouched; any other child queues nothing, and one without children changes nothing |
| RmUnusedDefs.LoopQueuesChildren | src/preproc/rm_unused_defs.rs:16-22 | the removal queue only grows, and only by children of the parent being swept |
| RmUnusedDefs.RemoveAllGone | src/preproc/rm_unused_defs.rs:28-30 | every queued node is gone afterwards, subtree and all |
| RmUnusedDefs.RemoveAllKeepsAbsent | src/preproc/rm_unused_defs.rs:28-30 | removing nodes never brings back an absent uid |
| RmUnusedDefs.QueuedAreRemoved | src/preproc/rm_unused_defs.rs:12-31 | everything queued is a child of the parent, and none of it is left |
| RmUnusedDefs.UnusedChildrenGone | src/preproc/rm_unused_defs.rs:8-10 | no child of the svg found unused is left below the root |
| RmUnusedDefs.AppendToLast | src/preproc/rm_unused_defs.rs:24-26 | after `append` the parent's last child is the appended node |
| RmUnusedDefs.MovedIsLast | src/preproc/rm_unused_defs.rs:24-26 | a moved node ends as its new parent's last child |
| RmUnusedDefs.Loop | src/preproc/rm_unused_defs.rs:16-22 | the loop over the parent's children, each visit made against the document the earlier visits left (`LoopQueuesChildren`, `LoopKeeps`) |
| RmUnusedDefs.MoveNode | src/preproc/rm_unused_defs.rs:25 | `append` of a node with uid u: the node is cut from its place and becomes the parent's last child (`MovedIsLast`) |
| RmUnusedDefs.MoveAll | src/preproc/rm_unused_defs.rs:24-26 | the queued nodes appended to the parent one after the other, in queue order (`MoveAllKeeps`) |
| RmUnusedDefs.RemoveAll | src/preproc/rm_unused_defs.rs:28-30 | `remove_node` of each queued node in queue order (`RemoveAllGone`, `RemoveAllKeeps`) |
| RmUnusedDefs.Impl | src/preproc/rm_unused_defs.rs:12-31 | the sweep of the parent's children, then the moves, then the removals (`QueuedAreRemoved`, `ImplKeeps`) |
| RmUnusedDefs.RemoveUnusedDefs | src/preproc/rm_unused_defs.rs:8-10 | the walk from the svg element (`UnusedChildrenGone`, `RemoveUnusedDefsKeeps`) |
| RmUnusedDefs.Touched | src/preproc/rm_unused_defs.rs:12-45 | the uids queued for moving or removal by the sweep of the parent and by every sweep nested in it |
| RmUnusedDefs.MoveNodeKeeps | src/preproc/rm_unused_defs.rs:25 | moving a node whose uid is in a set changes nothing that a prune of the set keeps |
| RmUnusedDefs.MoveAllKeeps | src/preproc/rm_unused_defs.rs:24-26 | the same for all the moves of a sweep |
| RmUnusedDefs.RemoveNodeKeeps | src/preproc/rm_unused_defs.rs:29 | removing a node whose uid is in a set keeps, in document order, the uids that a prune of the set keeps |
| RmUnusedDefs.RemoveAllKeeps | src/preproc/rm_unused_defs.rs:28-30 | the same for all the removals of a sweep |
| RmUnusedDefs.VisitKeeps | src/preproc/rm_unused_defs.rs:17-21 | one child: queuing changes no node yet, and a nested sweep keeps what lies outside what it queues |
| RmUnusedDefs.LoopKeeps | src/preproc/rm_unused_defs.rs:16-22 | the loop keeps, uid by uid and in order, every node outside the subtrees queued by it or by a nested sweep |
| RmUnusedDefs.ImplKeeps | src/preproc/rm_unused_defs.rs:12-31 | the same for the whole of `remove_unused_defs_impl`, moves and removals included |
| RmUnusedDefs.RemoveUnusedDefsKeeps | src/preproc/rm_unused_defs.rs:8-31 | every node below the root outside the moved and removed subtrees is still there: the same uids in the same document order |
| PrepareNestedSvg.SvgDefaultsEffect | src/preproc/prepare_nested_svg.rs:22-27 | an svg keeps every attribute it had and gains x=0, y=0, width=100%, height=100% where missing; other nodes are unchanged |
| PrepareNestedSvg.SetIfNoneMerge | src/preproc/prepare_nested_svg.rs:23-26 | `set_attribute_if_none` adds its attribute under those the node has |
| PrepareNestedSvg.MergeOrder | src/preproc/prepare_nested_svg.rs:23-26 | the four calls in a row give the four defaults under the node's own attributes |
| PrepareNestedSvg.PrepareSvgEffect | src/preproc/prepare_nested_svg.rs:21-28 | node by node in document order, svgs gain the missing defaults and everything else is as it was |
| PrepareNestedSvg.SvgDefaultsIdempotent | src/preproc/prepare_nested_svg.rs:21-28 | a second `prepare_svg` adds nothing |
| PrepareNestedSvg.AppendTransform | src/preproc/prepare_nested_svg.rs:34 | afterwards the node holds a transform; nothing but its attributes changes |
| PrepareNestedSvg.PrepareNested | src/preproc/prepare_nested_svg.rs:30-44 | the root svg itself is left as it is |
| PrepareNestedSvg.IdentityLeft | src/preproc/prepare_nested_svg.rs:34 | appending to the identity gives the appended transform |
| PrepareNestedSvg.IdentityRight | src/preproc/prepare_nested_svg.rs:36-38 | appending the identity changes nothing |
| PrepareNestedSvg.AppendTransformIs | src/preproc/prepare_nested_svg.rs:34 | `append_transform` multiplies the node's transform, the identity when it has none, by the given one |
| PrepareNestedSvg.AppendTransformTwice | src/preproc/prepare_nested_svg.rs:34-38 | two appends multiply both factors, in order, onto the old transform |
| PrepareNestedSvg.NestWithViewBox | src/preproc/prepare_nested_svg.rs:32-38 | with a viewBox transform: old × translate(x, y) × viewBox transform |
| PrepareNestedSvg.NestWithoutViewBox | src/preproc/prepare_nested_svg.rs:32-35 | without one: old × translate(x, y) |
| PrepareNestedSvg.NestEffect | src/preproc/prepare_nested_svg.rs:31-40 | a nested svg becomes a `g` with the combined transform and its other attributes unchanged; any other node is unchanged |
| PrepareNestedSvg.RetaggedWith | src/preproc/prepare_nested_svg.rs:34-40 | setting the transform keeps every other attribute |
| PrepareNestedSvg.NestLowers | src/preproc/prepare_nested_svg.rs:31-40 | one node is lowered as described |
| PrepareNestedSvg.NestedSvgEffect | src/preproc/prepare_nested_svg.rs:30-44 | node by node below the root svg, every svg is lowered to a `g` and every other node kept |
| PrepareNestedSvg.NoNestedSvgLeft | src/preproc/prepare_nested_svg.rs:30-44 | no svg element is left below the root svg |
| PrepareNestedSvg.PrepareSvg | src/preproc/prepare_nested_svg.rs:21-28 | `SvgDefaults` on every node of the document (`PrepareSvgEffect`, `SvgDefaultsIdempotent`) |
| PrepareNestedSvg.Nest | src/preproc/prepare_nested_svg.rs:31-40 | an svg gets the translate by x and y, then the viewBox transform when there is one, and becomes a `g`; other nodes are left (`NestWithViewBox`, `NestWithoutViewBox`, `NestEffect`) |
| ResolveVisibility.Clear | src/preproc/resolve_visibility.rs:34-44 | a hidden group loses its `visibility` and is no longer hidden; any other node is unchanged |
| ResolveVisibility.ChildMarks | src/preproc/resolve_visibility.rs:46-50 | exactly the children that do not say `visible` themselves |
| ResolveVisibility.Resolve | src/preproc/resolve_visibility.rs:28-57 | the walk keeps every sibling in place |
| ResolveVisibility.ResolveEdits | src/preproc/resolve_visibility.rs:28-57 | the walk's only edit is the node-by-node clearing of hidden groups |
| ResolveVisibility.ChildMarksClear | src/preproc/resolve_visibility.rs:30-47 | walking the children first does not change which of them the group pushes |
| ResolveVisibility.NodeMarks | src/preproc/resolve_visibility.rs:34-55 | a non-group is pushed exactly when hidden; a hidden group pushes exactly its children not saying `visible` |
| ResolveVisibility.MarksOfAppend | src/preproc/resolve_visibility.rs:29 | the marks of two runs of siblings are the union of theirs |
| ResolveVisibility.OwnMarks | src/preproc/resolve_visibility.rs:34-55 | what one node pushes, against its walked children, is its marks |
| ResolveVisibility.PushedStep | src/preproc/resolve_visibility.rs:29-56 | a forest pushes its first subtree's, its first node's own, then the rest's |
| ResolveVisibility.PushedMarks | src/preproc/resolve_visibility.rs:28-57 | the walk pushes exactly the marks of all nodes of the forest, at any depth |
| ResolveVisibility.ResolveVisibility | src/preproc/resolve_visibility.rs:11-26 | corrected: the root keeps its uid and kind; each pushed node is removed once |
| ResolveVisibility.ResolveVisibilityIs | src/preproc/resolve_visibility.rs:11-26 | the corrected pass removes the set of pushed nodes from the cleared tree |
| ResolveVisibility.ClearedOrigin | src/preproc/resolve_visibility.rs:28-57 | every walked node is the cleared form of the original at its place |
| ResolveVisibility.SurvivorOrigin | src/preproc/resolve_visibility.rs:23-25 | a surviving node is one that was neither pushed nor below a pushed node |
| ResolveVisibility.NoHiddenLeft | src/preproc/resolve_visibility.rs:11-65 | corrected: no hidden element is left below the svg element |
| ResolveVisibility.HiddenGroupChildrenGone | src/preproc/resolve_visibility.rs:40-50 | the children of a hidden group that do not say `visible` are gone |
| ResolveVisibility.KeepsTheRest | src/preproc/resolve_visibility.rs:11-26 | exactly the walked nodes outside the removed subtrees remain, in document order, links into removed nodes dropped |
| ResolveVisibility.Dedup | src/preproc/resolve_visibility.rs:21 | `dedup` keeps the same members and first element, never longer, with no two equal neighbours |
| ResolveVisibility.AbsentStays | src/preproc/resolve_visibility.rs:23-25 | a removal never brings a uid back |
| ResolveVisibility.RemoveAbsentFails | src/preproc/resolve_visibility.rs:19-25 | removing a node that is already gone fails |
| ResolveVisibility.RemoveTwiceFails | src/preproc/resolve_visibility.rs:19-25 | a uid listed twice makes the removal loop fail |
| ResolveVisibility.HiddenGroupPushes | src/preproc/resolve_visibility.rs:28-57 | a hidden group holding hidden rectangles 2 and 3 pushes [2, 3, 2, 3] |
| ResolveVisibility.HiddenGroupExample | src/preproc/resolve_visibility.rs:19-25 | as written, `dedup` keeps all four entries and the second removal of rectangle 2 fails |
| ResolveVisibility.NothingHidden | src/preproc/resolve_visibility.rs:28-65 | a forest with nothing hidden is walked unchanged and pushes nothing |
| ResolveVisibility.Idempotent | src/preproc/resolve_visibility.rs:11-26 | running the corrected pass twice gives what running it once does |
| ResolveVisibility.ResolveVisibilityAsWritten | src/preproc/resolve_visibility.rs:11-26 | as written: collect, `dedup`, then remove each entry in turn; None when an entry was already removed (`HiddenGroupExample`) |
| ResolveStyleAttrs.Fallback | src/preproc/resolve_style_attrs.rs:65-98 | a fallback exists exactly for `font-family` and the attributes with a default; it is never a Length, a Length default becoming its Number |
| ResolveStyleAttrs.Inherited | src/preproc/resolve_style_attrs.rs:55-61 | the value of the nearest strict ancestor having the attribute, else its fallback |
| ResolveStyleAttrs.Filled | src/preproc/resolve_style_attrs.rs:52-63 | present attributes are kept; an added one is among those resolved and holds its inherited value; a resolved missing one is added exactly when it has a value |
| ResolveStyleAttrs.FilledStep | src/preproc/resolve_style_attrs.rs:52-63 | one more `resolve` call is one more attribute filled |
| ResolveStyleAttrs.TextAttrsFallBack | src/preproc/resolve_style_attrs.rs:16-23 | every text attribute has a value to fall back on |
| ResolveStyleAttrs.PaintAttrsFallBack | src/preproc/resolve_style_attrs.rs:25-39 | every fill and stroke attribute has a default |
| ResolveStyleAttrs.WantedHaveFallbacks | src/preproc/resolve_style_attrs.rs:65-73 | none of the resolved attributes reaches the unreachable no-default branch |
| ResolveStyleAttrs.ClipRuleOnlyInClipPath | src/preproc/resolve_style_attrs.rs:41-44 | `clip-rule` is resolved exactly on graphic elements whose parent is a `clipPath` |
| ResolveStyleAttrs.ResolveEach | src/preproc/resolve_style_attrs.rs:16-44 | the sequence of `resolve` calls fills each listed attribute |
| ResolveStyleAttrs.ResolveNode | src/preproc/resolve_style_attrs.rs:16-44 | one element gets exactly the attributes its kind resolves filled |
| ResolveStyleAttrs.Visit | src/preproc/resolve_style_attrs.rs:13-44 | nothing but attributes changes, and no present attribute changes |
| ResolveStyleAttrs.WalkNode | src/preproc/resolve_style_attrs.rs:13-48 | an element is resolved and its children see it, resolved, as their parent; other nodes are skipped with their subtree |
| ResolveStyleAttrs.Walk | src/preproc/resolve_style_attrs.rs:12-50 | each child walked in order |
| ResolveStyleAttrs.ResolveStyleAttributes | src/preproc/resolve_style_attrs.rs:8-10 | the root itself is left as it is |
| ResolveStyleAttrs.VisitResolves | src/preproc/resolve_style_attrs.rs:52-98 | a present attribute is kept, an unresolved missing one stays missing, a resolved missing one comes from the nearest ancestor having it or else from its fallback |
| ResolveStyleAttrs.VisitComplete | src/preproc/resolve_style_attrs.rs:16-44 | a resolved element has every attribute its kind resolves |
| ResolveStyleAttrs.WalkCompletes | src/preproc/resolve_style_attrs.rs:12-50 | after the walk every element reached has every attribute its kind resolves |
| ResolveStyleAttrs.WalkComplete | src/preproc/resolve_style_attrs.rs:55 | a complete forest is left as it is |
| ResolveStyleAttrs.Idempotent | src/preproc/resolve_style_attrs.rs:8-10 | running the pass twice gives what running it once does |
| UngroupSwitch.FeatureByName | src/preproc/ungroup_switch.rs:10-39 | a feature string is supported exactly when it is the SVG 1.1 feature prefix followed by one of the twenty names of the table |
| UngroupSwitch.JoinSplit | src/preproc/ungroup_switch.rs:91 | splitting on single spaces loses nothing: the pieces joined with spaces give the attribute text back |
| UngroupSwitch.SplitJoin | src/preproc/ungroup_switch.rs:91 | pieces without spaces, empty ones included, come back out of their join, so every space separates two pieces |
| UngroupSwitch.IsValidChild | src/preproc/ungroup_switch.rs:75-100 | false when `requiredExtensions` is present, false when some space-separated piece of a string `requiredFeatures` is not a supported feature, true otherwise |
| UngroupSwitch.FeatureList | src/preproc/ungroup_switch.rs:89-97 | a list of feature names written with single spaces passes exactly when each of them is supported |
| UngroupSwitch.EmptyFeaturesFail | src/preproc/ungroup_switch.rs:91-94 | an empty `requiredFeatures` fails: its one piece is the empty string |
| UngroupSwitch.UnlistedFeatureFails | src/preproc/ungroup_switch.rs:10-39 | a feature whose name is not in the table fails the test |
| UngroupSwitch.FilterFeatureFails | src/preproc/ungroup_switch.rs:35 | the filter feature, commented out of the table, fails the test |
| UngroupSwitch.FirstValidIndex | src/preproc/ungroup_switch.rs:47-53 | the position of an SVG-element child that passes the test with none before it; None exactly when no SVG-element child passes |
| UngroupSwitch.FindValidChild | src/preproc/ungroup_switch.rs:45-53 | the loop over the SVG-element children returns the first one that passes the test, or None |
| UngroupSwitch.FirstValidAt | src/preproc/ungroup_switch.rs:47-53 | a passing child with no passing child before it is the one the loop finds |
| UngroupSwitch.FirstSwitch | src/preproc/ungroup_switch.rs:44 | the first `switch` of the document in order, or None exactly when there is no `switch` |
| UngroupSwitch.Dropped | src/preproc/ungroup_switch.rs:60-63 | every child of the switch other than the kept one is removed, text nodes included, and the kept one is not |
| UngroupSwitch.RemoveKeepsSwitches | src/preproc/ungroup_switch.rs:64 | removing the other children creates no `switch` |
| UngroupSwitch.RetagDropsSwitch | src/preproc/ungroup_switch.rs:67-71 | after `set_tag_name(G)` the switch is no longer a `switch`, and no other node becomes one |
| UngroupSwitch.StepFewer | src/preproc/ungroup_switch.rs:44-72 | each round of the loop strictly shrinks the set of `switch` elements |
| UngroupSwitch.NoValidChildHangs | src/preproc/ungroup_switch.rs:55-58 | as written, when the first `switch` has no valid child, `continue` finds the same switch again and the loop never ends, however many rounds it is given |
| UngroupSwitch.ExtensionOnlySwitchHangs | src/preproc/ungroup_switch.rs:44-58 | as written, a switch whose only child is a `rect` with `requiredExtensions` keeps the loop running for ever |
| UngroupSwitch.Ungroup | src/preproc/ungroup_switch.rs:41-73 | corrected (a switch without a valid child is emptied; see Findings): with a switch without a valid child emptied, the loop ends and no `switch` is left in the document |
| UngroupSwitch.UngroupSwitch | src/preproc/ungroup_switch.rs:41-73 | corrected (a switch without a valid child is emptied; see Findings): the loop computes `Ungroup` of the document and leaves no `switch` |
| UngroupSwitch.NoSwitchUnchanged | src/preproc/ungroup_switch.rs:44 | a document without `switch` elements is left as it is |
| UngroupSwitch.Idempotent | src/preproc/ungroup_switch.rs:41-73 | corrected (a switch without a valid child is emptied; see Findings): running the pass twice gives what running it once does |
| UngroupSwitch.UngroupSwitchAsWritten | src/preproc/ungroup_switch.rs:41-73 | as written, for at most `fuel` rounds: each round takes the first switch of the document; one without a valid child is met again next round; None when the rounds run out (`NoValidChildHangs`) |
| DocDrain.Drain | src/preproc/rm_invisible_elems.rs:67-87 | the uids it reports are the nodes it removed, in visit order; a drain that removes none leaves the document as it was, and one that removes any leaves fewer nodes |
| DocDrain.DrainOrigin | src/preproc/rm_invisible_elems.rs:31-39 | every node a drain leaves was a node of the document before it, with the same uid, kind and id and its attributes minus at most some links |
| DocDrain.DrainUnique | src/preproc/rm_invisible_elems.rs:31-39 | a drain keeps uids unique |
| DocDrain.DrainClean | src/preproc/rm_invisible_elems.rs:31-39 | when the test is a property of the node alone that losing links cannot create, no node has it after the drain |
| DocDrain.DrainKeepsAbsent | src/preproc/rm_invisible_elems.rs:10-16 | a property that losing links cannot create, absent before a drain, is absent after it |
| DocDrain.MatchedOrigin | src/preproc/rm_invisible_elems.rs:31-39 | every node the drain removed had, in the document it started from, any property its test implies that losing links cannot create |
| DocDrain.DrainAllNone | src/preproc/rm_invisible_elems.rs:93 | with unique uids, a drain that removes nothing leaves no node its test matches |
| RmInvisibleElems.NoDisplayNoneLeft | src/preproc/rm_invisible_elems.rs:30-39 | no node below the root keeps `display="none"` unless it is a clipPath |
| RmInvisibleElems.DisplayRemovesOnlyHidden | src/preproc/rm_invisible_elems.rs:31-39 | the display drain removes, with their subtrees, only nodes that have `display="none"` and are not clipPaths |
| RmInvisibleElems.ClipPathStays | src/preproc/rm_invisible_elems.rs:33 | of a clipPath and a rect both with `display="none"`, the rect goes and the clipPath stays |
| RmInvisibleElems.ZeroOpacityRemovesOnlyZero | src/preproc/rm_invisible_elems.rs:48-61 | the opacity drain removes, with their subtrees, only nodes whose opacity is the number zero |
| RmInvisibleElems.ZeroAloneGoes | src/preproc/rm_invisible_elems.rs:49-55 | an unused rect with opacity zero outside `defs` is removed |
| RmInvisibleElems.ZeroInDefsStays | src/preproc/rm_invisible_elems.rs:53 | the same rect inside `defs` stays, and the document is unchanged |
| RmInvisibleElems.ZeroUsedStays | src/preproc/rm_invisible_elems.rs:49 | the same rect referenced by a `use` stays, and the document is unchanged |
| RmInvisibleElems.SweepRemovesOnlyUse | src/preproc/rm_invisible_elems.rs:67-87 | a sweep removes, with their subtrees, only `use` elements |
| RmInvisibleElems.RmUse | src/preproc/rm_invisible_elems.rs:64-94 | the loop sweeps until a sweep removes nothing; with unique uids, no `use` is then left without a Link href |
| RmInvisibleElems.NoDanglingUse | src/preproc/rm_invisible_elems.rs:67-93 | after the sweeps no `use` lacks `xlink:href` or has a href that is not a Link |
| RmInvisibleElems.SweepsKeepAbsent | src/preproc/rm_invisible_elems.rs:90-93 | a property that losing links cannot create, absent before the sweeps, is absent after them |
| RmInvisibleElems.UseChainFirstSweep | src/preproc/rm_invisible_elems.rs:90-92 | one sweep over a `use` of an href-less `use` removes the inner one and leaves the outer one without its href |
| RmInvisibleElems.UseChainSweeps | src/preproc/rm_invisible_elems.rs:93 | the sweeps remove both, so the repeat is needed |
| RmInvisibleElems.InvisibleGone | src/preproc/rm_invisible_elems.rs:9-17 | with unique uids, after the pass no node keeps `display="none"` unless it is a clipPath and no `use` lacks a Link href, since the opacity drain and the sweeps cannot create `display="none"` |
| RmInvisibleElems.HiddenTargetGone | src/preproc/rm_invisible_elems.rs:13-16 | a `use` of a `display="none"` rect loses its href when the rect goes, and the sweeps that run last then remove it |
| DocDrain.DrainAll | src/preproc/rm_invisible_elems.rs:31-39 | one drain keeps the root; it reports no removal exactly when it leaves the document as it was, and a drain that removes something makes the document smaller |
| RmInvisibleElems.RmDisplayNone | src/preproc/rm_invisible_elems.rs:19-40 | one drain of the non-clipPath nodes with `display="none"` (`NoDisplayNoneLeft`, `DisplayRemovesOnlyHidden`) |
| RmInvisibleElems.UseSweeps | src/preproc/rm_invisible_elems.rs:93 | `use` sweeps until one removes nothing; it ends because each removing sweep makes the document smaller (`RmUse`, `NoDanglingUse`) |
| RmInvisibleElems.RemoveInvisibleElements | src/preproc/rm_invisible_elems.rs:9-17 | the display drain, the opacity drain, then the `use` sweeps (`InvisibleGone`, `HiddenTargetGone`) |
| RmInvalidShapes.OnlyShapes | src/preproc/rm_invalid_shapes.rs:27-34 | only rects, polylines, polygons, circles, ellipses and paths can be found invalid; every other kind is kept |
| RmInvalidShapes.InvalidIffNoPath | src/preproc/rm_invalid_shapes.rs:44-95 | a rect, polyline, polygon, circle or ellipse is removed exactly when `shapes::convert` gives it no path: width or height not positive (missing = 0), fewer than two points, r or rx or ry not positive; a line is never removed |
| RmInvalidShapes.InvalidUidsMembers | src/preproc/rm_invalid_shapes.rs:26-39 | the uids pushed during the scan are exactly those of the invalid nodes scanned |
| RmInvalidShapes.CollectInvalid | src/preproc/rm_invalid_shapes.rs:24-39 | the scan pushes, in document order, the uid of each invalid node; these are the invalid nodes below the root, and the root too only if it were an invalid element |
| RmInvalidShapes.RemoveInvalidShapes | src/preproc/rm_invalid_shapes.rs:23-42 | on a document root, removing what the scan collected, after the scan, is the removal of every invalid node below the root |
| RmInvalidShapes.NoInvalidLeft | src/preproc/rm_invalid_shapes.rs:97-107 | afterwards no invalid shape is left, in particular no path without `d` or with fewer than two segments, because dropping links never changes the test's answer |
| RmInvalidShapes.KeepsTheRest | src/preproc/rm_invalid_shapes.rs:41 | what remains is exactly the nodes that are neither invalid nor below an invalid one, in document order, with only their links into removed nodes dropped |
| RmInvalidShapes.Idempotent | src/preproc/rm_invalid_shapes.rs:23-42 | running the pass twice gives what running it once does |
| RmInvalidShapes.WithoutInvalidShapes | src/preproc/rm_invalid_shapes.rs:41 | the root kept and every invalid shape removed with its subtree (`KeepsTheRest`, `NoInvalidLeft`) |
| RmInvalidPatterns.RemoveInvalidPatterns | src/preproc/rm_invalid_patterns.rs:24-66 | the scan over the live document's pre-order, rewriting the users of each invalid pattern as it is found and removing the collected patterns afterwards, gives the same document as rewriting every link into an invalid pattern at once and then removing them all |
| RmInvalidPatterns.LiveNode | src/preproc/rm_invalid_patterns.rs:28-38 | a rewrite already done does not change what the scan's later test sees: the node at each position keeps its uid and its width, height and children |
| RmInvalidPatterns.NullDocTwice | src/preproc/rm_invalid_patterns.rs:40-58 | setting the links into one pattern to `none` and then those into another is setting the links into both, since `none` links nowhere |
| RmInvalidPatterns.KeepsTheRest | src/preproc/rm_invalid_patterns.rs:40-65 | what remains below the root is exactly the nodes with no invalid pattern at or above them, in document order, each with its `Link`/`FuncLink` SVG attributes into invalid patterns set to `none` and its other links into removed nodes dropped |
| RmInvalidPatterns.LinksSetToNone | src/preproc/rm_invalid_patterns.rs:29-58 | node by node: a kept node is not an invalid pattern (width and height positive, children present); a `Link` or `FuncLink` SVG attribute of it into an invalid pattern now holds `none`; a paint or custom attribute into one is gone with the pattern; an attribute linking to no removed node is untouched |
| RmInvalidPatterns.NoInvalidPatternLeft | src/preproc/rm_invalid_patterns.rs:60-65 | no pattern the scan found invalid is left, and no attribute links to one |
| RmInvalidPatterns.NestedFirst | src/preproc/rm_invalid_patterns.rs:36-38 | in a 1x1 pattern whose only child is a pattern without a size, the inner pattern goes and the outer one is kept, now without children |
| RmInvalidPatterns.NestedSecond | src/preproc/rm_invalid_patterns.rs:36-38 | the pass is not idempotent: a second run removes the pattern the first one emptied |
| RmInvalidPatterns.WithoutInvalidPatterns | src/preproc/rm_invalid_patterns.rs:40-65 | the root kept, the links into the invalid patterns set to `none`, then the patterns removed (`KeepsTheRest`, `LinksSetToNone`) |
| RmInvalidClipPath.ValidCountZero | src/preproc/rm_invalid_clip_path.rs:24-38 | the count of shape and text children is zero exactly when no element child is a rect, polyline, polygon, circle, ellipse, path or text element |
| RmInvalidClipPath.CountValidChildren | src/preproc/rm_invalid_clip_path.rs:24-36 | the `valid_children` loop returns zero exactly when no child of the node is one of the seven clipping kinds |
| RmInvalidClipPath.CollectInvalid | src/preproc/rm_invalid_clip_path.rs:21-41 | the scan collects, in document order, exactly the uids of the clipPath elements with no clipping child |
| RmInvalidClipPath.UsersAreAllUsers | src/preproc/rm_invalid_clip_path.rs:43-49 | the users of the collected clipPaths, looked up in the document as it was, are exactly the nodes with an attribute linking to an invalid clipPath |
| RmInvalidClipPath.RemoveInvalidClipPaths | src/preproc/rm_invalid_clip_path.rs:20-52 | collecting the invalid clipPaths and then every user of them, all in the document as it was, and removing both gives the document without every invalid clipPath and every user of one |
| RmInvalidClipPath.NoInvalidClipLeft | src/preproc/rm_invalid_clip_path.rs:43-51 | no invalid clipPath and no node that used one is left |
| RmInvalidClipPath.KeepsTheRest | src/preproc/rm_invalid_clip_path.rs:20-52 | what remains below the root is exactly the nodes with no invalid clipPath or user of one at or above them, in document order, with only their links into removed nodes dropped; none of them is an invalid clipPath or links to one |
| RmInvalidClipPath.ClipChainKeepsUser | src/preproc/rm_invalid_clip_path.rs:45-51 | as written, with an empty clipPath 1, a clipPath 2 that uses 1, and a rect that uses 2: removing 2 as a user of 1 drops the rect's link to 2, so the rect is kept, unclipped |
| RmInvalidClipPath.ClipChainRemovesUser | src/preproc/rm_invalid_clip_path.rs:43-51 | with the users looked up before any removal, the same document loses the rect too |
| RmInvalidClipPath.AsWritten | src/preproc/rm_invalid_clip_path.rs:20-52 | as written: the root kept; the users of each invalid clipPath removed in turn, each lookup made after the earlier removals, then the clipPaths (`ClipChainKeepsUser`) |
| RmInvalidClipPath.WithoutInvalidClipPaths | src/preproc/rm_invalid_clip_path.rs:20-52 | corrected: the root kept; the invalid clipPaths and all their users, looked up first, removed at once (`NoInvalidClipLeft`, `KeepsTheRest`) |
| RmInvalidClipPath.CollectUsers | src/preproc/rm_invalid_clip_path.rs:45-49 | the users of all the collected clipPaths, each looked up in the document as it was |
| PrepareClipPath.SetUnitsAttrs | src/preproc/prepare_clip_path.rs:16-17 | a clipPath's string clipPathUnits is kept; without one it gets `userSpaceOnUse`; no other attribute changes |
| PrepareClipPath.BlackenAttrs | src/preproc/prepare_clip_path.rs:19-33 | an element of a clipPath gets fill black, stroke `none`, opacity 1 and, as fill-rule, its string clip-rule or `nonzero`; every other attribute is kept |
| PrepareClipPath.StepCompose | src/preproc/prepare_clip_path.rs:15-34 | rewriting a node for one clipPath and then for another is rewriting it for both, so a node inside nested clipPaths ends the same however often it is reached |
| PrepareClipPath.WalkCompose | src/preproc/prepare_clip_path.rs:15-35 | the same for a whole forest: the rounds of the outer loop compose into one rewrite for all the clipPaths reached |
| PrepareClipPath.PrepareClipPaths | src/preproc/prepare_clip_path.rs:14-36 | the loop over the live document, one clipPath at a time, gives the document with every clipPath handled |
| PrepareClipPath.InsidePrepared | src/preproc/prepare_clip_path.rs:19-33 | below a clipPath every node, in document order, becomes its prepared form: the four writes on each element, the units on each clipPath |
| PrepareClipPath.PreparedNodes | src/preproc/prepare_clip_path.rs:15-35 | below the root, the nodes outside every clipPath keep their attributes, in order, and every node at or below a clipPath, the clipPath included, becomes its prepared form |
| PrepareClipPath.Idempotent | src/preproc/prepare_clip_path.rs:14-36 | running the pass twice gives what running it once does |
| PrepareClipPath.Prepared | src/preproc/prepare_clip_path.rs:14-36 | the root kept, and every node below a clipPath prepared (`InsidePrepared`, `PreparedNodes`) |
| UngroupGroups.Scan | src/preproc/ungroup_groups.rs:47-92 | the recursive scan appends, for each child in order, the groups of its subtree and then the child itself when it passes the tests, which is the push order `Selection` defines |
| UngroupGroups.SelectionGroups | src/preproc/ungroup_groups.rs:53-57 | the scan pushes only `g` elements, and it pushes every empty `g` at any depth whatever its name, position or attributes |
| UngroupGroups.NothingSelected | src/preproc/ungroup_groups.rs:33-38 | when the scan pushes nothing, no empty group is left anywhere and no top-level node is a group the tests would pass |
| UngroupGroups.PrepareAttribute | src/preproc/ungroup_groups.rs:119-155 | `prepare_attribute` handles the attribute exactly when it is `display`, or an opacity or transform the child already has; otherwise `set_attribute_if_none` takes over |
| UngroupGroups.LiftAttrs | src/preproc/ungroup_groups.rs:94-103 | an element child gains every SVG attribute of the group it lacks, has its own opacity multiplied by the group's and its own transform composed after the group's, has its display overwritten, and keeps every other attribute of its own |
| UngroupGroups.LiftBare | src/preproc/ungroup_groups.rs:94-116 | a group with no SVG attribute changes nothing on its children except that an only child without an id takes the group's id |
| UngroupGroups.OpacityThroughTwo | src/preproc/ungroup_groups.rs:120-128 | an element below two nested groups that are taken apart one after the other ends with the product of the three opacities, a missing one counting as 1 |
| UngroupGroups.CheckedOpacity | src/preproc/ungroup_groups.rs:82-87 | with the recheck, every group that carries an opacity when it is taken apart has at most one child |
| UngroupGroups.SpliceKeeps | src/preproc/ungroup_groups.rs:105-116 | taking groups apart keeps every node that is not a `g`, in document order: a group's children stand in its place, in their order |
| UngroupGroups.SpliceGroups | src/preproc/ungroup_groups.rs:40-43 | a round adds no group |
| UngroupGroups.SpliceShrinks | src/preproc/ungroup_groups.rs:33-44 | a round given every group the scan pushed takes at least one group apart, so the outer loop ends |
| UngroupGroups.RoundKeeps | src/preproc/ungroup_groups.rs:40-43 | a round, `remove_node` included, keeps every non-group node below the svg element in document order and removes groups only |
| UngroupGroups.RoundShrinks | src/preproc/ungroup_groups.rs:33-44 | while the scan pushes something, a round leaves fewer groups below the svg element |
| UngroupGroups.SpliceNothing | src/preproc/ungroup_groups.rs:36-38 | a round with nothing pushed changes nothing |
| UngroupGroups.UngroupGroupsPass | src/preproc/ungroup_groups.rs:30-45 | the pass ends; afterwards the scan pushes nothing, and every node below the svg element that is not a group is still there, in document order |
| UngroupGroups.NestedOpacityPicked | src/preproc/ungroup_groups.rs:82-89 | a group with opacity 0.5 whose only child is a group of two elements: the scan pushes both groups |
| UngroupGroups.NestedOpacitySpreads | src/preproc/ungroup_groups.rs:40-43 | as written the outer group's opacity reaches the inner group, which is taken apart too, so both elements end with opacity 0.5 each |
| UngroupGroups.NestedOpacityKept | src/preproc/ungroup_groups.rs:82-87 | with the recheck the inner group stays with opacity 0.5 over both elements |
| UngroupGroups.Selects | src/preproc/ungroup_groups.rs:53-89 | the push tests: a `g` that is empty, or that is not a kept named group, not inside a clipPath unless it comes from a `use`, has no clip-path or mask link, and has one child if it has an opacity |
| UngroupGroups.Splice | src/preproc/ungroup_groups.rs:105-116 | the pop loop as a rewrite from the top: a group taken apart is replaced by its children, each lifted out of it (`SpliceKeeps`, `SpliceGroups`) |
| UngroupGroups.Round | src/preproc/ungroup_groups.rs:40-43 | one round on the svg element: the groups taken apart and the links into them dropped; the svg element keeps its uid, kind and id (`RoundKeeps`, `RoundShrinks`) |
| Regroup.RegroupElements | src/preproc/regroup.rs:23-75 | the sibling walk gives, in place of each child, the child with its own children regrouped first and then wrapped when the tests pass; the saved next sibling makes every original sibling visited once |
| Regroup.RegroupDocument | src/preproc/regroup.rs:23-27 | the pass on the root `svg` element, with the new groups' uids past every uid of the document |
| Dom.FreshBase | src/preproc/regroup.rs:50 | `create_element` gives a node no existing node shares: the base is past every uid of the document |
| Regroup.Wrap | src/preproc/regroup.rs:50-73 | the new `g` has no id, carries exactly the element's `clip-path`, `opacity` and `transform` with their values, and holds as its only child the element without those three and with its children unchanged |
| Regroup.KeptIff | src/preproc/regroup.rs:36-48 | an element is left unwrapped, with its tag, id and attributes, exactly when it is a `g` or `defs`, has opacity 1 (absent or non-Number counting as 1) and no `clip-path`, or is a `clipPath` or lies inside one |
| Regroup.WrappedShape | src/preproc/regroup.rs:50-73 | a wrapped element's place is taken by a new `g` with its three group attributes and nothing else, whose one child is the element minus those attributes with its children regrouped |
| Regroup.UnwrapRegroup | src/preproc/regroup.rs:50-73 | putting each new group's attributes back on its child and dissolving the group gives back the original forest exactly: the pass moves attributes and adds groups, and loses or changes nothing else |
| Regroup.RegroupSettles | src/preproc/regroup.rs:36-48 | after the pass no node at any depth passes the wrapping tests: a new group is a `g`, and its child has no opacity and no clip path left |
| Regroup.SettledUnchanged | src/preproc/regroup.rs:36-48 | a forest in which no node passes the tests is left exactly as it is |
| Regroup.Idempotent | src/preproc/regroup.rs:23-75 | running the pass a second time changes nothing, whatever uids the second run would hand out |
| Regroup.InClipUnchanged | src/preproc/regroup.rs:45-48 | nothing inside a `clipPath` is wrapped, at any depth |
| Regroup.FreshGroup | src/preproc/regroup.rs:50 | a new group's uid belongs to no node of the original document |
| Regroup.RegroupNode | src/preproc/regroup.rs:29-73 | one element: its children regrouped first, then the element wrapped in a new group when it passes the tests (`KeptIff`, `WrappedShape`) |
| Regroup.Regroup | src/preproc/regroup.rs:28-74 | one `RegroupNode` per sibling, in place and in order (`RegroupElements`, `Idempotent`) |
| Regroup.Unwrap | src/preproc/regroup.rs:50-73 | the reference inverse: each new group's attributes put back on its only child, one `UnwrapNode` per sibling (`UnwrapRegroup`) |
| ResolveUse.UseDefaults | src/preproc/resolve_use.rs:28-35 | on a `use`, x=0, y=0, width=100% and height=100% are set exactly where the node has none and every attribute it has is kept; any other node is unchanged |
| ResolveUse.DefaultsMerge | src/preproc/resolve_use.rs:30-33 | the four `set_attribute_if_none` calls in sequence equal one merge of the four defaults under the node's own attributes |
| ResolveUse.PrepareUseEffect | src/preproc/resolve_use.rs:28-35 | node by node in document order, every `use` keeps its attributes and gains the four defaults where missing; every other node keeps its attributes; no node is added, removed or renamed |
| ResolveUse.UseDefaultsIdempotent | src/preproc/resolve_use.rs:28-35 | a second `prepare_use` changes nothing |
| ResolveUse.CheckRecursive | src/preproc/resolve_use.rs:74-83 | the loop over the target's strict descendants answers true exactly when some `use` below the target links back to the `use` being expanded |
| ResolveUse.Classify | src/preproc/resolve_use.rs:48-94 | a `use` is expanded only when its href is a Link, and then into the node the document holds under that uid |
| ResolveUse.ExpandIff | src/preproc/resolve_use.rs:49-91 | a `use` is expanded exactly when its href links to a node that is neither a `use` nor an `svg` and has no `use` below it linking back |
| ResolveUse.RejectIff | src/preproc/resolve_use.rs:56-89 | a `use` is set aside for removal exactly when it links to an `svg`, or to a non-`use` node with a `use` below it linking back |
| ResolveUse.UseToUseSkipped | src/preproc/resolve_use.rs:52-54 | a `use` linking to another `use` is neither expanded nor removed by this sweep |
| ResolveUse.BackLinkRejected | src/preproc/resolve_use.rs:64-72 | the example of the comment: `use1` linking to `g1`, which holds a `use` linking to `use1`, is rejected |
| ResolveUse.PreparedUseAttrs | src/preproc/resolve_use.rs:114-149 | after the edits to the `use`, it has no href, x, y, width or height, keeps every other attribute, and has a transform when it had one or when x or y is non-zero |
| ResolveUse.FoldShift | src/preproc/resolve_use.rs:114-149 | exactly those keys; when shifted the transform is the given one; every other kept attribute keeps its value |
| ResolveUse.TranslateFolded | src/preproc/resolve_use.rs:122-131 | with x or y non-zero, the transform passed on is the `use`'s own (identity if none) followed by translate(x, y) |
| ResolveUse.TransformUntouched | src/preproc/resolve_use.rs:126 | with x and y both zero the transform, present or absent, is passed on untouched |
| ResolveUse.PreparedKept | src/preproc/resolve_use.rs:114-149 | every kept attribute other than the transform keeps its value |
| ResolveUse.MergedKeys | src/preproc/resolve_use.rs:152-164 | the copy ends with its own attributes plus the `use`'s SVG attributes, no others |
| ResolveUse.MergedGained | src/preproc/resolve_use.rs:160-163 | an SVG attribute of the `use` that the copy lacks is set on the copy with its value |
| ResolveUse.MergedKept | src/preproc/resolve_use.rs:152-164 | an attribute of the copy other than opacity, transform, display and font-size is never replaced |
| ResolveUse.MergedOpacity | src/preproc/resolve_use.rs:153 | the copy's opacity becomes the product of the `use`'s and its own |
| ResolveUse.MergedTransform | src/preproc/resolve_use.rs:153 | the copy's transform becomes the `use`'s transform followed by its own |
| ResolveUse.MergedDisplay | src/preproc/resolve_use.rs:153 | the `use`'s display overwrites the copy's |
| ResolveUse.MergedFontSize | src/preproc/resolve_use.rs:157-163 | the copy's font-size is replaced by the `use`'s only when the copy carries `resolved-font-size` |
| ResolveUse.MergedVsPushed | src/preproc/resolve_use.rs:152-164 | the merge has the same keys as the group-to-child rule and agrees with it everywhere except a font-size the copy only inherited |
| ResolveUse.ClipRect | src/preproc/resolve_use.rs:232-252 | a clip rectangle exists only when x, y, width and height are all Numbers, and it is exactly those four |
| ResolveUse.ClipRectFullSize | src/preproc/resolve_use.rs:242-249 | given the four Numbers and the image size, no clip is made exactly when width and height equal the svg's |
| ResolveUse.Decimal | src/preproc/resolve_use.rs:257 | the decimal form of k is non-empty, one digit exactly when k < 10 |
| ResolveUse.DecimalInjective | src/preproc/resolve_use.rs:257 | distinct counter values print differently |
| ResolveUse.ClipIdInjective | src/preproc/resolve_use.rs:257 | distinct counter values give distinct `clipPath` ids |
| ResolveUse.FreeIndexLeast | src/preproc/resolve_use.rs:255-263 | the counter stops at the least value from its start whose id no node has: at or after the start, free, and every value between taken |
| ResolveUse.GenClipPathId | src/preproc/resolve_use.rs:255-263 | the loop returns that least free value and its id, which no node of the document has, and the counter never goes back |
| ResolveUse.FreeIndexStep | src/preproc/resolve_use.rs:257-260 | one step of the search: a taken id is passed and no later counter value can need it again |
| ResolveUse.ViewBoxTransform | src/preproc/resolve_use.rs:265-281 | a viewBox transform is made exactly when the `use`'s width and height are Numbers and the symbol has a viewBox |
| ResolveUseLoop.HeadUniqueIff | src/preproc/resolve_use.rs:170-176 | the two readings of "no two nodes share a uid" agree |
| ResolveUseLoop.InsertAfterHeads | src/preproc/resolve_use.rs:141 | `insert_after` changes no node and adds exactly the nodes of the new subtree, and does so exactly when the `use` is in the forest |
| ResolveUseLoop.AppendToHeads | src/preproc/resolve_use.rs:207 | appending the `clipPath` to `defs` changes no node and adds exactly its nodes, when `defs` is there |
| ResolveUseLoop.RelinkHeads | src/preproc/resolve_use.rs:170-173 | after relinking, the nodes are exactly the old ones with every node linking to the `use` given an href to the new node |
| ResolveUseLoop.RelinkUnique | src/preproc/resolve_use.rs:170-173 | relinking keeps uids unique and removes no node |
| ResolveUseLoop.PlaceCopy | src/preproc/resolve_use.rs:136-167 | for a non-`symbol` the inserted node is the deep copy: the target's kind, the `use`'s id, the merge of the `use`'s attributes into the target's, children copied node by node with new uids, no clip, counter unchanged |
| ResolveUseLoop.PlaceSymbol | src/preproc/resolve_use.rs:179-230 | a `symbol` becomes a `g` with the `use`'s id, the `use`'s attributes merged into the viewBox transform, copies of the symbol's children; it is clipped exactly when the clip rectangle exists and there is a `defs` |
| ResolveUseLoop.PlaceClip | src/preproc/resolve_use.rs:196-219 | with a clip, the `g` goes inside a new `g` linking to a new `clipPath`, numbered by the least free counter value, whose id no node has |
| ResolveUseLoop.ClippedShape | src/preproc/resolve_use.rs:196-219 | the outer `g` holds only the inner one and has only a clip-path link to the new `clipPath`; that has the counter's id and one `rect` with the clip rectangle's x, y, width and height |
| ResolveUseLoop.FreeIdUnused | src/preproc/resolve_use.rs:206 | the clip id chosen belongs to no node of the document |
| ResolveUseLoop.PlaceParts | src/preproc/resolve_use.rs:136-143 | the nodes built are numbered from the counter: a copy, or a `g`, an outer `g`, a `clipPath` and a `rect`, over copies numbered after them |
| ResolveUseLoop.PlacedFresh | src/preproc/resolve_use.rs:136-143 | the nodes an expansion creates have distinct uids, all in the range reserved for them |
| ResolveUseLoop.InsertedHeads | src/preproc/resolve_use.rs:136-143 | placement keeps every node there was and adds only the new ones |
| ResolveUseLoop.AppendedHeads | src/preproc/resolve_use.rs:207 | appending the `clipPath` keeps every node and adds only the `clipPath` and its `rect` |
| ResolveUseLoop.RemoveInv | src/preproc/resolve_use.rs:176 | `remove_node` keeps uids unique and below the counter |
| ResolveUseLoop.RemoveAllInv | src/preproc/resolve_use.rs:102-104 | removing the rejected `use` elements one by one keeps uids unique and below the counter |
| ResolveUseLoop.InsertedInv | src/preproc/resolve_use.rs:136-143 | after placement uids are still unique and below the advanced counter |
| ResolveUseLoop.ExpandInv | src/preproc/resolve_use.rs:108-177 | one `_resolve_use` keeps uids unique and the counter past all of them |
| ResolveUseLoop.ExpandRemovesUse | src/preproc/resolve_use.rs:176 | the expanded `use` is gone from the document |
| ResolveUseLoop.ExpandUnlinksUse | src/preproc/resolve_use.rs:169-176 | after an expansion no attribute of any node links to the `use` |
| ResolveUseLoop.UseUids | src/preproc/resolve_use.rs:48 | the snapshot lists every `use` of the forest |
| ResolveUseLoop.SweepCons | src/preproc/resolve_use.rs:48-94 | a sweep visits the first `use` of its list against the current document, then sweeps the rest |
| ResolveUseLoop.PlaceUse | src/preproc/resolve_use.rs:136-143 | builds exactly what `Place` describes, `symbol` or copy |
| ResolveUseLoop.ResolveSymbol | src/preproc/resolve_use.rs:179-230 | builds exactly what `Place` describes for a `symbol`, searching the clip id with `gen_clip_path_id` |
| ResolveUseLoop.ExpandStep | src/preproc/resolve_use.rs:108-177 | returns exactly `ExpandUse`: place, relink to the node that took the `use`'s attributes, remove the `use` |
| ResolveUseLoop.VisitUse | src/preproc/resolve_use.rs:48-94 | performs exactly one `Visit`: skip, set aside, or expand, with the recursion test as its own loop |
| ResolveUseLoop.SweepUses | src/preproc/resolve_use.rs:46-98 | the inner loop over the snapshot equals one `SweepOnce`, each visit seeing the edits of the earlier ones |
| ResolveUseLoop.RemoveRejected | src/preproc/resolve_use.rs:102-104 | removes the set-aside `use` elements one by one, as `RemoveAll` |
| ResolveUseLoop.Round | src/preproc/resolve_use.rs:44-105 | one turn of the outer loop: if it expanded something the rest of the pass is the loop on the new state, otherwise the pass ends with this document |
| ResolveUseLoop.ResolveUseDoc | src/preproc/resolve_use.rs:37-106 | the whole loop returns what `ResolveUseIn` describes, with the flag telling whether it stopped by itself within `fuel` sweeps |
| ResolveUseLoop.ResolveStep | src/preproc/resolve_use.rs:43-105 | unfolds one turn of the outer loop into a sweep, the removal, and the loop on what follows |
| ResolveUseLoop.VisitInv | src/preproc/resolve_use.rs:48-94 | one visit keeps uids unique and the counter past them |
| ResolveUseLoop.SweepInv | src/preproc/resolve_use.rs:46-98 | a whole sweep keeps uids unique and the counter past them |
| ResolveUseLoop.RoundInv | src/preproc/resolve_use.rs:44-105 | a sweep followed by the removal keeps uids unique and the counter past them |
| ResolveUseLoop.ResolveUnique | src/preproc/resolve_use.rs:37-106 | however many sweeps run, no two nodes of the result share a uid |
| ResolveUseLoop.FreshInv | src/preproc/resolve_use.rs:39 | a document with unique uids starts the pass with the counter past them |
| ResolveUseLoop.SweepStaysResolved | src/preproc/resolve_use.rs:93 | once `is_any_resolved` is set no later visit clears it |
| ResolveUseLoop.SweepKeepsRejected | src/preproc/resolve_use.rs:56-89 | a `use` set aside stays set aside for the rest of the sweep |
| ResolveUseLoop.SweepUnresolved | src/preproc/resolve_use.rs:44-98 | a sweep that expands nothing leaves the document as it was, and every `use` it saw is skipped or set aside |
| ResolveUseLoop.RemoveAllOrigin | src/preproc/resolve_use.rs:102-104 | every node after the removals comes from a node before them that was not removed, with the same uid, tag and id |
| ResolveUseLoop.RemoveAllRoot | src/preproc/resolve_use.rs:102-104 | the removals keep the root |
| ResolveUseLoop.FindRoot | src/preproc/resolve_use.rs:49-50 | looking up a link from the root finds the root or a node below it |
| ResolveUseLoop.FindHead | src/preproc/resolve_use.rs:49-50 | with unique uids, resolving a link finds the node with that uid |
| ResolveUseLoop.SkipStable | src/preproc/resolve_use.rs:52-54 | a `use` skipped before the removals is still skipped after them: its link is gone, dangling, or still names a `use` |
| ResolveUseLoop.RemoveAllDerived | src/preproc/resolve_use.rs:102-104 | every node after the removals is one from before, its links possibly dropped |
| ResolveUseLoop.LastSweepSettles | src/preproc/resolve_use.rs:43-105 | after a sweep that expands nothing and its removals, every `use` left is one the loop skips |
| ResolveUseLoop.LeftUseSkipped | src/preproc/resolve_use.rs:102-104 | a `use` left after the removals comes from a `use` the sweep skipped and is skipped still |
| ResolveUseLoop.ResolveSettles | src/preproc/resolve_use.rs:37-106 | when the loop stops by itself, no `use` is left to expand or reject: each has no link, a dangling one, or one to another `use` |
| ResolveUseLoop.ResolveUseSettles | src/preproc/resolve_use.rs:37-106 | on a document with unique uids the pass keeps them unique, and when it stops by itself every `use` left is skipped |
| ResolveUseLoop.Relink | src/preproc/resolve_use.rs:169-174 | every node that links to the `use` gets an `xlink:href` to the new node (`RelinkHeads`, `RelinkUnique`) |
| ResolveUseLoop.Place | src/preproc/resolve_use.rs:136-143 | the nodes one expansion builds: a `g` for a `symbol`, with an outer `g` and a `clipPath` when clipped, or else the deep copy (`PlaceCopy`, `PlaceSymbol`, `PlaceClip`) |
| ResolveUseLoop.ExpandUse | src/preproc/resolve_use.rs:108-177 | place the copy, relink to it, remove the `use` (`ExpandInv`, `ExpandRemovesUse`, `ExpandUnlinksUse`) |
| ResolveUseLoop.Visit | src/preproc/resolve_use.rs:48-94 | one turn on a `use` looked up in the document as it is now: skip it, set it aside, or expand it (`VisitInv`, `SweepStaysResolved`) |
| ResolveUseLoop.Resolve | src/preproc/resolve_use.rs:37-106 | sweeps, each followed by the removals, while a sweep expanded something, for at most `fuel` sweeps (`ResolveUnique`, `ResolveSettles`) |
| TreeNode.NodeKind.Id | src/tree/node.rs:34-48 | the svg, defs, stop and text-chunk and span kinds have the empty id |
| TreeNode.NodeKind.Transform | src/tree/node.rs:54-68 | the svg, defs and mask kinds, and the stop and text parts, have the identity transform |
| TreeNode.NodeKind.Base | src/tree/node.rs:303-340 | a base gradient exists exactly for the linear and radial gradient kinds |
| RenderTree.Created | src/tree/mod.rs:81-85 | the new tree is well formed: the root is the `Svg` node, its only child is `Defs`, and `Defs` has no child |
| RenderTree.CreatedSound | src/tree/mod.rs:81-85 | a new tree satisfies every invariant the conversion keeps |
| RenderTree.DefsOf | src/tree/mod.rs:95-97 | `defs()` is a `Defs` node whose parent is the root |
| RenderTree.SvgOf | src/tree/mod.rs:87-93 | `svg_node()` is the data of the root's `Svg` kind |
| RenderTree.KidsAfter | src/tree/mod.rs:109-112 | every child of a node was created after it and names it as its parent |
| RenderTree.Appended | src/tree/mod.rs:109-112 | `append_child` adds one node at the end, with no child and the given parent, appends it to the parent's children and changes no other node |
| RenderTree.AppendedSound | src/tree/mod.rs:109-112 | appending a kind that may stand under its parent keeps the tree's invariants |
| RenderTree.AppendedInDefs | src/tree/mod.rs:99-112 | a new node is in `Defs` exactly when its parent is `Defs` or in it; no other node changes side |
| RenderTree.AncestorsAppended | src/tree/mod.rs:99-112 | an append leaves every existing node's ancestors as they were |
| RenderTree.AppendedAll | src/tree/mod.rs:109-112 | a run of appends under one parent adds the kinds in order, as that parent's last children |
| RenderTree.Detached | src/convert/mod.rs:148-171 | `detach` clears the node's parent and removes it from its parent's children, and changes nothing else |
| RenderTree.DetachedSound | src/convert/mod.rs:148-171 | detaching a node keeps the tree's invariants |
| RenderTree.RootAndDefsOutside | src/tree/mod.rs:99-102 | neither the root nor `Defs` itself is in `Defs` |
| RenderTree.FirstById | src/tree/mod.rs:125-134 | the first node of the list with the id, and None exactly when none has it |
| RenderTree.DefsById | src/tree/mod.rs:125-134 | a found node is a direct child of `Defs` with that id |
| RenderTree.DefsByIdIff | src/tree/mod.rs:125-134 | `defs_by_svg_id` finds a node exactly when some child of `Defs` has the id |
| RenderTree.AppendedDefsLookup | src/tree/mod.rs:104-134 | after `append_to_defs` an id resolves where it did before, or else to the new node when the new node has it |
| RenderTree.DefsChildIff | src/tree/mod.rs:114-123 | `defs_at` finds a node exactly when it is a direct child of `Defs`, and returns that node |
| RenderTree.FirstOutside | src/tree/mod.rs:141-147 | the first listed node outside `Defs` with the id, None exactly when there is none |
| RenderTree.NodeById | src/tree/mod.rs:136-150 | the empty id finds nothing; a found node is outside `Defs` and has the id; None means no node outside `Defs` has it |
| RenderTree.BelowTrans | src/convert/mod.rs:174-293 | two conversions that only append under a node together only append under it |
| RenderTree.NoNewDefinitionsTrans | src/convert/mod.rs:174-293 | two steps that add no definition together add none |
| RenderTree.Tree.AppendChild | src/tree/mod.rs:109-112 | the tree in place becomes `Appended` of the old tree; the new id is the old node count |
| RenderTree.Tree.AppendToDefs | src/tree/mod.rs:104-107 | the tree in place becomes the old tree with the kind appended under `Defs` |
| RenderTree.Tree.Detach | src/convert/mod.rs:148-171 | the tree in place becomes `Detached` of the old tree |
| RenderTree.Tree.IsInDefs | src/tree/mod.rs:99-102 | the walk up the parents answers whether `Defs` is an ancestor |
| RenderTree.Tree.DefsAt | src/tree/mod.rs:114-123 | the loop over `Defs`' children answers as `DefsChild` |
| RenderTree.Tree.DefsBySvgId | src/tree/mod.rs:125-134 | the loop over `Defs`' children answers as `DefsById` |
| RenderTree.Tree.NodeBySvgId | src/tree/mod.rs:136-150 | the pre-order walk answers as `NodeById` |
| ConvertBase.Round | src/convert/mod.rs:302 | `f64::round`: the result is within a half of the number, and a tie goes away from zero |
| ConvertBase.ImgSize | src/convert/mod.rs:295-311 | the rounded `width` and `height` when both are numbers, and 100×100 when either is missing |
| ConvertBase.ImgSizeNear | src/convert/mod.rs:301-302 | each side of the image size is within a half of the attribute it was rounded from |
| ConvertBase.ViewBoxRect | src/convert/mod.rs:313-321 | the stored `viewBox`, or the rectangle at the origin with the image size when there is none |
| ConvertBase.ElementUnits | src/convert/mod.rs:323-332 | `objectBoundingBox` exactly when the attribute is that string; every other value, and a missing one, gives `userSpaceOnUse` |
| ConvertBase.ConvertRect | src/convert/mod.rs:334-350 | `x`, `y`, `width` and `height` are each the number stored, or 0 |
| ConvertBase.ConvertAspect | src/convert/mod.rs:352-364 | the stored `preserveAspectRatio`, or xMidYMid without defer or slice |
| ConvertBase.TransformOr | src/convert/path.rs:38 | the stored transform, or the identity when there is none |
| ConvertBase.TextConverted | src/convert/mod.rs:282-284 | the text node the text converter gives is appended under the parent, and nothing else changes; no text gives the tree unchanged |
| ConvertBase.ConvertText | src/convert/mod.rs:282-284 | the tree after the call is `TextConverted` of the tree before |
| PathConv.Converted | src/convert/path.rs:27-51 | the tree stays sound; new nodes go below the parent and no definition is added |
| PathConv.ConvertedAppendsIffLong | src/convert/path.rs:37-50 | a path node is appended exactly when the converted segments number at least two; it carries the id, the transform or the identity, the converted fill and stroke, and the segments snapped when there is a stroke |
| PathConv.Convert | src/convert/path.rs:27-51 | the tree after the call is `Converted` of the tree before |
| GradientConv.SpreadMethodOf | src/convert/gradient.rs:70-81 | `reflect` and `repeat` exactly when the attribute is that keyword; anything else, missing or not, is `pad` |
| GradientConv.LinearDefaults | src/convert/gradient.rs:24-38 | with no attribute set, a linear gradient runs from (0, 0) to (1, 0) in user space, with the identity transform and `pad` |
| GradientConv.RadialDefaults | src/convert/gradient.rs:49-64 | with no attribute set, a radial gradient has centre, focus and radius 0.5 in user space, with the identity transform and `pad` |
| GradientConv.StopKinds | src/convert/gradient.rs:87-104 | the stops made from the children are no more than the children, and every one is a stop |
| GradientConv.StopKindsAppend | src/convert/gradient.rs:87-104 | the stops of two lists of children, one after the other, are the stops of each list in turn |
| GradientConv.AllStops | src/convert/gradient.rs:93-103 | when every child is a `stop`, there is one stop per child, in order, with its offset, colour and opacity or their defaults |
| GradientConv.NoStops | src/convert/gradient.rs:88-91 | children none of which is a `stop` give no stop |
| GradientConv.ConvertedGradient | src/convert/gradient.rs:26-41 | the gradient is the last child of `defs`, and its children are exactly the stops of the element's children, appended after it |
| GradientConv.ConvertedLinear | src/convert/gradient.rs:19-42 | the tree stays sound |
| GradientConv.ConvertedRadial | src/convert/gradient.rs:44-68 | the tree stays sound |
| GradientConv.ConvertStops | src/convert/gradient.rs:83-108 | the loop over the children appends exactly the stops `StopKinds` gives, in order, under the gradient |
| GradientConv.ConvertLinear | src/convert/gradient.rs:19-42 | returns the new gradient's node, and the tree after the call is `ConvertedLinear` of the tree before |
| GradientConv.ConvertRadial | src/convert/gradient.rs:44-68 | returns the new gradient's node, and the tree after the call is `ConvertedRadial` of the tree before |
| ClipPathConv.Convert | src/convert/clippath.rs:27-40 | a clip path with the element's id, units and transform is appended to `defs`, and its node is returned |
| ClipPathConv.ConvertedChild | src/convert/clippath.rs:48-77 | the tree stays sound; new nodes are only paths and text below the clip path, and no definition is added |
| ClipPathConv.ConvertedChildren | src/convert/clippath.rs:42-79 | the same, for all the children in turn |
| ClipPathConv.ChildIgnored | src/convert/clippath.rs:67-76 | a `line`, or any element that is not a shape, a path or a text, leaves the tree unchanged |
| ClipPathConv.PathChildAppended | src/convert/clippath.rs:58-63 | a `path` child whose converted segments number at least two is appended under the clip path |
| ClipPathConv.ConvertChild | src/convert/clippath.rs:48-77 | the tree after the call is `ConvertedChild` of the tree before |
| ClipPathConv.ConvertChildren | src/convert/clippath.rs:42-79 | the tree after the loop is `ConvertedChildren` of the tree before |
| MaskConv.Converted | src/convert/mask.rs:15-33 | a mask is appended to `defs`, and its node returned, exactly when the width and the height are both positive; otherwise nothing changes |
| MaskConv.UnsizedSkipped | src/convert/mask.rs:21-25 | a mask without a `width` or without a `height` is skipped |
| MaskConv.Convert | src/convert/mask.rs:15-33 | the tree and the result after the call are `Converted` of the tree before |
| ImageConv.FindComma | src/convert/image.rs:63 | `find(',')`: None exactly when there is no comma, and otherwise the index of the first comma |
| ImageConv.FindCommaAfter | src/convert/image.rs:63-64 | a prefix without a comma moves the first comma along by the prefix's length |
| ImageConv.CommaAfterPrefix | src/convert/image.rs:62-65 | in a data URL, the first comma comes after `data:image/`, so the slice from index 11 to it exists |
| ImageConv.KindOf | src/convert/image.rs:65-75 | PNG exactly for `png;base64`, JPEG exactly for `jpg;base64` and `jpeg;base64`, and nothing for anything else |
| ImageConv.HrefData | src/convert/image.rs:58-110 | raw data only from a `data:image/` href; a file path only from another href, joined to the document's directory, naming a file that exists and starts with a PNG or JPEG signature |
| ImageConv.DataUrl | src/convert/image.rs:62-89 | a data URL gives raw data exactly when its tag names PNG or JPEG in base64 and its payload decodes, and the data is what the payload decodes to |
| ImageConv.ShortFileRefused | src/convert/image.rs:126-130 | a file shorter than eight bytes is refused, as `read_exact` fails on it |
| ImageConv.IsValidImageFormat | src/convert/image.rs:113-133 | true exactly when the file can be opened, has eight bytes, and starts with the PNG or the JPEG signature |
| ImageConv.GetHrefData | src/convert/image.rs:58-110 | the data found is `HrefData` of the href |
| ImageConv.Href | src/convert/image.rs:40-46 | the href exactly when `xlink:href` is present and holds a string |
| ImageConv.Converted | src/convert/image.rs:25-56 | an image node is appended under the parent exactly when the href is a string and its data can be had, and it carries the id, transform, view box and data; otherwise nothing changes |
| ImageConv.Convert | src/convert/image.rs:25-56 | the tree after the call is `Converted` of the tree before |
| Convert.LinkedId | src/convert/mod.rs:203-218 | an id exactly when the value is a FuncLink to an element with the expected tag, and it is that element's id |
| Convert.GroupLink | src/convert/mod.rs:203-242 | a missing attribute gives no link; a present one keeps the group exactly when it links to a definition of the right kind already in the tree, and the link is then that definition's id |
| Convert.ConvertedLeaf | src/convert/mod.rs:259-287 | a shape, path, text or image keeps the tree sound, adds only below the parent and adds no definition |
| Convert.ConvertedGroup | src/convert/mod.rs:193-258 | the same, for a group and its subtree |
| Convert.ConvertedNode | src/convert/mod.rs:180-291 | the same, for any child, referenced or ignored elements included |
| Convert.ConvertedNodes | src/convert/mod.rs:174-293 | the same, for all the children in turn |
| Convert.LaterIds | src/convert/mod.rs:112-146 | every pending entry's node is among the ids |
| Convert.LaterIdsAppend | src/convert/mod.rs:130-140 | the ids of two lists of pending entries are the ids of each |
| Convert.AllLaterOkGrown | src/convert/mod.rs:148-171 | a pending entry that was valid stays valid as the tree grows |
| Convert.RefGradient | src/convert/mod.rs:122-127 | a gradient adds only below `defs`, and adds no container to be filled later |
| Convert.NoContainersAppended | src/convert/gradient.rs:26-41 | a gradient and its stops hold no container |
| Convert.RefContainer | src/convert/mod.rs:128-141 | a clip path or pattern adds only below `defs`, and is recorded for the later pass |
| Convert.RefMask | src/convert/mod.rs:132-136 | a mask adds only below `defs`, and is recorded for the later pass when it was kept |
| Convert.ConvertedRefNode | src/convert/mod.rs:114-146 | the first pass over one child of `defs` adds only below `defs`, and every new container is recorded for the later pass |
| Convert.ConvertedRefNodes | src/convert/mod.rs:114-146 | the same, for all the children of `defs` |
| Convert.ConvertedLater | src/convert/mod.rs:148-171 | filling one recorded container keeps the tree sound and keeps every node it had |
| Convert.ConvertedLaters | src/convert/mod.rs:148-171 | the same, for all the recorded containers |
| Convert.ConvertedRefs | src/convert/mod.rs:102-172 | `convert_ref_nodes` keeps the tree sound |
| Convert.ConvertedDoc | src/convert/mod.rs:54-100 | the tree built from a document is sound |
| Convert.SettledMore | src/convert/mod.rs:148-171 | a container that may still be filled stays allowed when more containers may be |
| Convert.SettledBelow | src/convert/mod.rs:148-171 | nodes added below a node leave only the new containers, and that node, unfilled |
| Convert.SettledDrop | src/convert/mod.rs:148-171 | a node that is not a container need not be among those still to be filled |
| Convert.SettledBelowNoNew | src/convert/mod.rs:174-293 | converting ordinary elements below a node leaves no new empty definition |
| Convert.RefNodeSettles | src/convert/mod.rs:114-146 | after one child of `defs`, the empty containers are the earlier ones and those recorded for later |
| Convert.RefNodesSettle | src/convert/mod.rs:114-146 | the same, for all the children of `defs` |
| Convert.LaterSettles | src/convert/mod.rs:148-171 | a recorded container is filled or detached, so it is no longer empty |
| Convert.DetachedSettles | src/convert/mod.rs:152-169 | detaching an empty container leaves the other containers as they were |
| Convert.LatersSettle | src/convert/mod.rs:148-171 | after the later pass no recorded container is left empty |
| Convert.RefsSettle | src/convert/mod.rs:102-172 | `convert_ref_nodes` leaves no clip path, mask or pattern without children in `defs` |
| Convert.ConvertedDocSettled | src/convert/mod.rs:54-100 | in the tree built from a document no clip path, mask or pattern is without children |
| Convert.GroupDropped | src/convert/mod.rs:213-216 | a group whose clip path or mask does not resolve to a definition is skipped with its whole subtree |
| Convert.GroupKept | src/convert/mod.rs:247-255 | a group whose links resolve is appended under the parent with its id, transform, opacity, clip path and mask |
| Convert.GroupWith | src/convert/mod.rs:193-258 | the tree unchanged when a link does not resolve; otherwise a group with the id, transform, opacity, clip path and mask appended as the last child of the parent, with its content below it |
| Convert.PassedUnchanged | src/convert/mod.rs:181-192 | referenced elements, `title`, `desc`, `metadata`, `defs`, `view`, `use`, `switch` and nested `svg` leave the tree unchanged |
| Convert.UnreferencedDefsChild | src/convert/mod.rs:117-119 | a child of `defs` that is not a referenced element leaves the tree unchanged and records nothing |
| Convert.NoSvgElement | src/convert/mod.rs:58-77 | a document without an svg element gives the new tree of a 100×100 image |
| Convert.ConvertedDocRoot | src/convert/mod.rs:79-94 | the root's size and view box are those read from the svg element, and `defs` is node 1 |
| Convert.RefsKeepRoot | src/convert/mod.rs:102-172 | `convert_ref_nodes` keeps the root and the `defs` node |
| Convert.LatersKeepDefs | src/convert/mod.rs:148-171 | the later pass keeps the `defs` node |
| Convert.ResolveLink | src/convert/mod.rs:203-242 | the link looked up in the tree is `GroupLink` |
| Convert.ConvertLeaf | src/convert/mod.rs:259-287 | the tree after the call is `ConvertedLeaf` of the tree before |
| Convert.ConvertGroup | src/convert/mod.rs:193-258 | the tree after the call is `ConvertedGroup` of the tree before |
| Convert.ConvertNode | src/convert/mod.rs:180-291 | the tree after the call is `ConvertedNode` of the tree before |
| Convert.ConvertNodes | src/convert/mod.rs:174-293 | the tree after the loop is `ConvertedNodes` of the tree before |
| Convert.ConvertRefNode | src/convert/mod.rs:114-146 | the tree and the pending entries after the call are `ConvertedRefNode` of the tree before |
| Convert.ConvertLater | src/convert/mod.rs:148-171 | the tree after the call is `ConvertedLater` of the tree before |
| Convert.RefNodesUnfold | src/convert/mod.rs:114-146 | the first pass over a list is the pass over its head, then over its rest, with the pending entries joined |
| Convert.ConvertDefsChildren | src/convert/mod.rs:112-146 | the tree and the pending entries after the loop are `ConvertedRefNodes` of the tree before |
| Convert.ConvertLaters | src/convert/mod.rs:148-171 | the tree after the loop is `ConvertedLaters` of the tree before |
| Convert.ConvertRefNodes | src/convert/mod.rs:102-172 | the tree after the call is `ConvertedRefs` of the tree before |
| Convert.ConvertDoc | src/convert/mod.rs:54-100 | the tree returned is `ConvertedDoc` of the document |
| Dump.TransformRoundTrip | src/tree/dump.rs:430-438 | the transform attribute is written exactly when the transform is not the identity, and reading it back, with the identity as default, gives the transform |
| Dump.UnitsKeyword | src/tree/dump.rs:417-428 | `objectBoundingBox` and `userSpaceOnUse` are written for exactly those units |
| Dump.RectRoundTrip | src/tree/dump.rs:283-291 | `convert_rect` reads back the rectangle written |
| Dump.ViewBoxRoundTrip | src/tree/dump.rs:270-281 | the `viewBox` and `preserveAspectRatio` written, and those of the `x`/`y`/`width`/`height` form at lines 293-299, read back as the view box and aspect ratio |
| Dump.EntryIndex | src/tree/dump.rs:250 | `defs.children().find` by id: None exactly when no entry has the id, and otherwise the first entry that has it |
| Dump.LinkToFirstEntry | src/tree/dump.rs:246-252 | a link is written exactly when the id names a definition of the tree and an entry of the written `defs`, and it is the uid of the first such entry |
| Dump.RuleKeyword | src/tree/dump.rs:323-327 | `evenodd` is the keyword of exactly the even-odd rule |
| Dump.NonZeroReadsEvenOdd | src/tree/dump.rs:301-333 | as written, a colour fill with the nonzero rule reads back with the even-odd rule, so it does not read back as itself |
| Dump.FillRoundTrip | src/tree/dump.rs:301-333 | with the fill's own rule written, a missing fill or a colour fill outside a clip path reads back as itself |
| Dump.FillLink | src/tree/dump.rs:309-315 | corrected (fill rule by `ConvFill`, see Findings): a link fill is written exactly when its definition resolves, as a FuncLink to that entry; inside a clip path the rule goes to `clip-rule` and no `fill-rule` is written |
| Dump.ConvertedStrokeCanonical | src/convert/stroke.rs:24-107 | every stroke the conversion makes has a positive width, a miter limit of at least 1, and a dash array that reading it again keeps as it is |
| Dump.StrokeAttrsRead | src/tree/dump.rs:341-380 | the paint, width, miter limit, opacity, dash offset, line cap, line join and dasharray written read back as the stroke's own |
| Dump.StrokeRoundTrip | src/tree/dump.rs:335-385 | a missing stroke, or a colour stroke the conversion could have made, reads back as itself |
| Dump.DumpSegment | src/tree/dump.rs:144-157 | every segment is written as the svgdom segment that the path conversion copies back to it |
| Dump.Segments | src/tree/dump.rs:142-158 | one written segment per segment |
| Dump.SegmentsRoundTrip | src/tree/dump.rs:142-158 | the path conversion of the written path data is the path's own segments |
| Dump.PathData | src/tree/dump.rs:142-158 | the loop builds `Segments` of the path |
| Dump.StopRoundTrip | src/tree/dump.rs:405-414 | a written stop is a `stop` element, and reading it gives back the offset, colour and opacity |
| Dump.Stops | src/tree/dump.rs:405-414 | every element written for a gradient's children is a `stop` |
| Dump.StopsRoundTrip | src/tree/dump.rs:405-414 | the stops read from the written stop elements are exactly the stop children of the gradient node, in order |
| Dump.ConvStops | src/tree/dump.rs:405-414 | the loop builds `Stops` of the gradient node |
| Dump.BaseRoundTrip | src/tree/dump.rs:387-403 | the spread method and the gradient transform read back, and the units are written as their keyword |
| Dump.LinearFields | src/tree/dump.rs:53-66 | the id and x1, y1, x2, y2 of a written linear gradient read back, and so does all of its base but the units |
| Dump.RadialFields | src/tree/dump.rs:68-81 | the id and cx, cy, r, fx, fy of a written radial gradient read back, and so does all of its base but the units |
| Dump.LinearRoundTrip | src/tree/dump.rs:53-67 | a written linear gradient, with any children, reads back as itself but for the units |
| Dump.RadialRoundTrip | src/tree/dump.rs:68-82 | a written radial gradient, with any children, reads back as itself but for the units |
| Dump.ClipRoundTrip | src/tree/dump.rs:83-91 | a written clip path reads back as itself but for the units |
| Dump.PatternWritten | src/tree/dump.rs:92-109 | the rectangle and the pattern transform written read back |
| Dump.PatternViewBox | src/tree/dump.rs:98-100 | the `viewBox` is written exactly when the pattern has one, and it reads back with its aspect ratio |
| Dump.Spans | src/tree/dump.rs:192-209 | corrected (fill rule by `ConvFill`, see Findings): each span is written as a `tspan` holding one text node |
| Dump.AnchorWritten | src/tree/dump.rs:182-190 | `text-anchor` is written exactly when the anchor is not `start`, as `middle` or `end` |
| Dump.Chunks | src/tree/dump.rs:174-211 | corrected (fill rule by `ConvFill`, see Findings): each chunk is written as a `tspan` |
| Dump.ConvSpans | src/tree/dump.rs:192-209 | corrected (fill rule by `ConvFill`, see Findings): the loop builds `Spans` of the chunk node |
| Dump.ConvChunk | src/tree/dump.rs:176-209 | corrected (fill rule by `ConvFill`, see Findings): the chunk element built is `ChunkElement` of the chunk |
| Dump.ConvChunks | src/tree/dump.rs:174-211 | corrected (fill rule by `ConvFill`, see Findings): the loop builds `Chunks` of the text node |
| Dump.NoCommaTag | src/tree/dump.rs:226-231 | the written media type and encoding hold no comma |
| Dump.RawHrefRoundTrip | src/tree/dump.rs:221-236 | when the decoder inverts the encoder, the written data URL reads back as the image's kind and data |
| Dump.RawHrefSplit | src/tree/dump.rs:226-231 | the written data URL is the prefix, the tag, a comma and the text, and the tag reads back as the image's kind |
| Dump.ImageRoundTrip | src/tree/dump.rs:213-239 | the written href is a string, and the image read from the written element with its data is the image itself |
| Dump.GroupRoundTrip | src/tree/dump.rs:240-264 | a written group reads back as itself; `clip-path` is written exactly when the clip path resolves, and no `mask` is written |
| Dump.StrokeKeepsFill | src/tree/dump.rs:162-163 | writing the stroke after the fill does not change the fill read back |
| Dump.PaintKeeps | src/tree/dump.rs:136-163 | writing the fill and the stroke keeps the id, the transform and the path data |
| Dump.PathAttrsRead | src/tree/dump.rs:132-164 | corrected (fill rule by `ConvFill`, see Findings): the id, path data, transform, fill and stroke of a written path read back |
| Dump.PathRoundTrip | src/tree/dump.rs:132-164 | corrected (fill rule by `ConvFill`, see Findings): a written path with colour paints reads back as itself, its curves snapped when it is stroked |
| Dump.ElementOf | src/tree/dump.rs:131-265 | corrected (fill rule by `ConvFill`, see Findings): a path, text, image or group gives one element, any other node none, and it carries the node's uid |
| Dump.KidElementsInOrder | src/tree/dump.rs:130-267 | the elements written for a node's children are one per drawable child, in order |
| Dump.DefsEntry | src/tree/dump.rs:52-110 | a gradient, clip path or pattern in `defs` gives an entry with its id, clip paths and patterns with no children yet; anything else, masks included, gives none |
| Dump.DefsPass | src/tree/dump.rs:51-110 | every clip path and pattern is recorded for later with the index of its entry |
| Dump.LaterPass | src/tree/dump.rs:111-113 | corrected (fill rule by `ConvFill`, see Findings): filling the recorded entries keeps every entry's uid, id, tag and attributes |
| Dump.EntryIndexSameIds | src/tree/dump.rs:250 | entries with the same ids are found at the same index |
| Dump.LaterPassKeepsLinks | src/tree/dump.rs:111-113 | a link looked up after the later pass is the one looked up before it |
| Dump.DumpedShape | src/tree/dump.rs:20-43 | the written document has an svg element, and its `defs` is the defs element written by `conv_defs` |
| Dump.RoundWhole | src/convert/mod.rs:302 | rounding a whole number gives the number |
| Dump.SvgRoundTrip | src/tree/dump.rs:26-34 | the size and view box of the written svg element read back when the size is whole |
| Dump.ConvPath | src/tree/dump.rs:132-164 | corrected (fill rule by `ConvFill`, see Findings): the path element built is `PathElement` |
| Dump.ConvElement | src/tree/dump.rs:131-265 | corrected (fill rule by `ConvFill`, see Findings): the elements built for one node are `ElementOf` |
| Dump.ConvElements | src/tree/dump.rs:116-268 | corrected (fill rule by `ConvFill`, see Findings): the loop builds `KidElements` of the node |
| Dump.ConvEntry | src/tree/dump.rs:52-110 | the entry built is `DefsEntry` |
| Dump.ConvDefsFirst | src/tree/dump.rs:51-110 | the first loop builds the entries and pending list of `DefsPass` |
| Dump.ConvDefsLater | src/tree/dump.rs:111-113 | corrected (fill rule by `ConvFill`, see Findings): the second loop builds `LaterPass` of the entries |
| Dump.ConvDefs | src/tree/dump.rs:45-114 | corrected (fill rule by `ConvFill`, see Findings): the defs element built is `DefsElementOf` |
| Dump.ConvDoc | src/tree/dump.rs:20-43 | corrected (fill rule by `ConvFill`, see Findings): the document built is `DumpedDoc` |
| Dump.ConvFillAsWritten | src/tree/dump.rs:301-333 | as written: the colour or resolved link, the opacity, and `evenodd` as `clip-rule` inside a clip path and as `fill-rule` elsewhere, whatever the fill's rule; `fill="none"` for no fill |
| Dump.ConvFill | src/tree/dump.rs:301-333 | corrected: the same writes with the keyword of the fill's own rule (`FillRoundTrip`, `FillLink`) |
| Dump.PathElement | src/tree/dump.rs:132-164 | corrected (fill rule by `ConvFill`): a `path` element with the path's id, transform and path data, then its fill and its stroke (`PathAttrsRead`, `PathRoundTrip`) |
| Dump.SpanElement | src/tree/dump.rs:193-206 | corrected (fill rule by `ConvFill`): a `tspan` holding one text node with the span's text, then its fill, stroke and font |
| Dump.SpanAt | src/tree/dump.rs:192-209 | corrected (fill rule by `ConvFill`): a span child of a chunk gives one `tspan` holding one text node, any other child none |
| Dump.ConvSpanAt | src/tree/dump.rs:193-208 | corrected (fill rule by `ConvFill`, see Findings): the loop body builds `SpanAt` of the child |
| Dump.TextElement | src/tree/dump.rs:165-212 | corrected (fill rule by `ConvFill`): a `text` element with the text's transform and id and one `tspan` per chunk child (`Chunks`) |
| Dump.GroupAttrs | src/tree/dump.rs:240-258 | the `g` element with the group's transform, id, a `clip-path` link exactly when the clip path resolves, and the opacity (`GroupRoundTrip`) |
| Dump.KidElements | src/tree/dump.rs:130-267 | corrected (fill rule by `ConvFill`): the elements of the drawable children from the i-th on, one per child and in order (`KidElementsInOrder`) |
| Dump.DefsElementOf | src/tree/dump.rs:45-114 | corrected (fill rule by `ConvFill`): the `defs` element holding the entries of the first pass, each clip path and pattern filled by the later pass (`DefsPass`, `LaterPass`) |
| Dump.DumpedDoc | src/tree/dump.rs:20-43 | corrected (fill rule by `ConvFill`): a root holding the `svg` element, with the namespaces, the size, the view box and the version, whose children are the `defs` element and then the elements of the root's children (`DumpedShape`, `SvgRoundTrip`) |

## Left out

- svgdom's in-place identity and aliasing: nodes are values identified by uid, so two handles to one node, and an iterator that runs over a tree while the loop edits it, are not modelled; a loop whose later visits cannot read what its earlier visits wrote is modelled as one sweep over the tree as it stood, and a loop whose later visits can read it is modelled as a fold over the visits in document order, each reading the document the earlier ones left (the first loop of `resolve_pattern_children`, for one: a source filled by an earlier turn is copied filled).
- svgdom itself (the parser, `drain`, `remove_node`, `copy_node_deep`, `append`, `is_used`): modelled in `Dom` and `DocDrain` from their documented behaviour, not from their code, which is not part of this model.
- Logging (`warn!`, `trace!`, `debug_assert!`): no effect on results, left out.
- Floating point: f64 is modelled by reals, so rounding, NaN and infinities are not modelled; `fuzzy_eq` and `is_fuzzy_zero` are exact equality.
- Shapes.NonNegative: `is_sign_negative` also treats −0.0 as negative; reals have no signed zero, so a radius of −0.0 counts as given.
- StrokeConv.Dasharray: `is_sign_negative` at line 116 of `stroke.rs` also treats −0.0 as negative; reals have no signed zero, so a dash array holding −0.0 and a non-zero entry is kept where the source drops it.
- PathConv.QuadToCurve: the source computes the 2/3 points in f64 and passes them through f32; the model computes exactly.
- PathConv.ConvertPath: takes absolute segments; svgdom's `conv_to_absolute` (line 56 of `convert/path.rs`), which turns relative segments into absolute ones, is not part of this model.
- PathConv.ConvertPath: arcs are flattened by a curve approximator the model takes as a parameter (`arc`), since that code is in a library that is not part of this model.
- ConvUnits.ConvertUnits: the viewBox diagonal sqrt(w² + h²)/sqrt(2) is a parameter (`diag`), as the model has no square root.
- PrepareNestedSvg.PrepareNested: `get_viewbox_transform` is a parameter, and `clip_element`, whose code is not part of this model, is left out.
- RmInvalidClipPath.AsWritten: rm_invalid_clip_path.rs:51 can meet a clipPath that line 47 already removed as a user of an earlier clipPath (Findings, the rm_invalid_clip_path.rs row); both lines call svgdom's `Node::remove`, not the `Document::remove_node` that the comment at resolve_visibility.rs:19-20 says panics on a removed node, so the model takes removing an already removed node to do nothing, and `ClipChainKeepsUser` rests on that; svgdom is not part of this model, and if `Node::remove` panicked there too the pass would fail on that input rather than keep the rect.
- ResolveGradientStops.Source and ResolvePatternChildren.Source: the href chain has no cycle guard in the source and would not end on a cycle; the model bounds it by the number of nodes in the document and answers None past that bound.
- RmUnusedDefs.Impl: the recursion is bounded by the document's node count, which no walk from the svg exceeds.
- ResolveVisibility.ResolveVisibility: the svg element is taken as the document the nodes are removed from.
- RmInvisibleElems.RmZeroOpacity: that the opacity drain keeps a used node, and a node at or below `defs`, is shown on example documents (`ZeroUsedStays`, `ZeroInDefsStays`), not proved for every document; a node whose only users the same drain removed earlier is removed, as in the source.
- RmInvalidShapes.RemoveInvalidShapes and RmInvalidPatterns.RemoveInvalidPatterns: svgdom's `Node::remove` is modelled as `remove_node`, which also drops the links into the removed subtree.
- RmInvalidPatterns.RemoveInvalidPatterns: the inner loops over `linked_nodes()` and over the attributes (the `ids` buffer) are one rewrite of the whole document that sets the matching attributes to `none`; a node that does not link to the pattern is unchanged by it. A `fill` or `stroke` pointing at an invalid pattern holds a `Paint` value, which the `Link`/`FuncLink` match passes over; it goes when the pattern is removed, and is not set to `none` (`LinksSetToNone` states both).
- RmInvalidClipPath.RemoveInvalidClipPaths: looks up the users of all invalid clipPaths before removing any, the order the comment at line 43 of `rm_invalid_clip_path.rs` describes; the order the loop runs in is `RmInvalidClipPath.AsWritten` (see Findings).
- PrepareClipPath.BlackenAttrs: a clip-rule is read as a string, as `get_str` does, so a keyword `clip-rule` value gives `nonzero`; what svgdom stores for a parsed `clip-rule` is not part of this model.
- PrepareClipPath.PrepareClipPaths: the inner loop over `node.descendants().svg()` is one rewrite of the clipPath's subtree per round of the outer loop.
- ResolveUseLoop.ResolveUseDoc: the number of sweeps is bounded by `fuel`, and the flag says whether the loop stopped by itself. The recursion test at lines 74-89 of `resolve_use.rs` only catches a `use` below the target that links back to the `use` itself; a `use` that links to one of its own ancestors is copied into itself, and every sweep expands the new copy again, so the source's loop need not end.
- ResolveUseLoop.SweepUses: the sweep walks a list of the `use` elements taken when it begins, where svgdom's `descendants()` iterator runs over the tree as it changes; a `use` inside a new copy waits for the next sweep, and a listed `use` that is gone by its turn is passed over.
- ResolveUseLoop.PlaceUse: `view_box_to_transform` is a parameter (`fit`), as its code is not part of this model; `fuzzy_eq` and `is_fuzzy_zero` are exact equality.
- ResolveUseLoop.ExpandUse: the edits to the `use` itself (href, transform, x, y, width, height) are computed as values (`PreparedUseAttrs`) and passed to the copy, since the `use` is then removed; the detached copy of the `symbol` made at line 191 is not a node of the model, and each expansion reserves 4 + the target's node count of new uids whether it uses them all or not.
- ResolveUseLoop.Visit: a Link href to a uid that is in no node counts as skipped; svgdom never holds such a link.
- ResolveUseLoop.Relink: every node linking to the `use` by any attribute gets an `xlink:href` to the new node, as `linked_nodes()` and line 172 do; its other links to the `use` go when the `use` is removed.
- ResolveUse.PrepareUse: modelled as written, although the pipeline in `mod.rs` does not call it.
- UngroupGroups.UngroupGroupsPass: takes a group apart only if, when its turn comes, it still has one child or no opacity (`Dissolves` with the recheck; see Findings); without the recheck, as in the source, the round is `Round(svg, s, false)`.
- UngroupGroups.UngroupGroupsPass: the pop loop is one rewrite of the svg element's subtree from the top, since a group is popped before the groups inside it; the links into the removed groups are dropped at the end of the round, below the svg element and on it; `keep_named_groups` is a parameter.
- UngroupGroups.RoundKeeps: says which nodes remain and in what order; what each remaining node's attributes become is stated one group at a time (`LiftAttrs`), and for opacity through two groups (`OpacityThroughTwo`), not for a whole chain of groups.
- `text.rs` and `pattern.rs` are not part of this model: the text and pattern converters are parameters of the conversion (`ConvertBase.Env`), and so are base64 decoding, the contents of the files an image may name, the document's own path and `parent().join`.
- Convert.ConvertLeaf: the call `image::convert(&node, opt, parent_node.clone())` at line 286 of `convert/mod.rs` passes no tree, which `image::convert` takes; the model passes the tree being built, as the other branches do.
- GradientConv.ConvertStops: the `debug_assert!` that a gradient ends with at least two stops is not modelled; a gradient with fewer keeps the stops it has.
- GradientConv.ConvertedLinear and GradientConv.ConvertedRadial: state only that the tree stays sound; what is appended is stated by `GradientConv.ConvertedGradient`, on which both are built.
- Convert.ConvertedNode and Convert.ConvertedNodes: state soundness, growth below the parent and no new definition; what each kind of child adds is stated by `GroupKept`, `GroupDropped`, `PassedUnchanged`, `PathConv.ConvertedAppendsIffLong`, `ImageConv.Converted` and `ConvertBase.TextConverted`.
- Dump: the document is a value tree built bottom-up; svgdom's `create_element`, `append` and `set_attribute` on shared nodes, and the serialisation to text, are not modelled. The namespace declarations `xmlns`, `xmlns:xlink`, `xmlns:usvg` and `usvg:version` are written as custom attributes, and the crate version is a parameter.
- Dump: that no two written nodes share a uid is not proved; node `j` gets uid 2j+2 and the text of span `j` gets 2j+3.
- Dump: masks in `defs` and the `mask` of a group are not written, as in the source (`_ => {}` in `conv_defs`, and `conv_elements` writes no `mask`).
- Dump.ConvFill, Dump.ConvStroke, Dump.GroupAttrs: the `.unwrap()` of the lookup among the `defs` children is modelled as leaving the attribute out when no entry has the id; every entry the tree resolves has one (`LinkToFirstEntry`).
- Dump.LaterPass: the links of the later pass are looked up among the entries of the first pass; `LaterPassKeepsLinks` shows that the filled entries give the same links.
- Dump.LinearRoundTrip, Dump.RadialRoundTrip and Dump.ClipRoundTrip: hold but for the units, because the units are written as keywords and read back by `get_str`, which answers only for a string; a gradient or clip path read back always has `userSpaceOnUse`.
- Dump.FillRoundTrip and Dump.StrokeRoundTrip: are stated for colour paints outside a clip path; link paints are stated by `FillLink`, since a link reads back only through the document it points into.
- Dump.PathRoundTrip: holds for strokes the conversion could have made (`CanonicalStroke`), which `ConvertedStrokeCanonical` shows every converted stroke is.
- Dump.SvgRoundTrip: needs a whole-number size, since `get_img_size` rounds it.
- Dump.ConvFont: writes only the family and the size; font style, variant, weight and stretch are not modelled.
- Dump.ImageElement: base64 encoding of raw data is a parameter (`encode`), and a file path is written as the path string, without `to_str().unwrap()`.
- TreeNode.NodeKind.Id, TreeNode.NodeKind.Transform and TreeNode.NodeKind.Base: the `NodeKind` of `tree/node.rs` (lines 15-27) has no stop, text-chunk or span variant, and holds `Stop` (line 345) and `TextChunk` (line 139) as structs inside gradients and text; `tree/dump.rs` matches on `NodeKind::Stop`, `NodeKind::TextChunk` and `NodeKind::TSpan` (lines 175, 193 and 406), and the model follows that tree, with stops, chunks and spans as node kinds that have the empty id and the identity transform.
- ResolveFontSize.FontSizeOf: resolves a percentage and a named size with the corrected `PercentFontSize` and `NamedFontSize` (see Findings), not with the written `PercentFontSizeAsWritten` and `NamedFontSizeAsWritten`; below a plain-number parent the two agree (`PercentUnderNumberParent`, `NamedUnderNumberParent`).
- ResolveFontSize.ResolveNode: stores the corrected size of `FontSizeOf`, not the plain number lines 104-141 of `resolve_font_size.rs` store.
- ResolveFontSize.WalkNode: passes the corrected size of `FontSizeOf` down to the children.
- ResolveFontSize.Walk: is built on `WalkNode`, so on the corrected sizes.
- ResolveFontSize.ResolveFontSizes: the whole pass on the corrected sizes; the written one differs only below a parent whose size is not a plain number.
- UngroupSwitch.Ungroup: the corrected loop; a switch without a valid child is emptied, where the `continue` at ungroup_switch.rs:55-58 leaves it in place and the loop never ends (`UngroupSwitchAsWritten`, `NoValidChildHangs`).
- UngroupSwitch.UngroupSwitch: the loop computes the corrected `Ungroup`, not the loop as written, which is `UngroupSwitchAsWritten`.
- UngroupSwitch.Idempotent: proved of the corrected `Ungroup`; the loop as written does not end on a switch without a valid child, so it has no result to run again.
- Dump.Spans: each span's fill is written by the corrected `ConvFill`, with the fill's own rule; as written, `conv_fill` always writes `evenodd` (`ConvFillAsWritten`, see Findings).
- Dump.Chunks: built on `Spans`, so on the corrected `ConvFill`.
- Dump.ConvSpans: builds `Spans`, so writes the fill's own rule.
- Dump.ConvChunk: builds `ChunkElement`, so writes the fill's own rule.
- Dump.ConvChunks: builds `Chunks`, so writes the fill's own rule.
- Dump.ElementOf: paths and spans get their fill from the corrected `ConvFill`.
- Dump.ConvElement: builds `ElementOf`, so writes the fill's own rule.
- Dump.ConvElements: builds `KidElements`, so writes the fill's own rule.
- Dump.KidElements: built on `ElementOf`, so on the corrected `ConvFill`.
- Dump.PathElement: writes the fill with the corrected `ConvFill`.
- Dump.SpanElement: writes the fill with the corrected `ConvFill`.
- Dump.SpanAt: built on `SpanElement`, so on the corrected `ConvFill`.
- Dump.ConvSpanAt: built on `SpanAt`, so on the corrected `ConvFill`.
- Dump.TextElement: built on `Chunks`, so on the corrected `ConvFill`.
- Dump.ConvPath: builds `PathElement`, so writes the fill's own rule.
- Dump.PathAttrsRead: the fill read back is the written one with the fill's own rule; as written every fill reads back even-odd (`NonZeroReadsEvenOdd`).
- Dump.PathRoundTrip: holds for the corrected `ConvFill`; as written a nonzero fill does not read back as itself.
- Dump.FillLink: is stated for the corrected `ConvFill`; the rule written as `clip-rule` is then the fill's own, where the source writes `evenodd`.
- Dump.LaterPass: the clip path and pattern children it writes use the corrected `ConvFill`.
- Dump.ConvDefsLater: builds `LaterPass`, so writes the fill's own rule.
- Dump.DefsElementOf: built on `LaterPass`, so on the corrected `ConvFill`.
- Dump.ConvDefs: builds `DefsElementOf`, so writes the fill's own rule.
- Dump.DumpedDoc: built on `DefsElementOf` and `KidElements`, so on the corrected `ConvFill`.
- Dump.ConvDoc: builds `DumpedDoc`, so writes the fill's own rule.
- RmUnusedDefs.RemoveUnusedDefsKeeps: says which nodes remain outside the moved and removed subtrees, by uid and order; that a moved node lands as its new parent's last child is stated one move at a time (`MovedIsLast`), and that it survives the later removals is not proved, since uids are not assumed unique here.

## Findings

| source | as written | input that shows it | evidently intended | confidence | as-written member | corrected member |
|---|---|---|---|---|---|---|
| src/preproc/resolve_font_size.rs:104-141 | a percentage or named size multiplies the parent's number and keeps no unit of the parent | `font-size="2em"` on a group whose parent has 12, and `font-size="150%"` on its child: the child gets 3 user units | 150% of the parent's resolved size, 36 | medium, not executed | ResolveFontSize.PercentDropsParentUnit | ResolveFontSize.RelativeSizesFollowParent |
| src/preproc/resolve_visibility.rs:19-25 | `dedup` removes only adjacent duplicates, and `remove_node` is called once per entry | a hidden `g` holding two hidden rects: the walk pushes [r1, r2, r1, r2], and the second removal of r1 hits a removed node | each collected node removed once | high, not executed | ResolveVisibility.HiddenGroupExample | ResolveVisibility.NoHiddenLeft |
| src/preproc/ungroup_switch.rs:55-58 | a switch without a valid child is skipped by `continue`, but the next round's `find` starts from the root again and returns the same switch | a `switch` whose only child is a `rect` with `requiredExtensions`: the loop never ends | a switch without a valid child renders nothing: its children go and it becomes an empty group | high, not executed | UngroupSwitch.NoValidChildHangs | UngroupSwitch.Ungroup |
| src/preproc/rm_invalid_clip_path.rs:45-51 | the users of each invalid clipPath are looked up after the users of the earlier ones are removed, and a removal drops the links into the removed node | an empty clipPath 1, a clipPath 2 with `clip-path="url(#1)"` and no shape child, and a rect with `clip-path="url(#2)"`: removing clipPath 2 as a user of 1 drops the rect's link, so the rect is kept and drawn unclipped | every element that uses an invalid clipPath is removed, as the comment at line 43 says | low, not executed: it depends on svgdom dropping the links into a removed node, and on `Node::remove` of the already removed clipPath 2 at line 51 doing nothing (were it to panic, the pass would fail on this input instead) | RmInvalidClipPath.ClipChainKeepsUser | RmInvalidClipPath.RemoveInvalidClipPaths |
| src/preproc/ungroup_groups.rs:82-89 | the opacity test is made once, at the scan; a group scanned without opacity can gain one from an outer group taken apart in the same round, and is then taken apart anyway | `<g opacity="0.5"><g><rect/><rect/></g></g>`: both groups are pushed, and each rect ends with opacity 0.5, so where they overlap they are drawn at 0.75 instead of 0.5 | a group with an opacity is taken apart only when it has one child, as the comment at line 82 says | medium, not executed | UngroupGroups.NestedOpacitySpreads | UngroupGroups.CheckedOpacity |
| src/tree/dump.rs:323-327 | `conv_fill` writes `evenodd` as the fill rule (or clip rule) whatever the fill's own rule is | a path with a colour fill and the nonzero rule is dumped with `fill-rule="evenodd"` and reads back with the even-odd rule | write the keyword of the fill's own rule | high, not executed | Dump.NonZeroReadsEvenOdd | Dump.FillRoundTrip |
