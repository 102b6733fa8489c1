# Verified models of d3 layouts and of the EMR command line client

This project models the algorithms at the heart of two parts of the repository and proves what they promise:

- **d3** (`vis/lib/d3`): the Graham-scan hull, Sutherland-Hodgman clipping, the point quadtree and the Barnes-Hut
  forces over it, the squarified and the sticky treemap, lazy subtree shifting of the tree layout, link bundling, the CSV
  printer and parser, the keyed data join, string interpolation, the linear scale, and the timer queue.
- **The EMR client** (`lib/elastic-mapreduce-ruby`): the JSON printers and lexer, the version-1 UUID generator and the
  codecs of a UUID, and the folding and reordering of job flow steps.

Code that changes things step by step is modelled by methods with loops, and classes where the program has objects
(quadtree nodes, treemap nodes, the lexer, the CSV scanner, the timer list, the UUID class variables). Each method is tied
to a function of its inputs or of the old state, and the theorems are lemmas about these functions. Numbers that the program
keeps in floating point are exact reals. Ruby strings are byte sequences, one `char` for a byte.

Check everything with `dafny verify dfyconfig.toml`.

## Layout

| files | subject |
|---|---|
| Geometry, Hull | signed areas; convex hull |
| Clip, Winding | polygon clipping; clipping as intersection, by winding numbers |
| Quadtree, QuadtreeNodes, Coordinates, Force | the tree as a value; the node objects; charges and repulsion |
| Json, JsonLexer, JsonRoundTrip | printers; lexer; round trip |
| JsonLayout, JsonReading | the look of printed text; text that the printers do not print |
| Treemap, TreemapExact, TreemapGreedy | rows and cells of one node; the same without rounding; aspect ratios and where rows end |
| TreemapLayout, TreemapTiling, TreemapSticky | the layout of a tree of nodes; its tiling; calls with marks left |
| TreeShift, Bundle | tree layout moves; tree paths |
| Csv, CsvRoundTrip | printer and parser; round trip |
| Uuid, UuidGenerator | codecs and order; generator and uniqueness |
| DataJoin, InterpolateString, LinearScale | d3 core |
| TimerQueue, TimerList | the queue as a value; the linked list |
| StepOrder, CommandFold | step reordering; command folding |

## What does not hold, and exactly when

- The hull is wrong when the reference point occurs twice and no other point lies level with it, and it raises a TypeError
  when all points lie in one direction; `Hull.ConvexHull` states both exactly.
- A JSON value with a control byte other than `\b \t \n \f \r` does not survive (`RoundTripsIff` of JsonRoundTrip): the printer cuts
  the escape short.
- A `\u` escape is read as the UTF-8 bytes of another code when the code is 0x800 or more and its remainder by 64 is 32 or more
  (`Utf8IsRightIff`, `Utf8Is`).
- CSV rows with an empty row, an empty very last field, or a bare carriage return are not read back, whatever the line ends
  (`RoundTripsIff` and `LinesRoundTripIff` of CsvRoundTrip).
- Repeated node keys in a data join can lose a node (`PartitionIff`, `RepeatedKeyLosesNodeIff`).
- A timer callback that registers itself again and then returns true is dropped (`RegisteringWhileDoneIsLost`).
- When a timeout makes a step run and a callback registers a timer in it, two frames are requested (`SingleIff`, `RunIsSingleIff`,
  `TwoFramesPending`).
- 2^14 repeated clock readings make a UUID repeat (`SameIff`, `StandingClockRepeats`).
- Charges of both signs can cancel out in a subtree, and then no node above has a centre (`ForceAccumulate`). Where they do so
  at an inner node the traversal need not apply every force (`RepulsionIsAllPairs`, `OppositePairIsLost`). A visited position
  becomes NaN exactly when the visit comes to an infinite centre (`VisitLosesIff`, `OppositePairIsLost`).
- A sticky treemap need not keep its layout, although size and values are unchanged, when at its first layout nodes still carry
  marks of an earlier one. It carries the marks of squarify and no others exactly when none of those marks is off a row end
  (`StickifyReproducesIff`, `Treemap.Layout`), and then nothing moves, for any rounding. Without rounding the rectangles also stay
  for crossing marks at the start of a last row, and move for all others (`RectsReproducedIff`, `StaleMarkMovesNode`,
  `CrossingMarkMovesNothing`). Once a sticky call has followed the marks, repeating
  it moves nothing (`StickifyIdempotent`).
- After a change of size a sticky treemap keeps all rows, but a vertical row that starts in a square turns horizontal for good
  (`StickifyKeepsMarks`).

## Model

| member | source | states |
|---|---|---|
| Hull.ConvexHull | vis/lib/d3/d3.geom.js:89-168 | for every list of points: fewer than three give the empty polygon; a TypeError occurs exactly when all points lie in one direction from the reference point; otherwise the result is the convex hull (counter-clockwise, strictly convex, containing every point, corners from the input) exactly when the points span a triangle and no duplicate of the reference point goes unnoticed |
| Hull.FindReference | vis/lib/d3/d3.geom.js:98-105 | the reference is the first of the lowest points that are leftmost |
| Hull.PolarAngles | vis/lib/d3/d3.geom.js:107-113 | one entry for every point but the reference, each with its direction, all of them in the upper half-plane |
| Hull.SortByAngle | vis/lib/d3/d3.geom.js:114 | the entries are permuted into counter-clockwise order |
| Hull.TossDuplicates | vis/lib/d3/d3.geom.js:116-141 | of every angle exactly one entry is kept, a farthest one, and the kept ones turn strictly |
| Hull.PushFirstTwo | vis/lib/d3/d3.geom.js:143-151 | the stack starts with the reference and the first two kept entries; running off the list means that all points lie in one direction |
| Hull.Scan | vis/lib/d3/d3.geom.js:153-160 | the stack never goes below the reference and one more corner, is a convex chain throughout, and its fan holds every entry scanned |
| Hull.AnglesAreOrdered | vis/lib/d3/d3.geom.js:112-114 | the order by cross product of directions in the upper half-plane is transitive, so it can stand for the order of the angles |
| Hull.NearerPointOnSegment | vis/lib/d3/d3.geom.js:122-130 | of two points at one angle the nearer is on the segment to the farther: every half-plane with the reference and the farther point holds it, so dropping it is safe |
| Hull.TurnsAreTransitive | vis/lib/d3/d3.geom.js:156-171 | two overlapping left turns around the reference give the left turns that skip a corner |
| Hull.PushKeepsChain | vis/lib/d3/d3.geom.js:156-159 | one left-turn test at the top of the stack keeps every triple of the chain turning left |
| Hull.DropGrowsFan | vis/lib/d3/d3.geom.js:156-158 | popping a corner that does not turn left loses no point of the fan |
| Hull.ChainIsStrictlyConvex | vis/lib/d3/d3.geom.js:162-168 | a convex chain around the reference, closed at it, is strictly convex |
| Hull.FanIsContained | vis/lib/d3/d3.geom.js:162-168 | whatever lies in the fan is on or to the left of every edge of the polygon |
| Hull.TwoKeptIsNotOneDirection | vis/lib/d3/d3.geom.js:143-150 | two kept entries mean that the points do not all lie in one direction |
| Hull.FewKeptIsOneDirection | vis/lib/d3/d3.geom.js:145-150 | at most one kept entry means that they do |
| Hull.DistinctIsSuitable | vis/lib/d3/d3.geom.js:89-168 | distinct points that are not collinear always meet the condition under which the hull is right |
| Hull.DuplicateReferenceSuitsIff | vis/lib/d3/d3.geom.js:116-151 | when a second point lies on top of the reference, the hull is right exactly when the points span a triangle and some other point lies level with the reference |
| Hull.DuplicateReferenceIsUnsuitable | vis/lib/d3/d3.geom.js:116-151 | one such input with a wrong hull: a square standing on a corner that is given twice |
| Hull.RepeatedCornerIsNotHull | vis/lib/d3/d3.geom.js:162-168 | a polygon with a corner twice in a row is not a convex hull |
| Clip.ClipRing | vis/lib/d3/d3.geom.js:213-244 | the ring, changed in place edge by edge, becomes what clipping against all edges gives |
| Clip.ClipRingByEdge | vis/lib/d3/d3.geom.js:224-240 | one round of the loop clips the ring against one edge |
| Clip.DivisorIsSideDifference | vis/lib/d3/d3.geom.js:231-237 | the intersection divisor is the difference of the sides of its two points, so it is not zero whenever an intersection is taken |
| Clip.IntersectIsBetween | vis/lib/d3/d3.geom.js:254-265 | the intersection lies strictly between the two points, on the line of the clip edge |
| Clip.ClippedInConvexHull | vis/lib/d3/d3.geom.js:213-244 | every half-plane that holds the subject holds the clipped ring, so no corner leaves the convex hull of the subject |
| Clip.ClippedSatisfiesEveryEdge | vis/lib/d3/d3.geom.js:213-244 | every corner of the clipped ring satisfies the closed half-plane of every clip edge |
| Clip.ClippedKeepsInterior | vis/lib/d3/d3.geom.js:213-244 | the corners strictly inside all clip edges are exactly those of the subject, in order |
| Winding.AnyRayCountsTheSame | vis/lib/d3/d3.geom.js:213-244 | the winding number of a ring around a point off it does not depend on the ray used to count it |
| Winding.EmitKeepsCrossing | vis/lib/d3/d3.geom.js:229-239 | what one corner adds to the clipped ring crosses the ray of the edge as the original step did |
| Winding.ClippedWindsAlikeInside | vis/lib/d3/d3.geom.js:213-244 | around every point strictly inside all clip edges the clipped ring winds exactly as the subject does |
| Winding.ClippedDoesNotWindOutside | vis/lib/d3/d3.geom.js:213-244 | around every point strictly outside some clip edge the clipped ring does not wind at all |
| Quadtree.Insert | vis/lib/d3/d3.geom.js:749-771 | inserting an in-bounds point terminates (subtree height, then splits left of the cell above the coincidence threshold) and every point below a node stays in that node's cell |
| Quadtree.InsertChild | vis/lib/d3/d3.geom.js:775-791 | the point goes to the quadrant it lies in, the node is no leaf any more, and the cells of the subtree still hold their points |
| Quadtree.SplittingHalves | vis/lib/d3/d3.geom.js:758-766 | two points that are not coincident leave a cell that can be split strictly fewer times |
| Quadtree.SplitLeaf | vis/lib/d3/d3.geom.js:763-766 | splitting a leaf moves its point down first, and both insertions terminate |
| Quadtree.Descends | vis/lib/d3/d3.geom.js:750-770 | an insertion that does not split a leaf goes to a lower subtree or an empty leaf |
| Quadtree.InsertStores | vis/lib/d3/d3.geom.js:749-771 | insertion stores the new point exactly once and every other point as before: any sum over the points grows by the new one |
| Quadtree.InsertChildStores | vis/lib/d3/d3.geom.js:775-791 | the same for insertion into a child |
| Quadtree.BuildStores | vis/lib/d3/d3.geom.js:794-806 | the built tree stores exactly the listed points |
| Quadtree.SquareBounds | vis/lib/d3/d3.geom.js:730-742 | the computed bounds are the least square from the low corner of the points that holds every point: its left, its top, and its right or its bottom edge have points on them; without points they are no finite numbers |
| Quadtree.VisitCollects | vis/lib/d3/d3.geom.js:817-827 | a visit that skips the cells away from a region finds the points of the region and nothing else |
| Quadtree.SearchAgreesWithScan | vis/lib/d3/d3.geom.js:805-827 | searching the built tree with pruning agrees with a linear scan of the list |
| Quadtree.SearchFindsRegion | vis/lib/d3/d3.geom.js:805-827 | the points found by the pruned search are those of the region, each as often as it is listed |
| QuadtreeNodes.QuadNode.constructor | vis/lib/d3/d3.geom.js:809-815 | a new node is an empty leaf |
| QuadtreeNodes.QuadNode.EnterChild | vis/lib/d3/d3.geom.js:784-785 | the child is created when missing, and the node is no leaf any more |
| QuadtreeNodes.Insert | vis/lib/d3/d3.geom.js:749-771 | the node objects, changed in place, follow the insertion on values |
| QuadtreeNodes.InsertChild | vis/lib/d3/d3.geom.js:775-791 | the same for insertion into a child |
| QuadtreeNodes.BuildTree | vis/lib/d3/d3.geom.js:793-806 | the whole construction follows the one on values |
| Force.ForceAccumulate | vis/lib/d3/d3.layout.js:514-545 | afterwards every node object holds the total charge at and below it and, exactly when no subtree below cancels out, the charge-weighted centre of its points; coincident inner points are moved by their jitter, and where every point is afterwards is given; nothing else changes |
| Force.AccumulateChildren | vis/lib/d3/d3.layout.js:518-529 | the loop over the children: charges and moments are the sums over all points below them |
| Force.AccumulatePoint | vis/lib/d3/d3.layout.js:531-544 | the own point is added to the sums, and the centre is moment over charge |
| Force.SummedLast | vis/lib/d3/d3.layout.js:523-529 | charge times centre of a child is the sum of the moments of its points, or not a number once something cancelled out |
| Force.BuildIsShaped | vis/lib/d3/d3.geom.js:749-806 | no leaf of a built tree is empty, and an inner node has a point of its own only when points coincide |
| Force.SameSignCharges | vis/lib/d3/d3.layout.js:514-545 | with charges of one sign no subtree cancels out |
| Force.ChargingNoneCancels | vis/lib/d3/d3.layout.js:514-545 | where every node has a centre, nothing cancels out |
| Force.LeafCentre | vis/lib/d3/d3.layout.js:531-544 | the centre of a charged leaf is its point; a leaf without charge has none |
| Force.VisitRepulses | vis/lib/d3/d3.layout.js:232-255 | with theta 0, no coincident points, and charges of any sign that cancel out at no inner node, the traversal applies every pair force exactly once |
| Force.LeafRepels | vis/lib/d3/d3.layout.js:232-255 | the force of one point q with charge c, for every theta: the visit of a leaf takes off a step s with s |d|^2 = c d along d = q - node, and nothing for the node itself or at distance zero |
| Force.NegativeChargesRepel | vis/lib/d3/d3.layout.js:244-252 | a negative charge draws the previous position towards itself, so that the node moves away: the step times d is -c |
| Force.FarEnoughIff | vis/lib/d3/d3.layout.js:238-241 | for a distance r the criterion holds exactly when theta and r are positive and the width of the cell over r is below theta |
| Force.InnerRepels | vis/lib/d3/d3.layout.js:232-255 | an inner node that is far enough pushes with its whole charge from its centre by the same law and its children are skipped; one that is not leaves the position to its children |
| Force.PairLaw | vis/lib/d3/d3.layout.js:244-252 | the pair forces summed over all pairs obey that law |
| Force.ClusterLaw | vis/lib/d3/d3.layout.js:244-252 | so do the pulls of the clusters |
| Force.RepulsionIsAllPairs | vis/lib/d3/d3.layout.js:232-255 | on points at least .01 apart whose charges cancel out at no inner node of the built tree, its traversal with theta 0 is the all-pairs repulsion over the list |
| Force.VisitPushesClusters | vis/lib/d3/d3.layout.js:232-255 | for every theta and charges that cancel out at no inner node, the traversal of a tidy tree pushes once with each cluster, a leaf or an inner node that is far enough, from its centre and with all its charge |
| Force.ClustersPartition | vis/lib/d3/d3.layout.js:232-255 | the clusters hold every point of the tree exactly once |
| Force.RepulsionByClusters | vis/lib/d3/d3.layout.js:232-255 | for every theta, points at least .01 apart, and charges that cancel out at no inner node: the built tree pushes with clusters that hold every listed point once |
| Force.RepulseFrom | vis/lib/d3/d3.layout.js:232-255 | the traversal of the node objects, reading the fields that the accumulation left, is the traversal of their values, also where a centre is infinite or not a number |
| Force.CentreIsFiniteIff | vis/lib/d3/d3.layout.js:531-544 | a node has a finite centre exactly when no charges at or below it cancel out, and then charge times centre is the moment of its points |
| Force.NothingJittered | vis/lib/d3/d3.layout.js:533-536 | in a tree of points that do not coincide the jitter changes nothing |
| Force.JitterMoves | vis/lib/d3/d3.layout.js:531-536 | for every list of points: the points moved by a tick are exactly those on inner nodes of the built tree, each by the jitter of its own index |
| Force.NearPairIsMoved | vis/lib/d3/d3.geom.js:752-762 | of two points less than .01 apart the first stays on the node, where it is moved, and the second goes below |
| Force.ApartStays | vis/lib/d3/d3.layout.js:531-536 | of points at least .01 apart none is moved |
| Force.VisitLosesIff | vis/lib/d3/d3.layout.js:232-255 | for every tree, theta and cell: the visit makes the position NaN exactly when it was, or when the visit comes to a node, other than that of the visited point, whose charge cancels out but neither of whose moments does; with theta at most 0 that node must have a point of its own |
| Force.ChargingLosesNot | vis/lib/d3/d3.layout.js:232-255 | there is no such node where every node has a centre |
| Force.OppositePairIsLost | vis/lib/d3/d3.layout.js:232-255 | one such input: two points on a diagonal with the charges 1 and -1 are both lost with a positive theta, and with theta 0 no force is applied to them, which is not the all-pairs repulsion |
| Force.ApplyCharges | vis/lib/d3/d3.layout.js:299-309 | one tick, for every list of points: the tree is built and charged, coincident points are moved, and for every node that is not fixed the position is what the visit of that tree makes of it, with the exact condition for NaN; for points that do not coincide and cancel out nowhere, theta 0 gives the all-pairs repulsion; fixed nodes keep their position |
| Force.TickIsAllPairs | vis/lib/d3/d3.layout.js:299-309 | for points at least .01 apart nothing is moved, charges of one sign cancel out nowhere, and then the visit with theta 0 is the all-pairs repulsion |
| Force.EqualChargesConserve | vis/lib/d3/d3.layout.js:299-309 | with one charge for all nodes, as by default, and points at least .01 apart, the charge forces of a tick with theta 0 conserve momentum: they leave the sum of all previous positions as it was |
| Json.StringToJson | lib/elastic-mapreduce-ruby/json/objects.rb:65-95 | the text of a string is a quoted escape of its bytes |
| Json.ToJson | lib/elastic-mapreduce-ruby/json/objects.rb:35-163 | the compact text of a value |
| Json.PrettyGenerate | lib/elastic-mapreduce-ruby/json.rb:13-17 | the indented text of a value |
| Json.PrettyGenerateRecursive | lib/elastic-mapreduce-ruby/json.rb:19-57 | the text appended to the stream is the indented rendering of the value |
| Json.PrettyGenerateMembers | lib/elastic-mapreduce-ruby/json.rb:24-35 | the loop over the members of an object |
| Json.PrettyGenerateItems | lib/elastic-mapreduce-ruby/json.rb:41-52 | the loop over the elements of an array |
| JsonLayout.PrettyIsLaidCompact | lib/elastic-mapreduce-ruby/json.rb:13-59 | for every value the pretty text is the compact text laid out by its brackets alone: a line break and two spaces per open bracket after every opening bracket and comma and before every closing bracket, a space after every colon, strings and empty brackets untouched |
| JsonLayout.EscapedIsSafe | lib/elastic-mapreduce-ruby/json/objects.rb:65-95 | an escaped string holds no control byte, and quotes and slashes only behind a backslash |
| Json.ChompKeepsScalars | lib/elastic-mapreduce-ruby/json.rb:32-55 | chomping the text of a key or scalar removes nothing |
| JsonLexer.Lexer.constructor | lib/elastic-mapreduce-ruby/json/lexer.rb:37-40 | a lexer starts at the first character |
| JsonLexer.Lexer.Back | lib/elastic-mapreduce-ruby/json/lexer.rb:43-45 | backing up moves one character back, but not before the start |
| JsonLexer.Lexer.NextChar | lib/elastic-mapreduce-ruby/json/lexer.rb:52-56 | the next character, and a zero byte from the end on |
| JsonLexer.Lexer.NextClean | lib/elastic-mapreduce-ruby/json/lexer.rb:78-105 | the next character outside white space and comments, or the error of an open comment |
| JsonLexer.Lexer.NextString | lib/elastic-mapreduce-ruby/json/lexer.rb:165-194 | the string up to its quote with escapes resolved, or the error of an unterminated one |
| JsonLexer.Lexer.NextValue | lib/elastic-mapreduce-ruby/json/lexer.rb:215-255 | a value of any kind, or the error that its text gives |
| JsonLexer.Lexer.ArrayFromJson | lib/elastic-mapreduce-ruby/json/objects.rb:122-140 | an array, read element by element with one character of look-ahead |
| JsonLexer.Lexer.HashFromJson | lib/elastic-mapreduce-ruby/json/objects.rb:168-197 | an object; a repeated key replaces the value and keeps its place |
| JsonLexer.Parse | lib/elastic-mapreduce-ruby/json.rb:9-11 | parsing reads one value from the start of the text |
| JsonRoundTrip.ParseRoundTrip | lib/elastic-mapreduce-ruby/json.rb:9-57 | parsing what either printer wrote gives back the same value and leaves the lexer just past the text |
| JsonRoundTrip.RoundTripsIff | lib/elastic-mapreduce-ruby/json.rb:9-57 | for every value and layout: reading the text gives the value back exactly when all its strings are printable and the keys of its objects differ |
| JsonRoundTrip.ValueReadsOnlyReadable | lib/elastic-mapreduce-ruby/json/lexer.rb:215-255 | at any place of a text: a printed value that can be read at all ends where its text ends, and is itself only when it is readable |
| JsonRoundTrip.TextReadsBack | lib/elastic-mapreduce-ruby/json/lexer.rb:215-255 | the same for every layout: compact, or indented by any number of spaces |
| JsonRoundTrip.ValueReadsBack | lib/elastic-mapreduce-ruby/json/lexer.rb:215-255 | the same at any position of a larger text; a bare word takes a line break behind it along |
| JsonRoundTrip.ItemsReadBack | lib/elastic-mapreduce-ruby/json/objects.rb:122-140 | the elements of an array are read back in order |
| JsonRoundTrip.MembersReadBack | lib/elastic-mapreduce-ruby/json/objects.rb:168-197 | the members of an object with distinct keys are read back in order |
| JsonRoundTrip.StringRoundTripsIff | lib/elastic-mapreduce-ruby/json/objects.rb:65-95 | a string survives printing and reading exactly when it has no byte below 0x20 other than \b \t \n \f \r |
| JsonRoundTrip.ControlBytesShrink | lib/elastic-mapreduce-ruby/json/objects.rb:86-87 | any other control byte makes the string that is read back strictly shorter, if it can be read; it still ends where its text ends |
| JsonRoundTrip.IntTextReadsBack | lib/elastic-mapreduce-ruby/json/lexer.rb:237-247 | the text of an integer is read back as that integer |
| JsonReading.HexTextReadsBack | lib/elastic-mapreduce-ruby/json/lexer.rb:185-186 | four hexadecimal digits in either case are read as the code they write |
| JsonReading.Utf8Is | lib/elastic-mapreduce-ruby/json/lexer.rb:109-131 | the bytes of a code are its UTF-8 form by section 3 of RFC 3629, or, when the last of three bytes should have its sixth bit set, that of the code less 32 |
| JsonReading.Utf8IsRightIff | lib/elastic-mapreduce-ruby/json/lexer.rb:109-131 | they are right exactly for codes below 0x800 and those whose remainder by 64 is below 32 |
| JsonReading.StringIsRead | lib/elastic-mapreduce-ruby/json/lexer.rb:165-195 | a string in double or single quotes, with any mix of plain text and code escapes, stands for that text with the bytes of each code in place |
| JsonReading.EscapedIsRead | lib/elastic-mapreduce-ruby/json/lexer.rb:187-188 | any other escaped character stands for itself |
| JsonReading.LineCommentIsSkipped | lib/elastic-mapreduce-ruby/json/lexer.rb:82-86 | reading goes on behind a line comment as if it were not there |
| JsonReading.BlockCommentIsSkipped | lib/elastic-mapreduce-ruby/json/lexer.rb:87-96 | the same for a block comment, whose end is the first one in its text |
| JsonReading.OpenCommentRaises | lib/elastic-mapreduce-ruby/json/lexer.rb:88-90 | a block comment without an end is an error |
| JsonReading.MissingIsNull | lib/elastic-mapreduce-ruby/json/lexer.rb:215-257 | where a value is missing null is read |
| JsonReading.BareWordIsRead | lib/elastic-mapreduce-ruby/json/lexer.rb:228-257 | a word without quotes is a string unless it is a constant or looks like a number |
| JsonReading.TrailingCommaEndsArray | lib/elastic-mapreduce-ruby/json/objects.rb:122-138 | a comma before the closing bracket adds no element |
| JsonReading.TrailingCommaEndsHash | lib/elastic-mapreduce-ruby/json/objects.rb:168-197 | nor a member; a repeated key keeps its place and takes the later value |
| Csv.ParseRows | vis/lib/d3/d3.csv.js:20-77 | for every text the loops terminate with the rows that the token rules give |
| Csv.Scanner.constructor | vis/lib/d3/d3.csv.js:21-29 | the scanner starts at the beginning with no line end pending |
| Csv.Scanner.NextToken | vis/lib/d3/d3.csv.js:32-66 | one token: end of text before a pending end of line, a quoted or a plain field, and the new position and flag |
| Csv.Scanner.CloseQuote | vis/lib/d3/d3.csv.js:39-45 | the closing quote is the first that is not doubled; past the end when there is none |
| Csv.Scanner.QuotedToken | vis/lib/d3/d3.csv.js:37-54 | the unescaped content, with one character after the quote taken along and a line end noted |
| Csv.Scanner.PlainToken | vis/lib/d3/d3.csv.js:57-65 | the text up to the next separator, which is taken along |
| Csv.RowsAreNonempty | vis/lib/d3/d3.csv.js:68-76 | every parsed row has at least one field, for every text |
| CsvRoundTrip.RoundTripsIff | vis/lib/d3/d3.csv.js:20-91 | parsing the formatted rows gives the rows back exactly when no row is empty, the very last field is not empty, and every field with a carriage return also has a quote, comma or line feed; section 2 of RFC 4180 |
| CsvRoundTrip.LinesRoundTripIff | vis/lib/d3/d3.csv.js:20-85 | the same with any of the three line ends between the rows, CRLF as in section 2 of RFC 4180, a line feed or a carriage return, behind quoted and plain fields alike |
| CsvRoundTrip.TerminatedRoundTripsIff | vis/lib/d3/d3.csv.js:20-85 | with a line end after every row, the last one too, rows are read back exactly when none is empty and every field with a carriage return also has a quote, comma or line feed |
| CsvRoundTrip.LinesRoundTrip | vis/lib/d3/d3.csv.js:20-85 | for every line end, rows that are printable are read back |
| CsvRoundTrip.QuotedOnlyWhenNeeded | vis/lib/d3/d3.csv.js:80-91 | the printed text holds a quote exactly when some field holds a quote, comma or line feed |
| CsvRoundTrip.StrayCharacterIsDropped | vis/lib/d3/d3.csv.js:38-55 | malformed text: one character between a closing quote and the separator is dropped, and what follows is the next field of the line |
| CsvRoundTrip.OpenQuoteReachesEnd | vis/lib/d3/d3.csv.js:38-55 | malformed text: a field without a closing quote reaches to the end |
| CsvRoundTrip.OnlyPrintableLinesRoundTrip | vis/lib/d3/d3.csv.js:20-85 | no others are |
| CsvRoundTrip.FieldIsNext | vis/lib/d3/d3.csv.js:32-66 | the text of such a field is read as that field, before any separator or the end |
| CsvRoundTrip.BrokenFieldIsNotNext | vis/lib/d3/d3.csv.js:87-91 | a field with a bare carriage return is read as something else |
| CsvRoundTrip.RowIsRead | vis/lib/d3/d3.csv.js:68-76 | the text of a row is read as that row |
| Uuid.ConvertByteStringToInt | lib/elastic-mapreduce-ruby/uuidtools.rb:635-642 | the integer is the big-endian value of the octets |
| Uuid.ConvertIntToByteString | lib/elastic-mapreduce-ruby/uuidtools.rb:627-633 | the octets are the big-endian digits of the integer, the high ones cut off |
| Uuid.ToI | lib/elastic-mapreduce-ruby/uuidtools.rb:427-435 | the integer of a UUID is the big-endian value of its sixteen octets |
| Uuid.Raw | lib/elastic-mapreduce-ruby/uuidtools.rb:412-414 | the raw form is these octets |
| Uuid.ParseRaw | lib/elastic-mapreduce-ruby/uuidtools.rb:195-213 | any octet string gives a valid UUID, with the low 128 bits of its value |
| Uuid.RawRoundTrips | lib/elastic-mapreduce-ruby/uuidtools.rb:195-213 | parsing the raw form gives the UUID back |
| Uuid.RawOfParsed | lib/elastic-mapreduce-ruby/uuidtools.rb:412-414 | the raw form of a parsed string of sixteen octets is that string |
| Uuid.IntegersTellApart | lib/elastic-mapreduce-ruby/uuidtools.rb:427-449 | UUIDs with the same integer are the same |
| Uuid.Compare | lib/elastic-mapreduce-ruby/uuidtools.rb:378-399 | the comparison orders UUIDs as their integers are ordered |
| UuidGenerator.Generator.TimestampCreate | lib/elastic-mapreduce-ruby/uuidtools.rb:226-278 | one call: the new clock sequence, the state left behind also when the constructor raises, and a UUID that is always valid |
| UuidGenerator.StampSays | lib/elastic-mapreduce-ruby/uuidtools.rb:267-276 | version 1, the RFC variant, and time and clock sequence cut to 60 and 14 bits; sections 4.1.1 and 4.1.3 of RFC 4122 |
| UuidGenerator.VariantIsRfc | lib/elastic-mapreduce-ruby/uuidtools.rb:332-343 | the computed variant is 0b100 exactly when the two high bits are 1 and 0 |
| UuidGenerator.RunIsStamps | lib/elastic-mapreduce-ruby/uuidtools.rb:226-278 | the UUIDs of a run are the stamps of its readings and clock sequences |
| UuidGenerator.ClockCountsBumps | lib/elastic-mapreduce-ruby/uuidtools.rb:252-265 | the clock sequence grows by one exactly when the clock did not advance; section 4.2.1 of RFC 4122 |
| UuidGenerator.SameIff | lib/elastic-mapreduce-ruby/uuidtools.rb:226-278 | two UUIDs of a run on one node are equal exactly when their times agree in 60 bits and the number of bumps between them is a multiple of 2^14 |
| UuidGenerator.RunIsUnique | lib/elastic-mapreduce-ruby/uuidtools.rb:226-278 | with readings below 2^60 ticks, repeated or backward, and fewer than 2^14 bumps, all UUIDs of a run are distinct; section 4.1.5 of RFC 4122 |
| UuidGenerator.StandingClockRepeats | lib/elastic-mapreduce-ruby/uuidtools.rb:252-265 | the bound is sharp: a clock that stands still repeats a UUID after 2^14 calls |
| DataJoin.Bind | vis/lib/d3/d3.js:1701-1734 | the update, enter and exit arrays slot by slot and the datum of every node afterwards; each datum index is in exactly one of update and enter |
| DataJoin.IndexNodes | vis/lib/d3/d3.js:1707-1715 | the first node of every key is found under it, later ones go to the slots past the data |
| DataJoin.BindData | vis/lib/d3/d3.js:1717-1728 | each datum takes the node of its key once |
| DataJoin.CollectExits | vis/lib/d3/d3.js:1730-1734 | a node whose key was not taken is put into its own slot, over what is there |
| DataJoin.DistinctKeysPartition | vis/lib/d3/d3.js:1701-1734 | with distinct node keys every node is once in exactly one of update and exit, and the updated ones carry the first datum of their key |
| DataJoin.PartitionIff | vis/lib/d3/d3.js:1707-1734 | for all node keys: that holds exactly when each repeated key with a datum keeps its overflow slot and each without one loses it |
| DataJoin.NeverBoth | vis/lib/d3/d3.js:1701-1734 | no node is ever in both |
| DataJoin.RepeatedKeyLosesNodeIff | vis/lib/d3/d3.js:1709-1733 | for all keys: a node with a repeated key is in neither array exactly when its key has a datum and the slot it was put to is written over by an exiting node |
| DataJoin.RepeatedKeyLosesNode | vis/lib/d3/d3.js:1709-1733 | one such input: nodes with the keys a, a, b and data with the keys a, c |
| InterpolateString.FindNumbers | vis/lib/d3/d3.js:834-840 | filling the template with any numbers gives b with its numbers replaced by them |
| InterpolateString.Coalesce | vis/lib/d3/d3.js:844-867 | a number that is the same in both strings becomes text; filling the other holes still gives what filling all of them gave |
| InterpolateString.RemoveSlot | vis/lib/d3/d3.js:850-867 | the positions of the later holes move down by what was taken out |
| InterpolateString.Pop | vis/lib/d3/d3.js:873-883 | a number of b without counterpart becomes text, with the same meaning kept |
| InterpolateString.MakeTemplate | vis/lib/d3/d3.js:832-884 | the holes left are exactly the pairs of numbers that differ, in order, and the meaning is kept throughout |
| InterpolateString.TemplateGivesTarget | vis/lib/d3/d3.js:832-894 | filling the holes with the numbers of b gives b; with any other values, b with just those numbers replaced; the holes are in range and strictly increasing |
| InterpolateString.OneHolePerDifference | vis/lib/d3/d3.js:842-872 | one hole for each pair of numbers that differ |
| InterpolateString.Interpolate | vis/lib/d3/d3.js:819-889 | a template of one piece is the constant b, or a b that is one differing number |
| InterpolateString.Rejoiner.constructor | vis/lib/d3/d3.js:891-894 | the returned function starts from the template |
| InterpolateString.Rejoiner.At | vis/lib/d3/d3.js:891-894 | every call gives the template filled with its own values, whatever earlier calls left in it |
| LinearScale.Bisect | vis/lib/d3/d3.js:222-231 | the loop computes the binary search |
| LinearScale.BisectPartitions | vis/lib/d3/d3.js:218-231 | on a sorted list, entries repeated or not, the search splits those at most x from those above x |
| LinearScale.Polylinear.constructor | vis/lib/d3/d3.js:2541-2557 | the pieces of the scale, with descending domains turned around together with the range |
| LinearScale.Polylinear.At | vis/lib/d3/d3.js:2559-2562 | the value on the piece found by bisection |
| LinearScale.Output | vis/lib/d3/d3.js:2432-2438 | two knots give a line, more give the piecewise form |
| LinearScale.ScaleIs | vis/lib/d3/d3.js:2534-2562 | any piece that x lies on, with the end pieces going on without end, gives the value |
| LinearScale.AgreesAtKnots | vis/lib/d3/d3.js:2534-2562 | the scale maps every knot of the domain to that of the range, ascending or descending |
| LinearScale.InvertUndoesScale | vis/lib/d3/d3.js:2436-2447 | invert(scale(x)) = x on all reals, also beyond both ends |
| LinearScale.ScaleIsMonotone | vis/lib/d3/d3.js:2534-2562 | strictly rising when domain and range go the same way, strictly falling when not |
| LinearScale.FlatIsConstant | vis/lib/d3/d3.js:1033-1036 | a domain of two equal knots maps every value to the start of the range |
| LinearScale.RepeatedKnot | vis/lib/d3/d3.js:2541-2562 | on a sorted domain with repeated knots every knot below the next one is mapped to its own range value, so of equal knots the last one counts |
| TreeShift.TreeMove | vis/lib/d3/d3.layout.js:1648-1657 | what one move notes on the two nodes |
| TreeShift.TreeShift | vis/lib/d3/d3.layout.js:1634-1646 | what the pass adds to every child, from the notes of the later ones |
| TreeShift.OneMoveIsEager | vis/lib/d3/d3.layout.js:1634-1657 | one move and the pass shift sibling k by s times (k-i)/(j-i) for i < k <= j, and no other |
| TreeShift.LazyIsEager | vis/lib/d3/d3.layout.js:1634-1657 | any list of moves and one pass shift every sibling by the sum over the moves |
| TreeShift.MoveAndShift | vis/lib/d3/d3.layout.js:1634-1657 | the same for the node objects: prelim and mod both grow by that sum |
| TreemapRows.SquarifyPartitions | vis/lib/d3/d3.layout.js:1689-1722 | every point of the rectangle is in exactly one cell, no other point in any, and cells have no common point |
| TreemapRows.SquarifyTiles | vis/lib/d3/d3.layout.js:1689-1722 | the cells lie within the rectangle, cover each of its points once, and their areas add up to its area |
| TreemapRows.SquarifyConserves | vis/lib/d3/d3.layout.js:1702-1719 | the same for any additive measure from any state of the loop |
| TreemapRows.RowConserves | vis/lib/d3/d3.layout.js:1768-1802 | a row and the rest of the rectangle divide the rectangle; a flush row leaves nothing |
| TreemapRows.ThicknessFits | vis/lib/d3/d3.layout.js:1773-1789 | the thickness of a row stays within the rectangle, whatever the rounding |
| TreemapRows.RowMarks | vis/lib/d3/d3.layout.js:1784-1797 | just the last cell of a row is marked, with its orientation |
| TreemapRows.StickifyReproduces | vis/lib/d3/d3.layout.js:1726-1745 | laying out the same areas again from the marks gives the same cells and marks |
| TreemapRows.StickifyReproducesIff | vis/lib/d3/d3.layout.js:1726-1745 | over marks of an earlier layout the sticky layout has the cells of squarify with its marks and no others exactly when none of those marks is off a row end; for any rounding |
| TreemapRows.StaleMarkMovesNode | vis/lib/d3/d3.layout.js:1735-1741 | one input where a stale mark moves a node: two equal children, laid out first in a 1 by 2 rectangle and then in a 1 by 1 rectangle |
| TreemapRows.StickifyEndsRows | vis/lib/d3/d3.layout.js:1735-1741 | the sticky layout ends a row at every mark and nowhere else, and places every child when the last one is marked |
| TreemapRows.StickifyConserves | vis/lib/d3/d3.layout.js:1729-1742 | whatever marks it follows, the sticky layout divides the rectangle for any additive measure |
| TreemapRows.StickifyKeepsMarks | vis/lib/d3/d3.layout.js:1724-1745 | for any new areas and any new rectangle the rows stay, and each stays horizontal or vertical exactly when no vertical one starts in a square, where it turns horizontal |
| TreemapRows.StickifyIdempotent | vis/lib/d3/d3.layout.js:1724-1745 | a sticky layout done again from the marks it leaves is the same, whatever marks it followed first |
| TreemapExact.RectsReproducedIff | vis/lib/d3/d3.layout.js:1726-1745 | without rounding, for positive areas that fill the rectangle: over marks of an earlier layout every child gets the rectangle that squarify gave it exactly when those marks off the row ends are a run at the start of the last row, turned against that row, and the row is no square; and then all marks stay, too |
| TreemapExact.CrossingMarkMovesNothing | vis/lib/d3/d3.layout.js:1735-1741 | one input where a stale mark off a row end changes nothing: two equal children, laid out first in a 2 by 1 rectangle and then in a 1 by 1.5 rectangle |
| TreemapExact.SquarifyAreas | vis/lib/d3/d3.layout.js:1689-1722 | without rounding every child gets a cell of exactly its area |
| TreemapExact.StickifyAreas | vis/lib/d3/d3.layout.js:1726-1745 | the same after a sticky layout, whatever marks it followed |
| TreemapLayout.Scale | vis/lib/d3/d3.layout.js:1677-1686 | each child gets its share of the room, never negative |
| TreemapLayout.Worst | vis/lib/d3/d3.layout.js:1748-1765 | the loop computes the score of the row, which RowScoreIsWorst ties to the aspect ratios of its cells |
| TreemapGreedy.RowScoreIsWorst | vis/lib/d3/d3.layout.js:1747-1765 | the score of a row is the worst ratio, over its areas that are not zero, of length to thickness over the target ratio or the other way round: it is at least every one of them and equal to one; without such areas, or along a side without length, it is Infinity |
| TreemapGreedy.WorstIsUnique | vis/lib/d3/d3.layout.js:1747-1765 | there is only one such value |
| TreemapLayout.Position | vis/lib/d3/d3.layout.js:1768-1802 | the nodes of a nonempty row get its cells, the last one the mark, and the rest of the rectangle is returned |
| TreemapLayout.PositionX | vis/lib/d3/d3.layout.js:1775-1787 | the horizontal case |
| TreemapLayout.PositionY | vis/lib/d3/d3.layout.js:1788-1801 | the vertical case |
| TreemapLayout.SquarifyRows | vis/lib/d3/d3.layout.js:1692-1719 | the loop places all children as the cells say, whose rows SquarifyIsGreedy characterises, and never calls position with an empty row |
| TreemapGreedy.SquarifyIsGreedy | vis/lib/d3/d3.layout.js:1692-1719 | for every list of areas and every rectangle the cells are rows along the shorter side of what is left, one after the other: no area of a row made its worst aspect ratio worse, and the first of the next row would have |
| TreemapGreedy.SquarifyIsWhole | vis/lib/d3/d3.layout.js:1767-1803 | when lengths are rounded to integers, a rectangle with integer edges is divided into rectangles with integer edges |
| TreemapGreedy.StickifyIsWhole | vis/lib/d3/d3.layout.js:1767-1803 | the same for a sticky layout, whatever marks it follows |
| TreemapLayout.StickifyRows | vis/lib/d3/d3.layout.js:1729-1742 | the sticky loop places the children from their marks |
| TreemapLayout.Squarify | vis/lib/d3/d3.layout.js:1689-1722 | the whole subtree is laid out, every node in the cell its parent's layout gives it, with its mark at a row end and its older mark elsewhere |
| TreemapLayout.Stickify | vis/lib/d3/d3.layout.js:1726-1745 | the whole subtree is laid out with its rows ending at the marks, whatever they are |
| TreemapSticky.LayoutAgain | vis/lib/d3/d3.layout.js:1804-1816 | a later call: rows end at the marks for whatever size and values are set; what an earlier sticky call made, or squarify with no stale mark off a row end, does not move; without rounding, what squarify made keeps its rectangles exactly when the stale marks are harmless; the leaves tile the size |
| TreemapSticky.LayoutFirst | vis/lib/d3/d3.layout.js:1804-1816 | the first call: everything lies where squarify puts it, stale marks stay off row ends, and the leaves tile the size |
| TreemapSticky.ExactAreas | vis/lib/d3/d3.layout.js:1677-1722 | without rounding the area of every child is to that of the padded rectangle of its parent as their values are |
| TreemapSticky.StaleMarksDecide | vis/lib/d3/d3.layout.js:1784-1797 | the squarified tree carries its own marks and no others exactly when no stale mark is off a row end; this depends on values, paddings and stale marks alone |
| TreemapSticky.RelaidOnRowEnds | vis/lib/d3/d3.layout.js:1726-1745 | conversely, when a sticky layout is the squarified one with its marks and no others, no mark it followed was off a row end |
| TreemapSticky.HarmlessDecides | vis/lib/d3/d3.layout.js:1726-1745 | for a whole tree without rounding, with positive values and room for every parent: the sticky layout puts every node where squarify put it exactly when the stale marks are harmless at every node |
| TreemapSticky.HarmlessKeepsMark | vis/lib/d3/d3.layout.js:1784-1797 | and then every mark in the tree stays as it is |
| TreemapSticky.RelaidMarks | vis/lib/d3/d3.layout.js:1735-1741 | a sticky layout clears no mark and makes no new one |
| TreemapSticky.RelaidKeepsMark | vis/lib/d3/d3.layout.js:1724-1745 | for any new size and new values every mark in the tree stays, or turns from vertical to horizontal |
| TreemapSticky.RelaidRepeats | vis/lib/d3/d3.layout.js:1724-1745 | a tree that a sticky layout made lies where its own marks say |
| TreemapSticky.LiesAt | vis/lib/d3/d3.layout.js:1689-1745 | where squarify, or a sticky layout from given marks, puts a node at any depth is determined by values, paddings and those marks |
| TreemapTiling.ChildrenTile | vis/lib/d3/d3.layout.js:1689-1722 | the children of a laid-out node divide its padded rectangle without gap or overlap |
| TreemapTiling.SquarifiedTiles | vis/lib/d3/d3.layout.js:1689-1722 | in the whole squarified tree the children of every node lie within its padded rectangle and divide it, for any additive measure, so by area and point by point |
| TreemapTiling.StickyTiles | vis/lib/d3/d3.layout.js:1726-1745 | the same after a sticky layout, whatever marks it followed |
| TreemapTiling.LeavesTile | vis/lib/d3/d3.layout.js:1689-1745 | without padding, after squarify and after a sticky layout: every point of the rectangle is in exactly one leaf, no other point in any, and the areas of the leaves add up to its area |
| TreemapSticky.Treemap.Layout | vis/lib/d3/d3.layout.js:1804-1816 | the first call squarifies over whatever marks are there; every later sticky call follows the marks for the size and values set then, keeps every row, and repeated moves nothing; with nothing set in between, the first layout stays when no stale mark was off a row end, and without rounding its rectangles stay exactly when the stale marks were harmless; after any call, without padding, the leaves tile the size |
| TreemapSticky.Treemap.SetSize | vis/lib/d3/d3.layout.js:1818-1822 | setting the size keeps what the treemap remembers |
| TreemapSticky.Treemap.SetValue | vis/lib/d3/d3.layout.js:1100-1104 | so does setting the value function |
| TreemapTiling.PadIsProper | vis/lib/d3/d3.layout.js:1872-1880 | padding never gives a negative extent |
| TreemapTiling.PadMovesEdges | vis/lib/d3/d3.layout.js:1872-1881 | every edge moves in by its own padding; where two paddings leave nothing, both edges are put halfway between the places they would have |
| TimerQueue.SurvivesIff | vis/lib/d3/d3.js:2269-2321 | after a pass and its flush a callback is in the queue exactly when it was there or was registered meanwhile, and its last call did not return true |
| TimerQueue.PassKeeps | vis/lib/d3/d3.js:2274-2278 | during a pass callbacks stay distinct, older entries keep their order at the end of the list, and each entry is marked as its last call answered |
| TimerQueue.CalledIff | vis/lib/d3/d3.js:2274-2302 | a callback that is not registered during the pass is called exactly when then + delay is at most now in a step, and exactly when it has no delay in an immediate flush; it is given the time passed since then |
| TimerQueue.CalledInOrder | vis/lib/d3/d3.js:2274-2278 | calls are made down the list, so at most once for every entry and never for a callback that was not in it, and the n-th answer marks the n-th call |
| TimerQueue.KeptIs | vis/lib/d3/d3.js:2308-2321 | an entry that is not marked stays, unchanged |
| TimerQueue.KeptInOrder | vis/lib/d3/d3.js:2308-2321 | entries that stay keep their order |
| TimerQueue.KeptComesFrom | vis/lib/d3/d3.js:2308-2321 | and nothing else stays |
| TimerQueue.EarliestIsLeast | vis/lib/d3/d3.js:2308-2321 | the time returned is the least then + delay of the entries that stay, and there is none exactly when none stay |
| TimerQueue.RegisterKeeps | vis/lib/d3/d3.js:2230-2267 | registering keeps one entry per callback and the order of the others |
| TimerQueue.RegisterIs | vis/lib/d3/d3.js:2230-2259 | registering sets time and delay of the entry with that callback, or puts a new unmarked one in front, and leaves all others as they are |
| TimerQueue.LastRegistrationDecides | vis/lib/d3/d3.js:2242-2251 | of several registrations of a callback in one call the last decides |
| TimerQueue.NewGoInFront | vis/lib/d3/d3.js:2253-2259 | new callbacks go in front of the list, the last registered first |
| TimerQueue.RunIsAtRest | vis/lib/d3/d3.js:2230-2321 | in every run of registrations, steps and flushes the callbacks are distinct and nothing is marked in between |
| TimerQueue.RegisteringWhileDoneIsLost | vis/lib/d3/d3.js:2242-2259 | in every queue at rest: a callback whose last call in a pass returned true is gone after the flush, also when it was registered again in that pass |
| TimerQueue.RegisteringItselfIsLost | vis/lib/d3/d3.js:2242-2259 | one such input: a single timer that registers itself for later and returns true |
| TimerQueue.RunIsAwake | vis/lib/d3/d3.js:2261-2291 | in every run a queue with timers in it has a frame pending, or a timeout no later than any of them is due |
| TimerQueue.RingKeepsAwake | vis/lib/d3/d3.js:2280-2290 | every operation keeps this, whatever wakes the steps |
| TimerQueue.StepArranges | vis/lib/d3/d3.js:2280-2290 | after a step the next frame is requested exactly when some timer left is due within 24 ms; else the timeout is set to the first one that is due, if any is left |
| TimerQueue.SingleIff | vis/lib/d3/d3.js:2261-2291 | while at most one frame is pending, an operation keeps it so exactly when it is not a step that a timeout made run and in which a callback registers a timer |
| TimerQueue.RunIsSingleIff | vis/lib/d3/d3.js:2261-2291 | so a run never has two frames pending exactly when no step of it is of that kind |
| TimerQueue.TwoFramesPending | vis/lib/d3/d3.js:2261-2291 | one such run: a timer due in a second registers another one when its timeout comes |
| TimerList.Timers.Add | vis/lib/d3/d3.js:2230-2267 | the linked list is updated in place or extended at its head, and a sleeping queue is woken |
| TimerList.Timers.Update | vis/lib/d3/d3.js:2241-2251 | the entry of the callback is found and updated when there is one |
| TimerList.Timers.Rearm | vis/lib/d3/d3.js:2280-2290 | the next step is arranged: by a frame, by a timeout when nothing is due within 24 ms, or not at all |
| TimerList.Timers.Visit | vis/lib/d3/d3.js:2274-2278 | walking the list while callbacks extend it visits each entry of the start once |
| TimerList.Timers.Unlink | vis/lib/d3/d3.js:2313-2314 | taking a node out leaves a proper list |
| TimerList.Timers.Flush | vis/lib/d3/d3.js:2308-2321 | the marked nodes are unlinked, the list stays acyclic, and the earliest time is returned |
| TimerList.Timers.Step | vis/lib/d3/d3.js:2269-2291 | a step is a pass over due entries, a flush, and the next step arranged |
| TimerList.Timers.FlushNow | vis/lib/d3/d3.js:2293-2305 | an immediate flush is a pass over entries without delay and a flush |
| StepOrder.EnsureInstallCmd | lib/elastic-mapreduce-ruby/commands.rb:269-296 | the list with the first install kept, or one made before the first step of the class, and the later ones dropped |
| StepOrder.ReorderToFront | lib/elastic-mapreduce-ruby/commands.rb:335-344 | the step comes first and the others of its class are dropped |
| StepOrder.ReorderOne | lib/elastic-mapreduce-ruby/commands.rb:298-300 | what each class of step does to the list; the lemmas on installs, debugging and restore say what the whole reordering comes to |
| StepOrder.ReorderSteps | lib/elastic-mapreduce-ruby/commands.rb:1049-1056 | every step has its turn, in the original order, on the list so far |
| StepOrder.OthersKeepOrder | lib/elastic-mapreduce-ruby/commands.rb:1049-1056 | steps other than installs, debugging and restore are neither lost nor added nor reordered |
| StepOrder.EnsuredIsAhead | lib/elastic-mapreduce-ruby/commands.rb:269-296 | once the first user of an install has had its turn, exactly one install remains, ahead of all users |
| StepOrder.AheadReorder | lib/elastic-mapreduce-ruby/commands.rb:298-300 | no later turn undoes that |
| StepOrder.PigInstallAhead | lib/elastic-mapreduce-ruby/commands.rb:383-385 | without Pig on the job flow, exactly one Pig install ahead of every Pig script whenever there is one |
| StepOrder.HiveInstallAhead | lib/elastic-mapreduce-ruby/commands.rb:681-706 | without Hive on the job flow, exactly one Hive install ahead of every Hive script and site step whenever there is one |
| StepOrder.PigInstallIs | lib/elastic-mapreduce-ruby/commands.rb:269-296 | without Pig on the job flow and with a Pig script: of all steps besides debugging, restore and Hive installs everything before the first Pig step stays, then comes the one install, the first of the list or one made for that script, and then the rest without other Pig installs |
| StepOrder.HiveInstallIs | lib/elastic-mapreduce-ruby/commands.rb:269-296 | the same for Hive |
| StepOrder.PigInstallsStay | lib/elastic-mapreduce-ruby/commands.rb:271-273 | with Pig on the job flow, and whatever holds of Hive, the Pig installs are those of the list, in order |
| StepOrder.HiveInstallsStay | lib/elastic-mapreduce-ruby/commands.rb:271-273 | the same for Hive |
| StepOrder.PresentInstallStays | lib/elastic-mapreduce-ruby/commands.rb:271-273 | and so are all steps but debugging, restore and the other install |
| StepOrder.UnusedInstallsStay | lib/elastic-mapreduce-ruby/commands.rb:298-300 | without a user no install is added or dropped |
| StepOrder.FrontStepsFirst | lib/elastic-mapreduce-ruby/commands.rb:568-576 | debugging and restore remain at most once each, ahead of all other steps, and do remain when they were there |
| StepOrder.LastFrontStepRemains | lib/elastic-mapreduce-ruby/commands.rb:335-344 | of several debugging steps the last one remains, and of several restore steps |
| StepOrder.LastFrontStepIsFirst | lib/elastic-mapreduce-ruby/commands.rb:335-344 | the last of all debugging and restore steps is the very first step |
| CommandFold.FoldCommands | lib/elastic-mapreduce-ruby/commands.rb:1985-2039 | the loop computes the fold of the command line |
| CommandFold.FoldKeeps | lib/elastic-mapreduce-ruby/commands.rb:1985-2039 | reading the create commands, the steps, the bootstrap actions, the instance groups or the other commands out of the folded ones gives those of the command line in its order |
| CommandFold.CreateTakes | lib/elastic-mapreduce-ruby/commands.rb:1988-2031 | a create command takes exactly the steps, bootstrap actions and instance groups between it and the next create command, whatever comes before it |
| CommandFold.StepsFoldTogether | lib/elastic-mapreduce-ruby/commands.rb:1993-2017 | before any create command all steps go into one add-steps command in the place of the first of them, and all other commands stay as they are |
| CommandFold.FoldFailsIff | lib/elastic-mapreduce-ruby/commands.rb:1993-2034 | for every command line: folding fails exactly when some bootstrap action has no create command before it, or some new instance group has neither a create command nor a step before it |
| Bundle.BundleAncestors | vis/lib/d3/d3.layout.js:33-43 | the node, its parent, and so on to the root |
| Bundle.LeastCommonAncestor | vis/lib/d3/d3.layout.js:45-58 | popping both lines from the root finds where they part, and the loop ends: it never compares two empty lists |
| Bundle.LcaIsDeepest | vis/lib/d3/d3.layout.js:45-58 | the node found is an ancestor of both, and no common ancestor is deeper |
| Bundle.BundlePath | vis/lib/d3/d3.layout.js:16-31 | up from the source to that node and down to the target |
| Bundle.PathIsSimple | vis/lib/d3/d3.layout.js:16-31 | the path starts and ends at the two nodes, consecutive nodes are parent and child, and no node repeats |
| Bundle.PathIsUnique | vis/lib/d3/d3.layout.js:16-31 | it is the only such path |

## Left out

- Hull.SortByAngle: angles are compared by the sign of the cross product instead of rounded `atan2` values, and insertion sort stands for the library sort, of which only a sorted permutation is used.
- Hull.ConvexHull: coordinates are exact reals; rounding in the cross products is not modelled.
- Quadtree.SquareBounds: the bounds of an empty list, infinite or NaN in the program, are one value, None. Points outside the bounds given and NaN coordinates are not modelled.
- Force.ForceAccumulate: the random jitter is a parameter.
- Force.ApplyCharges: forces other than the charges are not modelled.
- Force.RepulsionIsAllPairs: the distance criterion is compared in squares, for cells of nonnegative width; `FarEnoughIff` states it for the distance itself.
- Json.ToJson: numbers are integers; floats and other objects printed through `to_s` are not modelled.
- JsonLexer.Parse: numbers other than plain decimal integers, the `%` unescape, and keys that are arrays or objects have the result Unmodelled.
- Csv.ParseRows: the row callback of `parse` that turns rows into objects is not modelled.
- UuidGenerator.RunIsUnique: the mutex, reading the MAC address and the random source are parameters of a call; calls happen one after the other.
- DataJoin.Bind: null nodes, a group that lists a node twice, names on `Object.prototype` as keys, and the `this` of the key function are not modelled; joining by index without keys is not modelled.
- InterpolateString.MakeTemplate: the regular expression is a list of ordered, nonempty, non-overlapping matches, and the values of the numbers at t are given as text.
- LinearScale.Output: clamping, rounding and interpolators other than the numeric one are not modelled.
- TreeShift.MoveAndShift: which moves apportioning makes, and what it reads between them, is not modelled; the moves are any list.
- TreemapExact.RectsReproducedIff: with rounding only one half is stated, for marks that are all at row ends (`StickifyReproducesIff`); rounded lengths can agree by chance.
- TreemapSticky.Treemap.Layout: values are nonnegative and a parent has the sum of its children; a node of value 0, whose share is NaN in the program, has children of area 0 as there. Padding is a property of the node instead of a function of it, and the values of all nodes are given by one function.
- TimerList.Timers.Step: frames are counted and any trigger may run a step; callbacks that raise or that flush the queue themselves, and infinite delays, are not modelled.
- StepOrder.EnsureInstallCmd: the check of a made install step, which raises when the apps path is missing, is not modelled; whether the job flow has an install is a parameter.
- CommandFold.FoldCommands: create commands are changed through their place in the list of actions, not through a shared object.
- Bundle.BundlePath: nodes of different trees, for which the program walks past the root, are not modelled.
- DOM selections, transitions, events, SVG and WebGL drawing, map projections, Voronoi diagrams, contours and time formats: user interface or transcendental numerics.
- Requests, credentials, ssh, option parsing and help texts of the EMR client: input and output.
- Pig scripts, packet capture and GeoIP: foreign libraries.
