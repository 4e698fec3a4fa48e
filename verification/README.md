# Verified models of the MicroPython `extmod` algorithms

MicroPython's `extmod` directory holds, among many bindings, a number of self-contained algorithms: a frame buffer
(here with a log of changed byte indexes), the accept queue and receive path of the lwIP sockets, a JSON reader, the
WebSocket framing, the size computation of `uctypes`, the ring buffer of the I2S driver, a bit-banged I2C master, a
binary heap, AES in counter mode and base64. This project models them in Dafny and proves what each is for, over all
inputs, all runs and all interleavings. `dafny verify dfyconfig.toml` checks it all.

How the parts fit together:

- **Frame buffer.** `PixelFormat` and `PixelGeometry` say where each pixel lives: every bit of the buffer is the place
  of exactly one cell. `Canvas` reads the bytes as a picture, and `ByteLayout` gives each byte as a number made of the
  colours of its pixels. Because the picture includes the padding cells, it fixes every bit of the buffer, and any two
  fills with the same picture leave the same bytes. `FrameBuffers` holds the object, its pixel access, its fast fills
  and the change log, `ChangeLog` and `DrawnChanges` whole runs of drawing. `Painting` and `Line`, `Scroll`,
  `EllipseArcs` and `Ellipse`, `Crossings`, `NodeSort` and `PolygonFill` prove of each drawing routine which pixels it
  paints and that it touches nothing else.
- **JSON.** `JsonMachine` is the explicit-stack parser as a step function on a heap of containers, `JsonLoader` the
  imperative parser proved equal to it on every text, `JsonGrammar` the recursive grammar of section 2 of RFC 4627
  with a recursive meaning, and `JsonTheorem` the agreement of the two. `JsonReference` is a recursive reader without
  stack or heap, and `JsonAgreement` proves that the parser agrees with it on every text, well formed or not.
- **WebSocket.** `WebSocketFrames` defines the frames (sections 5.2 and 5.3 of RFC 6455) and the payload that a byte
  stream carries; `WebSockets` is the resumable reader over a transport that may give any number of bytes, or none, at
  each call, and the writer.
- **lwIP.** `AcceptQueue` and `AcceptRuns` are the circular queue of unaccepted connections and its histories,
  `TcpReceive` the buffer chain with its offset.
- **The others.** `Uctypes` and `UctypesSizes`; `Ring`, `RingConcurrent` and `RingDriver`; `I2CBus` and `SoftI2C`;
  `Heapq`; `CtrMode`; `Base64` and `Base64Codec`.

Where the code does not do what one would expect of it, the model follows the code and says exactly when the
expectation holds:

- `listen` keeps the backlog in one byte. A backlog above one that is a multiple of 256 is stored as zero, and the
  pointer to the slots is then taken for a single slot; the queue is sound exactly for all the others
  (`AcceptQueue.Listener.constructor`).
- `accept` picks its slot before it waits. Overlapping calls follow a plain queue exactly when no poll is late
  (`AcceptRuns.FollowsIffNeverLate`); one call at a time or a single slot is enough, and for every larger capacity two
  overlapping calls can stop the socket for good (`AcceptRuns.JamIsReached`, `AcceptRuns.JamIsForever`).
- The change log stores 16-bit indexes and stops when it is full. After pixel writes it misses nothing exactly when
  there were none, or the frame ends within 65536 bytes and there were no more writes than entries, or the frame is a
  single byte (`ChangeLog.AlwaysListedIff`). Rectangle fills, the spans of filled ellipses and those of polygons are
  not logged: their changes are listed exactly when each pixel about to change lies in a byte listed already
  (`DrawnChanges.ListedIffForeseen`).
- A polygon edge that meets a row exactly in a column is placed there exactly when that column is not negative: the
  rounding adds one half and truncates towards zero (`Crossings.NodeOfWholeColumn`). The column of every crossing is
  given by an if and only if (`Crossings.NodeIff`).
- The two arcs of an ellipse need not meet. The radii alone decide which pixels either arc has
  (`EllipseArcs.PixelsOfArc`) and whether every row has one (`EllipseArcs.EveryRowIff`): circles always do, and half
  width one does not from half height four on.
- An I2C read refuses the last byte exactly when the last buffer is not empty; otherwise a stop is seen only if the next
  bit of the slave happens to be a one (`I2CBus.LastIsRefusedIff`, `SoftI2C.Master.ReadTransfer`).
- The JSON parser takes commas and colons for blanks, compares no brackets and keeps a key without a value for the next
  container; what it accepts is exactly what a small recursive reader accepts (`JsonAgreement.LoadIsLoadTree`).
- When every structure has a field and every array an element, the size that `sizeof` reports is the least that holds
  every access in the packed layouts (`UctypesSizes.PackedSizeIsLeast`), and in the native one, without inner
  structures, the least multiple of the largest scalar that does (`UctypesSizes.NativeSizeIsLeast`).
- Two base64 texts one after the other decode to both messages exactly when the first has no padding or the second is
  empty (`Base64.DecodeOfTwo`).

## Model

| member | source | states |
|---|---|---|
| PixelFormat.ReadAfterWrite | extmod/modframebuf.c:97-108 | In each of the five formats, reading a place of a byte after writing a place gives the stored colour at the place written and the former colour at every other |
| PixelFormat.StoredOfRead | extmod/modframebuf.c:105-109 | A colour that was read survives being stored again, so that reading and writing back is the identity |
| PixelGeometry.CellsAreDistinct | extmod/modframebuf.c:97-102 | No two cells of a layout share a place in a byte, for any stride and any format |
| PixelGeometry.EveryPlaceIsACell | extmod/modframebuf.c:97-102 | Every place of every byte belongs to a cell, so that the picture determines the bytes |
| PixelGeometry.FrameFitsNeeded | extmod/modframebuf.c:393-434 | Every pixel of the frame lies in a byte below the size that construction demands |
| PixelGeometry.NeededIsExact | extmod/modframebuf.c:393-434 | That size is not one byte too large: its last byte holds the last pixel |
| PixelGeometry.StrideIsLeast | extmod/modframebuf.c:398-424 | The stored stride is the least one from the given stride on that the format can work with; nothing else about the arguments is altered |
| PixelGeometry.MakeAccepts | extmod/modframebuf.c:388-434 | Construction succeeds if and only if the sizes are in range and every pixel of the frame would lie in the buffer |
| FrameBuffers.Make | extmod/modframebuf.c:382-455 | An object is made exactly when the layout is accepted; it works on the caller's bytes and starts with an empty log |
| FrameBuffers.FrameBuffer.constructor | extmod/modframebuf.c:436-454 | The new object has its layout and buffer, an empty log of the capacity of the buffer and the cleared flag off |
| Canvas.PlotPixel | extmod/modframebuf.c:78-103 | After setting one pixel, each cell of the whole buffer, padding included, has its former colour except the one that was set |
| Canvas.PlotFills | extmod/modframebuf.c:78-103 | Setting a pixel is filling the rectangle of that one pixel |
| Canvas.PictureDeterminesBytes | extmod/modframebuf.c:105-109 | Two buffers that show the same picture in all cells are equal byte for byte |
| Canvas.PlotRectFills | extmod/modframebuf.c:353-355 | Setting the pixels of a rectangle one after another fills it: the simple form of every fast fill |
| Canvas.FilledIsPixelByPixel | extmod/modframebuf.c:367-380 | Any routine that fills a rectangle leaves the very bytes that setting its pixels one at a time leaves |
| ByteLayout.StoredIs | extmod/modframebuf.c:97-333 | The stored colour is the colour modulo 256, modulo 16, or one for every colour but zero |
| ByteLayout.VerticalByte | extmod/modframebuf.c:140-152 | Byte i of the vertical mono format is a column of eight pixels, number i modulo the stride in band i divided by the stride, and the pixel k rows down is worth two to the k |
| ByteLayout.HorizontalByte | extmod/modframebuf.c:91-109 | Byte i of the horizontal mono formats is eight pixels of a row, and the pixel k from the left is worth two to the k in one of them and two to the 7 - k in the other |
| ByteLayout.PairByte | extmod/modframebuf.c:256-275 | A byte of the four-bit format is sixteen times its left pixel plus its right one |
| ByteLayout.WholeByte | extmod/modframebuf.c:323-333 | A byte of the eight-bit format is the pixel of its column and row |
| FrameBuffers.FrameBuffer.SetPixel | extmod/modframebuf.c:78-103 | Outside the frame nothing changes and an error is returned, except in the four-bit format, which writes any cell of the buffer; otherwise exactly one cell changes and its byte is logged, after an emptying of the log if that is due |
| FrameBuffers.FrameBuffer.GetPixel | extmod/modframebuf.c:363-365 | Returns the colour of the cell in the picture, which storing again would not alter |
| FrameBuffers.FrameBuffer.WriteBit | extmod/modframebuf.c:111-123 | The read-modify-write of one bit in the mono fills paints exactly one pixel |
| FrameBuffers.FrameBuffer.FillMvlsb | extmod/modframebuf.c:155-165 | The vertical mono fill paints exactly the rectangle |
| FrameBuffers.FrameBuffer.FillMonoHoriz | extmod/modframebuf.c:111-123 | The horizontal mono fills, in both bit orders, paint exactly the rectangle |
| FrameBuffers.FrameBuffer.FillGs8 | extmod/modframebuf.c:335-341 | The fill with one memset per row paints exactly the rectangle |
| FrameBuffers.FrameBuffer.WriteNibble | extmod/modframebuf.c:288-301 | The half bytes at the odd ends of a row paint exactly one pixel |
| FrameBuffers.FrameBuffer.SetPairs | extmod/modframebuf.c:294-295 | The memset in the middle of a row paints exactly two pixels per byte |
| FrameBuffers.FrameBuffer.FillGs4Row | extmod/modframebuf.c:285-305 | One row, in all four cases of odd and even start and width, paints exactly its pixels and moves to the byte in which the next row starts |
| FrameBuffers.FrameBuffer.FillGs4 | extmod/modframebuf.c:277-306 | The four-bit fill paints exactly the rectangle |
| FrameBuffers.FrameBuffer.FillRect | extmod/modframebuf.c:367-380 | For any integers, the clipped fill paints the intersection with the frame and no other cell, leaves every byte from the demanded size on as it was, and logs nothing |
| FrameBuffers.TailIsKept | extmod/modframebuf.c:367-380 | A fill inside the frame leaves every byte from the demanded size on as it was |
| FrameBuffers.FrameBuffer.Fill | extmod/modframebuf.c:483-493 | Paints the whole frame, empties the log and turns the cleared flag off |
| FrameBuffers.FrameBuffer.GetChanges | extmod/modframebuf.c:473-480 | Returns the logged indexes, in order |
| FrameBuffers.NotedInParts | extmod/modframebuf.c:86-95 | The log of two runs of pixel writes one after the other is the log of the second on that of the first |
| FrameBuffers.NotedIs | extmod/modframebuf.c:86-95 | After any pixel writes the log is the former one, or the empty one if an emptying was due, followed by the 16-bit byte indexes of the points in the frame in order, cut at the capacity |
| ChangeLog.LogIsAPrefix | extmod/modframebuf.c:86-95 | After any run of pixel writes the log holds the 16-bit indexes of the first ones, in order, as many as the capacity allows |
| ChangeLog.UnwrittenBytesAreKept | extmod/modframebuf.c:86-103 | A byte that no write of the run aims at is as it was before the run |
| ChangeLog.ChangedBytesAreLogged | extmod/modframebuf.c:443-447 | When the frame ends within 65536 bytes and there are no more writes than the capacity, or the frame is a single byte, each byte that differs is listed |
| ChangeLog.AlwaysListedIff | extmod/modframebuf.c:86-95 | The exact condition: for all contents and all runs of at most k writes nothing is missed if and only if k is zero, or the frame ends within 65536 bytes and k is at most the capacity or the frame is a single byte |
| ChangeLog.HighWriteIsMissed | extmod/modframebuf.c:45-48 | A write of a new colour beyond byte 65535 is a change that is not listed |
| ChangeLog.HighBytesAreNeverListed | extmod/modframebuf.c:45-48 | An index of 65536 or more is never in the log, whatever the run |
| ChangeLog.FullLogMissesAChange | extmod/modframebuf.c:86-95 | One write more than the capacity can leave a changed byte out of the list, on every buffer whose frame has pixels in two bytes |
| ChangeLog.LastWriteChangesItsByte | extmod/modframebuf.c:97-103 | A write of a new colour to a byte that no earlier write of the run touched changes that byte |
| DrawnChanges.ListedIffForeseen | extmod/modframebuf.c:367-380 | For any painting, be it a box, an ellipse, a polygon or a line, and any log: every changed byte is listed if and only if each pixel that is about to change lies in a byte listed |
| DrawnChanges.DrawFrameAndBox | extmod/modframebuf.c:367-380 | After a frame and a rectangle the list is complete if and only if each pixel that the rectangle is about to change lies in a byte listed before it |
| DrawnChanges.NotedKeeps | extmod/modframebuf.c:86-95 | With room in the log, the index of every pixel written in the frame is in it afterwards |
| DrawnChanges.PaintedIsListed | extmod/modframebuf.c:86-95 | A routine that paints only pixels it writes one at a time, with room in the log, lists every byte it changes |
| DrawnChanges.LineIsListed | extmod/modframebuf.c:564-622 | So does every line |
| ChangeLog.DrawFrame | extmod/modframebuf.c:473-493 | A fill, any run of pixel writes and a query: the buffer is the filled one after those writes, the answer is the log of those writes, and it lists all changes under the exact condition |
| Painting.SetChecked | extmod/modframebuf.c:357-361 | Paints and logs one pixel if the mask is on and it is in the frame, and nothing otherwise |
| Painting.PaintBox | extmod/modframebuf.c:367-380 | The clipped fill paints exactly the pixels of the box that are in the frame, and logs nothing |
| Line.RoundedBounds | extmod/modframebuf.c:600-617 | The rounded minor distance is the only integer between the bounds that the error term keeps |
| Line.OneStep | extmod/modframebuf.c:611-614 | The minor coordinate moves by at most one for each step of the major one |
| Line.StepSign | extmod/modframebuf.c:611-614 | The error is not negative exactly when the next point of the ideal line rounds to the next minor coordinate, and is negative afterwards |
| Line.StepMinor | extmod/modframebuf.c:611-614 | The inner loop ends after at most one turn with the rounded minor coordinate and the closed form of the error |
| Line.StepWalk | extmod/modframebuf.c:611-616 | One turn of the outer loop keeps the closed forms of both coordinates and of the error |
| Line.Prepare | extmod/modframebuf.c:565-600 | The signs, lengths and exchange of axes give the walk with its longer axis first |
| Line.OnWalkIsAPoint | extmod/modframebuf.c:600-621 | A pixel is painted if and only if it is one of the points of the walk |
| Line.Endpoint | extmod/modframebuf.c:619-621 | The walk starts at the first end and reaches the second exactly, steep or not |
| Line.DrawLine | extmod/modframebuf.c:564-622 | For any two ends, in the frame or not, paints exactly those pixels of the rounded line that are in the frame, and logs them in the order of the walk |
| Line.LineIsNearest | extmod/modframebuf.c:600-617 | No point is more than half a pixel from the ideal line, nor outside the box of the two ends |
| Line.LineIsConnected | extmod/modframebuf.c:600-617 | Successive points are different neighbours, diagonals included |
| Line.RoundedIsMonotone | extmod/modframebuf.c:611-616 | The minor coordinate never goes back |
| Line.LineIff | extmod/modframebuf.c:564-622 | Which pixels a line has, from the coordinates of its ends alone: those between the ends along the longer axis whose distance along the other is the exact one rounded, halves away from the first end |
| Scroll.SourceIsStillOld | extmod/modframebuf.c:936-970 | At the moment a pixel is copied, its source has not been overwritten: the reason for the four traversal orders |
| Scroll.OneMove | extmod/modframebuf.c:967-969 | One copy extends by one pixel the part of the picture that has its final colours |
| Scroll.ScrollRow | extmod/modframebuf.c:966-970 | One row of copies brings the front to the next row and logs the copied pixels in order |
| Scroll.ScrollOrder | extmod/modframebuf.c:941-970 | Each pixel that moves is written once, at its place in the order of rows and columns that starts from the edge the picture moves towards |
| Scroll.ScrollBy | extmod/modframebuf.c:931-972 | The in-place scroll by any steps equals the simultaneous copy: a pixel whose source is in the frame takes its old colour, every other cell keeps its own; the copied pixels are logged in the order of the traversal |
| EllipseArcs.RowStep | extmod/modframebuf.c:697-709 | One turn of the loop keeps the closed forms of the error, of both changes and of both stopping values, and makes the decision of the midpoint rule |
| EllipseArcs.SlopeTest | extmod/modframebuf.c:695-705 | The loop test compares the two sides of the slope of the ellipse |
| EllipseArcs.NextIsNearer | extmod/modframebuf.c:701-708 | For positive radii the column moves in exactly when the inner pixel has the smaller absolute error |
| EllipseArcs.NearestColumn | extmod/modframebuf.c:701-708 | When a column is nearer than all those outside it, and when it is at least as near as all those inside: each if and only if a sum of two errors has the right sign |
| EllipseArcs.ArcBeatsOutside | extmod/modframebuf.c:697-709 | Over a whole arc, each column has a positive sum of its error and that of the next one out |
| EllipseArcs.ArcBeatsInside | extmod/modframebuf.c:697-709 | Over a whole arc, the sum of the error of a drawn column and that of the next one in is not positive: the slope test is what makes one step inwards enough |
| EllipseArcs.ArcIsNearest | extmod/modframebuf.c:697-730 | With positive radii, every drawn pixel of either arc is the nearest of its row to the ellipse, among all columns on its side: strictly against those further out |
| EllipseArcs.FlatArcStops | extmod/modframebuf.c:697-730 | With one radius zero, the column still moves in once it has reached the axis, so that the loop ends |
| EllipseArcs.ArcIsUnique | extmod/modframebuf.c:688-730 | The radii determine the drawn arc: no two runs can differ |
| Ellipse.LoopProgress | extmod/modframebuf.c:697-730 | As long as a loop goes on, the difference of the two stopping values decreases, for all radii that are not both zero |
| Ellipse.CoversIff | extmod/modframebuf.c:646-666 | A computed point stands for the pixels of the chosen quadrants at its distance from the vertical and from the horizontal axis, or, filled, at no more than its distance from the vertical one |
| Ellipse.WritesAreCovered | extmod/modframebuf.c:646-666 | Unfilled, the logged writes of an arc are exactly at the pixels it covers; filled, there are none |
| Ellipse.DrawPoints | extmod/modframebuf.c:646-666 | Paints the four mirrored points, or the four spans when filling, of the quadrants that the mask selects; the points are logged and the spans are not |
| Ellipse.FirstArc | extmod/modframebuf.c:688-709 | Ends, and paints and logs exactly the arc of the steep part |
| Ellipse.SecondArc | extmod/modframebuf.c:710-730 | Ends, and paints and logs exactly the arc of the flat part, with the axes exchanged |
| Ellipse.Advance | extmod/modframebuf.c:699-708 | One turn of either loop keeps the closed forms, makes the midpoint decision and brings the two stopping values together |
| Ellipse.DrawEllipse | extmod/modframebuf.c:668-732 | For all radii, paints the two arcs in the selected quadrants, or one pixel when both radii are zero, and nothing else; opens the log if that is due and logs exactly the pixel writes |
| EllipseArcs.PixelsOfArc | extmod/modframebuf.c:697-730 | Exactly which pixels an arc has, from the radii alone: those that are on its side of the slope test and the nearest of their row to the ellipse |
| EllipseArcs.RowsOfArc | extmod/modframebuf.c:697-709 | Exactly which rows the steep arc has, from the radii alone: those in which a pixel fits |
| EllipseArcs.RowDrawnIff | extmod/modframebuf.c:697-730 | A row gets a pixel if and only if, by the radii, one fits in it on the steep side or it is the nearest row of some column on the flat side |
| EllipseArcs.EveryRowIff | extmod/modframebuf.c:697-730 | Every row gets a pixel if and only if, by the radii, some row of the flat side lies directly below one in which a pixel of the steep side fits |
| EllipseArcs.CircleIsClosed | extmod/modframebuf.c:697-730 | A circle has a pixel in every row |
| EllipseArcs.ThinEllipseIff | extmod/modframebuf.c:697-730 | An ellipse of half width one has a pixel in every row if and only if its half height is at most three; with ten, rows eight and nine have none |
| Ellipse.PaintedRowIff | extmod/modframebuf.c:646-666 | A row of the upper half shows a pixel, filled or not, if and only if one of the arcs has a point in it |
| Ellipse.EllipseByRadii | extmod/modframebuf.c:668-732 | The whole picture by the radii alone: what is painted is the quadrant images of the nearest pixels of either side |
| Ellipse.FilledEllipseLogsNothing | extmod/modframebuf.c:646-666 | A filled ellipse with a radius that is not zero adds nothing to the log |
| Crossings.CrossingParity | extmod/modframebuf.c:775-809 | The number of crossings collected up to a vertex is odd exactly when that vertex and the first one are on different sides of the scan line |
| Crossings.CrossingsAreEven | extmod/modframebuf.c:775-809 | A closed list of vertices is crossed an even number of times, at most once per vertex |
| Crossings.NodeIsOnEdge | extmod/modframebuf.c:790-792 | A crossing lies between the ends of its edge, up to the one column by which negative ones are rounded right |
| Crossings.NodeIsNear | extmod/modframebuf.c:790-792 | A crossing from -17/32 on is placed less than 17/32 of a column from the exact intersection; one further left is placed between 15/32 and 48/32 too far right |
| Crossings.NodeIff | extmod/modframebuf.c:790-792 | Which column a crossing gets, as an if and only if over all columns, by the gap between column and edge and the height of the edge: the two truncating divisions are stated by the bounds that single out their results, on both sides of column zero |
| Crossings.NodeRoundsHalfUp | extmod/modframebuf.c:790-792 | When the first division is exact and the crossing lies from column -1/2 on, the column is the one within half a column of it, and the right one of two at a half |
| Crossings.NodeOfWholeColumn | extmod/modframebuf.c:790-792 | An edge, slanted or not, that meets the row exactly in a column is placed there if and only if that column is not negative, and one column too far right otherwise |
| Crossings.NodeOfVerticalEdge | extmod/modframebuf.c:790-792 | In particular a vertical edge is placed at its own column exactly from column zero on |
| Crossings.CountIsPosition | extmod/modframebuf.c:815-833 | In a sorted list, the number of crossings left of a column is the position at which it divides the list |
| Crossings.PairsAreEvenOdd | extmod/modframebuf.c:830-833 | The spans between the crossings 0 and 1, 2 and 3, and so on, cover exactly the crossings and the columns with an odd number of crossings to the left |
| Crossings.CountOfPermutation | extmod/modframebuf.c:815-828 | Sorting does not alter the number of crossings left of a column |
| Crossings.InsideOfPermutation | extmod/modframebuf.c:815-833 | Sorting does not alter the even-odd rule |
| Crossings.CountIsTrue | extmod/modframebuf.c:790-792 | For any polygon, a column clear of where the rounding may put the crossings has as many rounded crossings to its left as the polygon has exact ones |
| Crossings.InsideIsTrue | extmod/modframebuf.c:775-833 | So the rounded even-odd rule is that of the polygon itself |
| Crossings.CountIsPlaced | extmod/modframebuf.c:775-792 | Collected crossings left of a column are counted, and those on it found, by the rule of the columns alone |
| Crossings.InsideIff | extmod/modframebuf.c:775-833 | So the even-odd interior of a row is stated without the formula of the crossings |
| Crossings.EdgeIs | extmod/modframebuf.c:776-787 | The edges walked are those from each vertex to the one before it, closed at the first |
| NodeSort.SwapProgress | extmod/modframebuf.c:815-828 | A swap and the step back keep the sorted front and the one item that travels through it |
| NodeSort.SortNodes | extmod/modframebuf.c:815-828 | The swap-and-step-back sort ends with a sorted permutation of the stored crossings |
| PolygonFill.HorizontalLine | extmod/modframebuf.c:799-804 | The line routine between two points of a row paints exactly the columns between them |
| PolygonFill.PaintBottom | extmod/modframebuf.c:793-805 | For an edge that ends in the scan line at its lower end, paints and logs that end; for a horizontal edge in the line, all of it |
| PolygonFill.BottomIff | extmod/modframebuf.c:793-805 | The lower end painted in a row: the pixel of an end that has the other end no lower in the picture, or all pixels between the ends of a horizontal edge |
| PolygonFill.WalkEdges | extmod/modframebuf.c:775-809 | The edge loop stores exactly the crossings of the scan line, never past the array, and paints and logs the lower ends |
| PolygonFill.FillSpans | extmod/modframebuf.c:830-833 | Paints the spans between successive pairs of stored crossings, each with a start that is not after its end, and logs nothing |
| PolygonFill.RowIsComplete | extmod/modframebuf.c:775-833 | Lower ends and spans together are the even-odd interior of the row |
| PolygonFill.FillRow | extmod/modframebuf.c:775-833 | One scan line paints exactly the pixels of the polygon in that row and logs the lower ends |
| PolygonFill.NothingOutside | extmod/modframebuf.c:766-775 | Rows above the topmost or below the lowest vertex have nothing to paint |
| PolygonFill.RowRange | extmod/modframebuf.c:766-773 | The two rows found are those of the highest and the lowest vertex |
| PolygonFill.FillPolygon | extmod/modframebuf.c:752-834 | For any list of vertices, the empty one included, paints exactly the polygon: the even-odd interior of the crossings and the lower ends of the edges, the latter logged in order |
| PolygonFill.PolygonCoversIff | extmod/modframebuf.c:752-834 | Which pixels a polygon has: those on a crossing, those with an odd number of crossings to the left, and the lower ends, with the crossings stated by the rule of the columns |
| PolygonFill.PolygonIsTrue | extmod/modframebuf.c:752-834 | For any polygon, a pixel clear of the edges and on no lower end is painted exactly when it is inside the polygon itself |
| JsonMachine.ScanAdvances | extmod/modjson.c:202-247 | A string that is accepted ends inside the text and beyond its start |
| JsonMachine.RoundAdvances | extmod/modjson.c:160-339 | Every turn of the parser that goes on consumes a character and keeps stack and containers consistent; one that succeeds leaves a top value |
| JsonTokens.HexReadsCode | extmod/modjson.c:225-233 | The unchecked arithmetic on four hexadecimal digits, each in either case, gives the number they spell |
| JsonTokens.ScanChar | extmod/modjson.c:204-240 | Each way of writing a character, plain, short escape or code escape, adds its meaning and moves past it |
| JsonTokens.ScanChars | extmod/modjson.c:202-247 | A string written in any mixture of those ways is read as the string |
| JsonTokens.RunReads | extmod/modjson.c:248-273 | The number loop takes exactly the run of number characters |
| JsonTokens.IntegerReads | py/parsenum.c:49-120 | An optional sign and any number of digits are read as the number of which they are the decimal writing, without a bound on its size |
| JsonTokens.DecimalReads | py/parsenum.c:74-111 | The decimal writing of every natural number, built by division by ten, is read as that number |
| JsonTokens.ZerosReadAsNothing | py/parsenum.c:74-111 | Leading zeros alter nothing |
| JsonTokens.ValueIsWritten | py/parsenum.c:74-111 | Any digits are the decimal writing of the value read from them, behind zeros |
| JsonTokens.WrittenOnce | py/parsenum.c:74-111 | Digits write no other number |
| JsonTokens.IntegerIff | py/parsenum.c:49-140 | Any text is read as an integer if and only if it is an optional sign and a decimal writing of that integer |
| JsonTokens.HexDigitIs | extmod/modjson.c:225-233 | The digits of a code escape are the sixteen hexadecimal ones, in either case |
| JsonTokens.CodeOfNibbles | extmod/modjson.c:225-233 | Their four values make the code, the first one the highest |
| JsonTokens.EscapesAre | extmod/modjson.c:208-223 | The short escapes stand for the eight characters of the JSON grammar |
| JsonTokens.Utf8Is | py/vstr.c:147-163 | The character of a code is one, two or three bytes with the marks of UTF-8, whose payload bits make the code |
| JsonScanner.CharacterClasses | extmod/modjson.c:171-273 | The characters of each class, by their codes |
| JsonTokens.SkipRounds | extmod/modjson.c:171-177 | Whitespace, commas and colons alter nothing but the position |
| JsonTokens.SkipTrailing | extmod/modjson.c:340-348 | Trailing whitespace is consumed to the end of the text |
| JsonTheorem.MeansIsLocal | extmod/modjson.c:306-338 | The meaning of a value rests only on the containers made for it: later ones cannot disturb it |
| JsonTheorem.RoundReadsNumber | extmod/modjson.c:248-279 | A number token becomes the value attached to the open container |
| JsonTheorem.RoundReadsString | extmod/modjson.c:202-247 | A string token becomes the value attached to the open container |
| JsonTheorem.RoundReadsWord | extmod/modjson.c:178-201 | The words null, true and false become their values |
| JsonTheorem.RoundReadsKey | extmod/modjson.c:317-322 | In an object without a pending key, a string becomes the pending key |
| JsonTheorem.CloseContainer | extmod/modjson.c:288-302 | A closing bracket hands control back to the enclosing container, which holds the finished one and is otherwise as it was |
| JsonTheorem.ReadsValue | extmod/modjson.c:148-338 | From any state that awaits a value, the rounds over the text of a document attach its meaning and restore stack and key |
| JsonTheorem.ReadsContent | extmod/modjson.c:280-302 | From an opening bracket to the matching closing one, the container is filled with the meaning of the document |
| JsonTheorem.ReadsItems | extmod/modjson.c:313-316 | The items of an array are appended in order |
| JsonTheorem.ReadsMembers | extmod/modjson.c:317-327 | The members of an object are stored under their keys |
| JsonTheorem.MembersJoin | extmod/modjson.c:323-326 | Of members with the same key the last one wins, and no other key appears |
| JsonTheorem.TopLevel | extmod/modjson.c:288-312 | A document on an empty stack ends the loop at its end with its meaning on top |
| JsonTheorem.LoadsEveryText | extmod/modjson.c:148-358 | Every text of every document of the grammar, of any depth and with any whitespace, is loaded as exactly the value of that document, integers by their decimal writing |
| JsonReference.DenotesIsLocal | extmod/modjson.c:306-338 | A tree in the heap rests only on the containers made for it |
| JsonAgreement.RoundIsOnToken | extmod/modjson.c:160-305 | One turn of the loop does with any text what the token at its position calls for |
| JsonAgreement.FillAgrees | extmod/modjson.c:280-338 | From inside any container, the loop with its stack does what the recursive reader does up to the closing bracket, the pending key included |
| JsonAgreement.ParseAgrees | extmod/modjson.c:160-339 | From an empty stack, it finishes with the tree of the recursive reader, or fails with it |
| JsonAgreement.LoadIsLoadTree | extmod/modjson.c:148-358 | On every text, well formed or not, the parser accepts exactly what the recursive reader accepts and returns its tree |
| JsonLoader.Loader.ReadHex | extmod/modjson.c:225-233 | Four characters are folded into the number of the code escape |
| JsonLoader.Loader.ReadPiece | extmod/modjson.c:204-240 | One turn of the string loop adds what the step function says and stops where it says |
| JsonLoader.Loader.ReadString | extmod/modjson.c:202-247 | The string loop fails or succeeds as the scanner does, with the same text and end |
| JsonLoader.Loader.ReadNumber | extmod/modjson.c:248-279 | The number loop stops at the end of the run and gives its value or an error |
| JsonLoader.Loader.AttachValue | extmod/modjson.c:306-338 | A value goes to the list, to the pending key or becomes the key; a first value that is no container ends the parse; a value without place is an error |
| JsonLoader.Loader.CloseContainer | extmod/modjson.c:288-302 | Closing pops the stack, ends the parse on an empty one and fails when nothing is open |
| JsonLoader.Loader.ReadWord | extmod/modjson.c:178-201 | The rest of a word is accepted exactly when it is spelled out |
| JsonLoader.Loader.RunRound | extmod/modjson.c:160-339 | One turn of the main loop does what the step function says, success and failure included |
| JsonLoader.Loader.EatSpace | extmod/modjson.c:340-344 | Stops at the first character that is not whitespace |
| JsonLoader.Loader.Run | extmod/modjson.c:148-358 | On every text, well formed or not, the imperative parser returns what the step function defines, and it ends |
| WebSocketFrames.SecondByteReadsBack | extmod/modwebsocket.c:115-129 | Length field, mask flag and size of the optional part are recovered from the second header byte |
| WebSocketFrames.HeaderFields | extmod/modwebsocket.c:95-129 | Final flag, type, mask flag, length field and the test for control frames, by the values of the two header bytes |
| WebSocketFrames.WireFormat | extmod/modwebsocket.c:95-162 | The bytes of a frame one by one: flags, length field of 126 or the length with 128 for a mask, two bytes of extended length, mask, and the payload with its mask applied |
| WebSocketFrames.UnmaskTwice | extmod/modwebsocket.c:180-182 | Masking is its own inverse |
| WebSocketFrames.OptReadsBack | extmod/modwebsocket.c:146-162 | The extended length and the mask are recovered from the optional part, with or without each |
| WebSocketFrames.BodyCarries | extmod/modwebsocket.c:164-213 | The masked payload of a frame carries the payload, followed by what the rest of the stream carries |
| WebSocketFrames.FrameCarries | extmod/modwebsocket.c:95-213 | A whole frame, masked or not, short or long, empty or zero-payload control, carries exactly its payload |
| WebSocketFrames.StreamCarriesPayloads | extmod/modwebsocket.c:77-217 | A stream of frames carries the concatenated payloads |
| WebSockets.WebSocket.constructor | extmod/modwebsocket.c:61-75 | A new object stands before a header with nothing taken from the transport |
| WebSockets.WebSocket.FillHeader | extmod/modwebsocket.c:81-92 | Header bytes taken so far plus those still on the transport are always the same stream; incomplete only when the transport gave too little |
| WebSockets.WebSocket.ParseHeader | extmod/modwebsocket.c:95-144 | Going from header to options or payload keeps the payload still to come |
| WebSockets.WebSocket.ParseOpt | extmod/modwebsocket.c:146-162 | Going from options to payload keeps the payload still to come |
| WebSockets.WebSocket.UnmaskBytes | extmod/modwebsocket.c:179-182 | The one-byte counter, although it wraps, applies the mask at the right position of the payload |
| WebSockets.WebSocket.FinishFrame | extmod/modwebsocket.c:185-206 | Back before a header; exactly a close frame is answered |
| WebSockets.WebSocket.TakeBody | extmod/modwebsocket.c:164-213 | Returned bytes are the next ones of the payload to come, at least one and at most as many as asked |
| WebSockets.WebSocket.Read | extmod/modwebsocket.c:77-217 | In any state and for any behaviour of the transport, a call returns a piece of what was to come or loses nothing; it returns without data only when the transport gave too little or for a close frame, which alone is answered |
| WebSockets.PartIsRead | extmod/modwebsocket.c:172-184 | Taking part of a payload leaves the rest of it to come, at the right position of the mask |
| WebSockets.UnmaskSplit | extmod/modwebsocket.c:179-182 | Unmasking in two pieces with the wrapped counter is unmasking at once |
| WebSockets.WriterEncodes | extmod/modwebsocket.c:219-235 | The header written, followed by the payload, is the encoding of an unmasked final frame |
| WebSockets.WebSocket.WriteFrame | extmod/modwebsocket.c:219-260 | Appends exactly that frame to what was sent; its first byte has the value 128 plus the type written |
| WebSockets.FlagByteIs | extmod/modwebsocket.c:221-222 | That byte has the final flag, no reserved bit and the low four bits of the options |
| WebSockets.TypeIsWritten | extmod/modwebsocket.c:221-235 | It stands first in the encoded frame |
| WebSockets.Session | extmod/modwebsocket.c:77-217 | Over any frames, any chunking and any positive read sizes, the returned bytes, each with the type of its frame as the reader holds it, are always the front of the concatenated payloads with theirs, and all of them once the transport is exhausted |
| WebSockets.NothingIsLeft | extmod/modwebsocket.c:77-217 | With an exhausted transport and no complete header part, no payload is left to come |
| WebSockets.Loopback | extmod/modwebsocket.c:77-260 | The reader inverts the writer: for any messages below 65536 bytes, whatever is read from what was sent is the front of the messages in order, and all of them once everything has been read; the type held with each byte is the one written |
| AcceptQueue.Listener.constructor | extmod/modlwip.c:1028-1081 | The ring is empty exactly unless the backlog is a multiple of 256 above one; its capacity is one or the backlog in one byte |
| AcceptQueue.Listener.Arrive | extmod/modlwip.c:557-591 | In any state of the ring, a connection goes into the slot at the write position, or is refused when that is occupied; an error report alters nothing |
| AcceptQueue.Listener.Look | extmod/modlwip.c:1115-1142 | A look of accept at its slot takes what is there and moves the read position on, in any state of the ring |
| AcceptQueue.Listener.Error | extmod/modlwip.c:512-545 | In any state of the ring, the search-and-shift loop ends and does what the recursive search does |
| AcceptQueue.PutAppends | extmod/modlwip.c:557-591 | An arrival joins the end of the queue and is refused exactly when the queue is full |
| AcceptQueue.TakeIsFirst | extmod/modlwip.c:1115-1142 | A look at the read position finds nothing exactly when the queue is empty, and takes the oldest connection otherwise |
| AcceptQueue.SearchShifts | extmod/modlwip.c:523-538 | The loop, once it has found the connection, moves every later one down by one slot |
| AcceptQueue.DropRemoves | extmod/modlwip.c:512-545 | An error removes exactly the failed connection, wherever it is, and keeps the order of the others, full queue and single slot included |
| AcceptQueue.TakeKeepsOrder | extmod/modlwip.c:1137-1142 | Freeing the slot at the read position leaves the rest of the queue |
| AcceptQueue.TakeBreaksOrder | extmod/modlwip.c:1115-1142 | Taking from any other occupied slot leaves a ring that holds no queue at all |
| AcceptQueue.WithoutAt | extmod/modlwip.c:512-545 | With distinct connections, removing one by value is removing it at its place |
| AcceptRuns.StepAgrees | extmod/modlwip.c:512-591 | Every event, of any number of waiting calls, that is not a late poll does what a plain bounded queue does |
| AcceptRuns.LatePollDiffers | extmod/modlwip.c:1115-1142 | A late poll never does: it overlooks the connections that wait, or takes another than the oldest and leaves a ring that holds no queue |
| AcceptRuns.FollowsIffNeverLate | extmod/modlwip.c:1115-1142 | The exact condition: a run of arrivals, failures and overlapping, waiting accepts hands out connections like a plain queue if and only if no poll is late, that is, no connection waits while other calls have moved the read position away from the slot of the polling one |
| AcceptRuns.AloneIsNeverLate | extmod/modlwip.c:1115-1142 | Without overlapping accepts no poll is late |
| AcceptRuns.SingleSlotIsNeverLate | extmod/modlwip.c:365-371 | With a single slot no poll is late, however many accepts overlap |
| AcceptRuns.CarefulCallersFollow | extmod/modlwip.c:512-591 | So one accept at a time, or a backlog of one, is enough: the ring holds the queue and the calls return in its order |
| AcceptRuns.OverlapIsSafeIff | extmod/modlwip.c:1115-1142 | Overlapping accepts are harmless in all runs if and only if there is a single slot |
| AcceptRuns.JamIsReached | extmod/modlwip.c:1115-1142 | For every capacity from two on, a run with two overlapping accepts takes a newer connection before an older one and ends in a jam |
| AcceptRuns.JamIsForever | extmod/modlwip.c:512-591 | From a jam there is no way out: whatever arrives, fails, calls or gives up, no accept returns a connection again |
| AcceptRuns.Run | extmod/modlwip.c:512-591 | The socket goes through any such run as the step function says, for every sound backlog, and follows the plain queue when no poll is late |
| AcceptRuns.AcceptsInOrder | extmod/modlwip.c:512-591 | In every history the accepted and the waiting connections together are in order of arrival, the queue never exceeds its capacity, and each admitted connection is accepted, waiting or dropped |
| TcpReceive.TakeFront | extmod/modlwip.c:869-895 | Bytes taken from the front buffer are the next ones of the stream, and an emptied buffer can go |
| TcpReceive.AppendChain | extmod/modlwip.c:594-618 | Appending buffers to the chain appends their bytes to the stream, whatever the offset |
| TcpReceive.TcpSocket.constructor | extmod/modlwip.c:594-618 | Nothing has arrived and nothing is unread |
| TcpReceive.TcpSocket.Deliver | extmod/modlwip.c:594-618 | A packet appends its bytes to the unread ones; the empty packet means that the peer closed |
| TcpReceive.TcpSocket.Receive | extmod/modlwip.c:824-901 | Returns as much of the front buffer as fits; a read consumes it and a peek does not; without data it waits for the first packet, or answers end of stream, would block, timed out or not connected, each exactly when it should |
| TcpReceive.TcpSocket.Await | extmod/modlwip.c:846-852 | The waiting loop stops at the first packet, at the end of the stream or when the time is over |
| TcpReceive.TcpSocket.TakeBytes | extmod/modlwip.c:869-900 | Takes the next bytes of the stream from the front buffer, or peeks at them |
| TcpReceive.Run | extmod/modlwip.c:594-618 | Over any interleaving of packets and reads, peeking or not, waiting or not, the bytes read and those unread are exactly what the events brought, and the window was reopened by exactly what was read |
| Uctypes.ComputeAggSize | extmod/moductypes.c:145-195 | The size of an aggregate and the largest scalar met, or an error, as the recursive definition gives them |
| Uctypes.ComputeStructSize | extmod/moductypes.c:197-251 | The loop over the fields computes the size of a structure and the largest scalar, or an error, as the recursive definition gives them |
| Uctypes.ComputeFieldSize | extmod/moductypes.c:216-243 | One turn of the loop: the end of a field and the largest scalar met by then |
| Uctypes.AggGrows | extmod/moductypes.c:145-195 | The size of an aggregate grows with the largest scalar met before it |
| Uctypes.StructGrows | extmod/moductypes.c:197-251 | The size of a structure grows with the largest scalar met before it, which element strides, starting afresh, rely on |
| Uctypes.FieldsGrow | extmod/moductypes.c:214-244 | The same for the extent of a list of fields |
| Uctypes.ReachFieldIsInside | extmod/moductypes.c:398-506 | An access by name stays inside the extent of the fields |
| Uctypes.ReachMemberIsInside | extmod/moductypes.c:474-501 | An access through an aggregate field stays inside its size |
| Uctypes.ReachAggIsInside | extmod/moductypes.c:539-572 | An access by index stays inside the size of the array, although its stride was computed from a smaller maximum |
| Uctypes.ReachIsInside | extmod/moductypes.c:398-575 | Every path of names and indexes stays inside the size, for any incoming maximum |
| Uctypes.AccessIsInsideSize | extmod/moductypes.c:253-277 | Every access that does not follow a pointer lies inside the size reported for the descriptor, in any layout |
| UctypesSizes.CodeReadsBack | extmod/moductypes.c:72-76 | Type and offset are recovered from the code of a field, negative for the types from eight on |
| UctypesSizes.HeadReadsBack | extmod/moductypes.c:72-76 | Kind and offset are recovered from the head of an aggregate |
| UctypesSizes.OffsetReadsBack | extmod/moductypes.c:216-228 | The byte offset of a bit field is recovered from below its position and length |
| UctypesSizes.SizeOfType | extmod/moductypes.c:54-63 | The size of each of the sixteen types |
| UctypesSizes.LargestOfStruct | extmod/moductypes.c:197-251 | The maximum that comes out is the largest of the one that went in and the sizes of the scalars and pointers of the descriptor |
| UctypesSizes.PackedStruct | extmod/moductypes.c:197-251 | Packed sizes do not depend on the scalars met before |
| UctypesSizes.LastAccess | extmod/moductypes.c:197-251 | When every structure has a field and every array an element, some access of the packed layout ends exactly at the size |
| UctypesSizes.PackedSizeIsLeast | extmod/moductypes.c:253-277 | So every access fits in n bytes if and only if n is at least the reported size |
| UctypesSizes.NativeSizeIsLeast | extmod/moductypes.c:246-250 | The native size of a structure without inner structures is the least multiple of its largest scalar in which every access fits |
| Ring.CountIsLength | extmod/machine_i2s.c:169-183 | The available data is the number of unread bytes, always less than the size; empty and full are recognised exactly |
| Ring.PushAppends | extmod/machine_i2s.c:145-155 | A push appends to the unread bytes and its store alone alters none of them |
| Ring.PopTakesFirst | extmod/machine_i2s.c:158-167 | A pop takes the first unread byte |
| RingConcurrent.ProducerKeepsInv | extmod/machine_i2s.c:145-155 | Each single load or store of a push, at any moment, keeps the invariant of the ring |
| RingConcurrent.ConsumerKeepsInv | extmod/machine_i2s.c:158-167 | Each single load or store of a pop, at any moment, keeps the invariant of the ring |
| RingConcurrent.RunKeepsInv | extmod/machine_i2s.c:145-167 | So the invariant holds after every interleaving |
| RingConcurrent.PoppedIsAPrefix | extmod/machine_i2s.c:132-183 | After every interleaving the popped bytes are a prefix of the pushed ones, the difference being the unread ones |
| RingConcurrent.StoreHitsNoUnreadSlot | extmod/machine_i2s.c:145-155 | In every interleaving, the store of a push hits no unread byte, nor the one a pop is about to load |
| RingDriver.RingBuf.constructor | extmod/machine_i2s.c:138-143 | A new ring is empty |
| RingDriver.RingBuf.Push | extmod/machine_i2s.c:145-155 | Appends the byte, and refuses exactly when the ring is full |
| RingDriver.RingBuf.Pop | extmod/machine_i2s.c:158-167 | Takes the first byte, and fails exactly when the ring is empty |
| RingDriver.RingBuf.AvailableData | extmod/machine_i2s.c:177-179 | The number of unread bytes |
| RingDriver.RingBuf.AvailableSpace | extmod/machine_i2s.c:181-183 | Data and space add up to the size less one |
| RingDriver.Writer.CopyNonBlocking | extmod/machine_i2s.c:322-340 | Copies the next piece of the application's bytes if all of it fits and nothing otherwise, and ends the copy exactly at the end of those bytes |
| RingDriver.WriteRun | extmod/machine_i2s.c:322-340 | Over any run of copies and sends, sent and unread bytes are the copied part of the application's bytes, each once and in order; all of them once the copy has ended |
| I2CBus.BitAt | extmod/machine_i2c.c:119-132 | Bit k of the transmission is bit 7 - k of the byte |
| I2CBus.ByteReadsBack | extmod/machine_i2c.c:115-146 | The eight bits that an observer sees spell the byte, and the ninth is the acknowledgement |
| I2CBus.ByteSpells | extmod/machine_i2c.c:119-132 | The first eight bits of a byte on the wire, weighted from 128 down to 1, add up to its value |
| SoftI2C.AddressByteIs | extmod/machine_i2c.c:197 | The address byte is twice the low seven bits of the address, plus one for a read |
| I2CBus.ConcatAt | extmod/machine_i2c.c:206-232 | Byte j of a buffer stands in the transmission behind all the buffers before it |
| I2CBus.AckedIs | extmod/machine_i2c.c:218-232 | The longest acknowledged prefix is characterised by what was acknowledged and what was not |
| SoftI2C.Master.SendStart | extmod/machine_i2c.c:79-89 | From an idle bus or after a byte, an observer of the two lines sees exactly one start |
| SoftI2C.Master.SendStop | extmod/machine_i2c.c:91-99 | An observer sees exactly one stop if the slave does not hold the data line, and nothing if it does |
| SoftI2C.Master.PulseBit | extmod/machine_i2c.c:119-132 | One clock pulse with stable data: an observer sees exactly one bit |
| SoftI2C.Master.PulseAck | extmod/machine_i2c.c:134-145 | The acknowledging pulse shows the bit of the slave, which is the return value |
| SoftI2C.Master.WriteByte | extmod/machine_i2c.c:115-146 | An observer sees the bits of the byte and the acknowledgement, and no start or stop |
| SoftI2C.Master.SendData | extmod/machine_i2c.c:206-232 | Sends the buffers up to and with the first byte that is not acknowledged; the count is that of the acknowledged ones |
| SoftI2C.Master.WriteTransfer | extmod/machine_i2c.c:187-243 | For every address, buffer list and behaviour of the slave, the level trace decodes to start, eight bits that spell twice the low seven bits of the address, the longest data prefix that the acknowledgements allow and, where due, stop; the result is the number of acknowledged bytes, or an error when the address is not acknowledged |
| I2CBus.CollectedAll | extmod/machine_i2c.c:155-165 | The bits shifted in are the byte that the slave sends |
| SoftI2C.Master.SampleBit | extmod/machine_i2c.c:157-164 | One pulse shows the bit of the slave, which is what the master samples |
| SoftI2C.Master.AnswerByte | extmod/machine_i2c.c:168-180 | The ninth pulse shows the answer of the master; a slave that is not refused goes on with its next bit |
| SoftI2C.Master.ReadByteFrom | extmod/machine_i2c.c:151-183 | Returns the byte of the slave; an observer sees its bits and the answer |
| SoftI2C.Master.ReceiveData | extmod/machine_i2c.c:207-217 | Fills the buffers with the bytes of the slave in order, and refuses one exactly when it is the last byte of the last buffer |
| SoftI2C.Master.ReadTransfer | extmod/machine_i2c.c:187-243 | For every address, buffer list and slave, the trace decodes to start, eight bits that spell twice the low seven bits of the address plus one, and the bytes read; a stop follows if and only if it is asked for and the slave was refused or its next bit is a one |
| I2CBus.LastIsRefusedIff | extmod/machine_i2c.c:210-217 | Exactly the last byte read is refused if and only if the last buffer is not empty |
| Heapq.UpStep | extmod/modheapq.c:41-54 | Moving a parent down keeps the heap order around the hole, for any start position |
| Heapq.DownStep | extmod/modheapq.c:60-68 | Moving the smaller child up keeps the heap order around the hole |
| Heapq.DownEnds | extmod/modheapq.c:60-70 | At a leaf the hole can be filled by moving the item back up |
| Heapq.RootIsLeast | extmod/modheapq.c:81-94 | The root of a heap is no larger than any item |
| Heapq.LastMoved | extmod/modheapq.c:86-90 | Moving the last item to the root leaves the subtrees in order and all the other items |
| Heapq.HeapList.SiftDown | extmod/modheapq.c:41-54 | Restores the heap order from any start position, with the same items |
| Heapq.HeapList.SiftUp | extmod/modheapq.c:56-71 | Extends the heap order to one more position, with the same items |
| Heapq.HeapList.HeapPush | extmod/modheapq.c:73-78 | Keeps the heap order and adds exactly the item |
| Heapq.HeapList.HeapPop | extmod/modheapq.c:81-94 | Keeps the heap order and removes exactly a least item; an error exactly on the empty heap |
| Heapq.HeapList.Heapify | extmod/modheapq.c:97-103 | Makes any list a heap with the same items |
| Heapq.SortByHeap | extmod/modheapq.c:81-103 | Heapify and popping until empty give the sorted list of the same items |
| CtrMode.IncrementAddsOne | extmod/modcryptolib.c:153-158 | The carry chain adds one to the number that the bytes spell and wraps at the largest |
| CtrMode.ValueIsInjective | extmod/modcryptolib.c:153-158 | Counters of the same number are the same bytes |
| CtrMode.CounterCounts | extmod/modcryptolib.c:145-166 | Block k is enciphered with the counter IV + k modulo 2 to the 128 |
| CtrMode.KeyByteIs | extmod/modcryptolib.c:149-163 | Byte i of the key stream is byte i modulo 16 of the encryption of whatever block spells the start value plus i divided by 16, modulo 2 to the 128 |
| CtrMode.XoredSplits | extmod/modcryptolib.c:145-166 | Processing a message in two pieces gives the same output as in one |
| CtrMode.XoredTwice | extmod/modcryptolib.c:145-166 | A second pass from the same place restores the message |
| CtrMode.CtrCipher.constructor | extmod/modcryptolib.c:254-256 | The stream starts at position zero with the first block still to be enciphered |
| CtrMode.CtrCipher.IncrementCounter | extmod/modcryptolib.c:153-158 | The loop over the bytes increments the counter |
| CtrMode.CtrCipher.NextByteOut | extmod/modcryptolib.c:149-163 | One byte is combined with the byte of the key stream at its position, across block boundaries |
| CtrMode.CtrCipher.Process | extmod/modcryptolib.c:145-166 | A call enciphers with the key stream from where the last call ended, for any length |
| CtrMode.RoundTrip | extmod/modcryptolib.c:145-166 | Two calls with one object and one call with another from the same start restore the message, wherever it is cut |
| Base64.SextetOfLetter | extmod/modbinascii.c:52-66 | The letter of a number below 64 is read back as the number and is never the padding |
| Base64.LetterIs | extmod/modbinascii.c:149-167 | The letters are the 64 characters of the alphabet in its order, and the padding is the sign of equality |
| Base64.SextetIs | extmod/modbinascii.c:52-66 | A character is read if and only if it is in the alphabet, and then as its place there |
| Base64.GroupIs | extmod/modbinascii.c:129-147 | The four numbers of a group are the digits to base 64 of the 24-bit number of its three bytes; short groups are filled with zero bits |
| Base64.FeedInParts | extmod/modbinascii.c:68-108 | Decoding a text is decoding its parts one after another |
| Base64.TakesThree | extmod/modbinascii.c:89-100 | Four letters of a whole group add its three bytes |
| Base64.TakesTwo | extmod/modbinascii.c:80-100 | A group with one padding adds its two bytes and stops |
| Base64.TakesOne | extmod/modbinascii.c:80-100 | A group with two paddings adds its byte and stops |
| Base64.EncodedIsTaken | extmod/modbinascii.c:68-170 | An encoded message of any length adds exactly the message, and stops the decoder exactly when it ends in padding |
| Base64.DecodeOfEncode | extmod/modbinascii.c:68-170 | Decoding an encoded message, with or without the newline, gives the message |
| Base64.DecodeOfTwo | extmod/modbinascii.c:80-105 | Two encoded messages in a row decode to both if and only if the first has no padding or the second is empty |
| Base64.NoiseIsIgnored | extmod/modbinascii.c:89-92 | Characters outside the 64 of the alphabet, other than the padding, alter nothing |
| Base64.NoiseAnywhere | extmod/modbinascii.c:89-92 | Inserting such characters anywhere in any text does not alter the result |
| Base64.OutputIsBounded | extmod/modbinascii.c:74-100 | Output and pending bits never exceed six bits for each character read |
| Base64Codec.NumbersLength | extmod/modbinascii.c:123-124 | The allocated length is exactly that of the encoding |
| Base64Codec.WriteNumbers | extmod/modbinascii.c:126-147 | The first pass fills the front of the buffer with the numbers and touches nothing behind |
| Base64Codec.WriteTail | extmod/modbinascii.c:136-147 | The last, padded group completes the numbers |
| Base64Codec.EncodeBytes | extmod/modbinascii.c:111-170 | The two passes and the newline give the encoding |
| Base64Codec.DecodeBytes | extmod/modbinascii.c:68-108 | The loop with its registers gives the decoding or the padding error, and never writes past the allocated length |

## Left out

- `GS2_HMSB` and `RGB565`: their pixel writers and readers use different indexes, bit orders or byte orders, so that no round trip or refinement holds for them.
- `blit`, `text` and the font table, `hline`, `vline`, `rect` and the outline of `poly`: they call routines that are modelled and would add easy members; `blit` from a buffer to itself has no clean specification.
- Integer width in the drawing routines: coordinates, radii and products are unbounded integers; the overflow of 32-bit arithmetic is not modelled.
- PolygonFill.FillPolygon: the vertex list is a sequence of pairs, not a buffer with a type code.
- FrameBuffers.FrameBuffer.SetPixel: for the four-bit format a cell of the buffer is required; that writer also maps columns at or past the stride to a byte, but no caller passes one: the pixel method, the lines, the checked writer and the scroll all bound the point first.
- `JSON` floats are kept as their text, because the number parser for them is not part of this model; surrogate pairs are two separate code escapes, as in the code.
- `JSON` strings: the check that the bytes of a new string are valid UTF-8, the equality of dictionary keys of different types, stream errors and the writing side are not modelled.
- JsonTheorem.LoadsEveryText: states acceptance of every text of the grammar; what the parser accepts beyond it is stated by JsonAgreement.LoadIsLoadTree.
- WebSocket control frames with a payload, fragmented messages and 64-bit lengths: the reader returns such payloads as data or refuses them by assertion; streams with them are outside `ToCome`.
- WebSockets.WebSocket.Read: `ws_flags` is updated as in the code but nothing is stated of it; transport errors count as giving no data.
- WebSockets.WebSocket.WriteFrame: the transport takes all bytes; errors and the blocking option are not modelled, nor is `ioctl`.
- lwIP: UDP and raw sockets, timeouts and polling, socket errors, `free_incoming` and the single-buffer mode of closing are not modelled.
- TcpReceive.TcpSocket.Receive: pending socket errors are not modelled; what each poll of a waiting call brings is a parameter.
- UctypesSizes.NativeSizeIsLeast: states structures without inner structures only; inside one the padding of an inner structure is part of its size, and no access reaches it.
- UctypesSizes.PackedSizeIsLeast: demands that every structure has a field and every array an element; an empty one at an offset counts with its offset although no access reaches it.
- `uctypes`: 32-bit wrap-around of sizes, pointer dereference, negative indexes, raw addresses and the values read or written are not modelled.
- `machine_i2s`: the reading direction with its frame map, the blocking and asyncio copies, and weaker memory orders than sequential consistency are not modelled.
- RingDriver.Drain: what the port sends between two copies is an arbitrary number of pops.
- `machine_i2c`: clock stretching and its timeout, bus clearing on initialisation and delays are not modelled.
- SoftI2C.Master.WriteTransfer: a clock that the slave holds low until the timeout is not modelled.
- SoftI2C.Master.ReadTransfer: a clock that the slave holds low until the timeout is not modelled; the slave is one that sends on until it is refused.
- `heapq`: comparisons are those of an integer key, a total order with ties; comparisons that raise are not modelled.
- `cryptolib`: AES itself is an arbitrary block function; ECB, CBC and the mbedTLS variant are not modelled.
- `binascii`: hexlify, unhexlify and crc32 are not modelled.
- The event loop, timers, Bluetooth, TLS, file systems, select, regular expressions and all bindings are not part of this model.
