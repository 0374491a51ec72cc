# AlloyVNC in Dafny

AlloyVNC keeps a remote viewer's picture equal to the server's while sending as
little as it can. This project models the parts of it that decide whether that
holds, in the form the code has (classes whose methods rewrite their fields,
loops over buffers, functions where the code is expressions), and proves what
they are for.

`dafny verify dfyconfig.toml` checks everything.

## What is modelled

**Pixels as regions.** A region is a list of rectangles in y-x banded normal
form. `Regions` gives the form and proves it canonical: the list is determined
by the set of pixels. `Spans` and `RegionOps` are the three one-dimensional
merges and the walk over bands; `PixelSets` has the operations of the crate,
each stated as the normal form of a set of pixels, so that laws of sets become
equalities of lists. `RegionTests` says exactly what the crate's own test helper
checks of that form. `Geometry` holds rectangles and moves.

**The picture protocol.** `Framebuffers` is the byte array behind a picture,
with the copy inside it proved parallel for every overlap. `Tighteners` is the
compare pass: a table of one hash per cell, damage narrowed to the cells that
changed, vertical shifts recognised; `Boxes` holds the cells it looks at and
`Votes` the ballot that names a shift. `TightenReplay` proves that what it
reports, replayed, gives the new picture and that nothing that stayed is sent,
`Scrolls` that a plain scroll is found and a lone pixel costs one cell, and
`CapturedFrames` exactly when the replay goes on over whole runs of frames,
those with moves the backend reported included. `Sessions` is one client's
session: what it absorbs, what it owes, what an update contains. `Debts` states
the rules that its methods refine. `PictureRuns` and `PixelRuns` are the
theorems over whole runs in which frames are captured, announced, lost to lag,
asked for and sent, in any order; `SessionRuns` proves that whatever is called
on a session is such a run.

**Encoders and decoders.** `PixelFormats` packs and unpacks (section 7.4 of RFC
6143). Hextile (section 7.7.4), ZRLE (sections 7.7.5 and 7.7.6) and Tight each
have an encoder class that fills its buffers as the code does (`HextileEncoder`,
`ZrleWriter`, `TightWriter`), a decoder that parses what arrives
(`HextileDecoder`, `ZrleDecoder`, `TightDecoder`), a round trip over pictures
(`HextilePictures`, `ZrlePictures`, `TightPictures`) and the client's side that
paints a framebuffer and, where the encoding tells its length only by being
read, reads on until it has all of it (`HextileClient`, `ZrleClient`,
`TightClient`). Round trips cannot tell a convention from its mirror image, so
`HextileWire`, `ZrleWire`, `TightWire` and `MessageWire` say where every byte
stands and which form is chosen when, in numbers. `Painting` puts pixels into a
framebuffer one after another as they are read. `Readers` states once what
reading a growing buffer must keep: a success or a refusal stands, and a wish
for more never asks too much.

**Flow control and parser.** `Flows` is the window on bytes in flight, with
theorems over every run of server, link and client: what is on the link stays
bounded, and the window opens and shuts the right way. `ClientMessages` is the
incremental parser (section 7.5 of RFC 6143) and the writers it inverts, with
a theorem over every way the stream may be split.

## What the code needs

Each of these is written into the contracts that rest on it.

- Hashes of equal-width cells of the two pictures of one frame do not collide,
  and none is the value kept for "not seen yet" (`TightenReplay.NoCollision`,
  `NeverUnknown`).
- The detector reads only cells that have been seen (`BoxKnown`). A first pass
  over the whole picture establishes it for all later ones
  (`CapturedFrames.StaysAllInStep`).
- Deflate is lossless for an inflater that has seen the same blocks
  (`Zlib.Lossless`); for Tight, whose lengths have 21 bits, a deflated block is
  not much larger than the block (`Zlib.Modest`); a ZRLE rectangle's deflated
  length fits its 32 bits.
- The link delivers in order, and a client echoes only fences it has reached.

## What turned out not to hold

- **Reading ahead strands a CopyRect client.** An update reads the latest
  framebuffer, which may be ahead of the events absorbed. `StaleCopy` gives a
  run of ten steps that ends with everything absorbed, nothing owed and a wrong
  pixel that nothing queued or pending will repair; `PictureRuns.UpdateKeepsIff` says
  exactly when one update is safe. Clients without CopyRect are safe under
  every interleaving (`PixelRuns.PixelRun`).
- **A reported move swallows what was drawn beside it or over it.** Whole cells
  under a move's destination are rehashed, so a pixel that changed beside the
  move in the same cell, or on the moved block itself, is never reported. The
  replay is exact if and only if there is neither
  (`TightenReplay.ReportedReplayIff`); `SwallowedChanges` has a frame for each.
  The hash table stays in step all the same (`CapturedFrames.StaysAllInStep`).
- **Overlapping channels are accepted.** A validated format puts every pixel
  through its own channels if and only if they are disjoint
  (`PixelFormats.TripsExactlyWhenDisjoint`).
- **A compact length keeps 21 bits.** The third byte is written with eight and
  read with seven (`TightDecoder.CompactIff`). Pieces never come near.
- **Something to send, and nothing sent.** With a layout waiting for a client
  that cannot take one, and nothing else, the session sees something to send and
  builds nothing (`Sessions.AskedForNothing`). An update that overtakes the
  event of a change of size leaves a client with plain DesktopSize there, and
  until something else happens every turn is like the last (`LayoutWaits`).
- **The largest pictures cannot go as Tight.** Asked for as a whole, a picture of
  over 63488 by over 65504 pixels is 65536 pieces, one more than an update can
  count, and the session ends; every other one goes
  (`Sessions.WholePictureRefused`). Past that a session ends at an update
  exactly when its rectangles, copies and announcements number over 65535
  (`Sessions.Session.BuildUpdate`).
- **An empty clipboard body has no sign.** Its negated length is zero, so it
  reads back as empty plain text (`ClientMessages.ReadsBackIff`).
- **The test helper's conditions are not the whole form.** They allow bands that
  overlap in height, and nothing else that the form excludes
  (`RegionTests.CheckedNormalIff`). Everything the operations build passes them.

## Model

| member | source | states |
|---|---|---|
| Geometry.Rect.Intersection | crates/alloyvnc-region/src/lib.rs:62-70 | the result holds exactly the pixels both rectangles hold, and none when they do not meet |
| Geometry.Rect.Intersects | crates/alloyvnc-region/src/lib.rs:72-74 | true if and only if some pixel is in both |
| Geometry.Rect.Contains | crates/alloyvnc-region/src/lib.rs:78-81 | true if and only if every pixel of the other is in this one, so an empty rectangle is in every one |
| Geometry.Rect.UnionBounds | crates/alloyvnc-region/src/lib.rs:88-101 | the least rectangle that contains both, empty operands ignored |
| Spans.UnionSpans | crates/alloyvnc-region/src/lib.rs:399-435 | two separated span lists give one separated list that covers exactly the columns either covers |
| Spans.IntersectSpans | crates/alloyvnc-region/src/lib.rs:437-451 | a separated list that covers exactly the columns both cover |
| Spans.SubtractSpans | crates/alloyvnc-region/src/lib.rs:453-475 | a separated list that covers exactly the columns the first covers and the second does not |
| Spans.SpansCanonical | crates/alloyvnc-region/src/lib.rs:145-149 | two separated span lists that cover the same columns are the same list |
| RegionOps.BandSpansIsRow | crates/alloyvnc-region/src/lib.rs:388-397 | between two neighbouring edges the spans picked out for the band are those of every row in it |
| RegionOps.Flush | crates/alloyvnc-region/src/lib.rs:379-383 | closing the open band appends its rectangles and leaves a region in normal form |
| RegionOps.Apply | crates/alloyvnc-region/src/lib.rs:314-377 | for union, intersection and subtraction alike: from normal forms to a normal form, and a pixel is in it exactly when the operation on sets says so |
| Regions.Canonical | crates/alloyvnc-region/src/lib.rs:3-10 | two regions in normal form with the same pixels are the same list of rectangles |
| PixelSets.FromRect | crates/alloyvnc-region/src/lib.rs:163-169 | the normal form of one rectangle, empty when it is |
| PixelSets.UnionOf | crates/alloyvnc-region/src/lib.rs:266-268 | the normal form of the union of the pixel sets |
| PixelSets.IntersectionOf | crates/alloyvnc-region/src/lib.rs:270-272 | the normal form of the intersection of the pixel sets |
| PixelSets.DifferenceOf | crates/alloyvnc-region/src/lib.rs:274-276 | the normal form of the difference of the pixel sets |
| PixelSets.IntersectRect | crates/alloyvnc-region/src/lib.rs:278-280 | the normal form of the pixels that are also in a rectangle |
| PixelSets.Add | crates/alloyvnc-region/src/lib.rs:283-288 | adding a rectangle, empty ones included, adds exactly its pixels and keeps normal form |
| PixelSets.Remove | crates/alloyvnc-region/src/lib.rs:291-296 | removing a rectangle takes exactly its pixels and keeps normal form |
| PixelSets.IntersectsMeaning | crates/alloyvnc-region/src/lib.rs:262-264 | some rectangle of the list meets the given one if and only if they share a pixel, normal form or not |
| PixelSets.FromRects | crates/alloyvnc-region/src/lib.rs:171-177 | the normal form of all the rectangles' pixels together |
| PixelSets.FromRows | crates/alloyvnc-region/src/lib.rs:192-235 | one pass over rows of spans gives the normal form of exactly their pixels |
| PixelSets.Bounds | crates/alloyvnc-region/src/lib.rs:250-252 | the least rectangle that contains every rectangle of the region |
| PixelSets.UnionLaws | crates/alloyvnc-region/src/lib.rs:266-268 | union is commutative and associative on the rectangle lists themselves, not only on pixels |
| PixelSets.AddThenRemove | crates/alloyvnc-region/src/lib.rs:283-296 | adding and then removing a rectangle disjoint from a region gives back the very list |
| PixelSets.FromRectsOrder | crates/alloyvnc-region/src/lib.rs:171-177 | two lists of rectangles with the same members, in any order and any number of times, build the same region |
| PixelSets.FromRowsIsFromRects | crates/alloyvnc-region/src/lib.rs:179-191 | the one-pass build equals the union of the spans taken one rectangle at a time |
| PixelSets.NormalIsShortest | crates/alloyvnc-region/src/lib.rs:3-10 | no banded list of rectangles with the same pixels is shorter than the normal form |
| RegionTests.CheckedNormalIff | crates/alloyvnc-region/src/lib.rs:496-527 | a list is in normal form if and only if it passes the crate's own test helper and every band starts at or below the end of the one before |
| RegionTests.CheckedIsNotNormal | crates/alloyvnc-region/src/lib.rs:496-527 | the second half is needed: two bands that overlap in height pass the helper and are not in normal form |
| RegionTests.OpsMatchOracle | crates/alloyvnc-region/src/lib.rs:617-648 | that test for every input: regions built from any rectangles and any operation on them pass the helper, and a pixel is in the result exactly when the operation says so |
| RegionTests.FromRowsMatchesFromRects | crates/alloyvnc-region/src/lib.rs:554-592 | that test for every input: the one-pass build equals the build rectangle by rectangle, and passes the helper |
| Framebuffers.Framebuffer.Resize | crates/alloyvnc-encode/src/framebuffer.rs:50-54 | a new size gives a black picture, the same size keeps the bytes as they are |
| Framebuffers.Framebuffer.RowSpan | crates/alloyvnc-encode/src/framebuffer.rs:62-65 | the bytes of a stretch of a row are its pixels, left to right |
| Framebuffers.Framebuffer.PutPixel | crates/alloyvnc-encode/src/framebuffer.rs:77-79 | changes that pixel and no other |
| Framebuffers.Framebuffer.Fill | crates/alloyvnc-encode/src/framebuffer.rs:82-96 | every pixel of the rectangle that is in the picture takes the colour and no other pixel changes |
| Framebuffers.Framebuffer.Blit | crates/alloyvnc-encode/src/framebuffer.rs:101-114 | the block's pixels land at their offset and no other pixel changes |
| Framebuffers.Framebuffer.CopyWithin | crates/alloyvnc-encode/src/framebuffer.rs:118-135 | every destination pixel becomes what its source pixel was before the call, however the two overlap, and every other pixel keeps its value |
| Framebuffers.CopyNext | crates/alloyvnc-encode/src/framebuffer.rs:118-135 | copying rows away from the overlap, each next row still reads the old picture: rows lo to hi done, one more at the right end extends the parallel copy by one |
| Framebuffers.StoredAt | crates/alloyvnc-encode/src/framebuffer.rs:62-79 | the pixel at a column and row is four bytes in tightly packed rows: blue, green, red and one to spare |
| Tighteners.Tightener.Reset | crates/alloyvnc-encode/src/compare.rs:98-107 | a new size forgets every hash |
| Tighteners.Tightener.Rehash | crates/alloyvnc-encode/src/compare.rs:186-197 | one cell's hash becomes the picture's, no other changes, and the answer says whether it differed |
| Tighteners.Tightener.Follow | crates/alloyvnc-encode/src/compare.rs:207-217 | exactly the cells a move's destination reaches into are rehashed |
| Tighteners.Tightener.Snapshot | crates/alloyvnc-encode/src/compare.rs:221-229 | the box's hashes are kept, row by row, as they were |
| Tighteners.BoxAround | crates/alloyvnc-encode/src/compare.rs:176-183 | the box the detector looks at holds exactly the cells of the columns and rows that the bounds of the damage reach into |
| Tighteners.Tightener.MatchingRows | crates/alloyvnc-encode/src/compare.rs:300-329 | a pixel is covered at a shift exactly when its cell and the one that many rows away are in the box, and the new hash of the one is the old hash of the other |
| Tighteners.Tightener.ChangedRowList | crates/alloyvnc-encode/src/compare.rs:241-246 | the rows, in order, in which some pixel of the box belongs to a changed cell |
| Votes.TakeProbes | crates/alloyvnc-encode/src/compare.rs:269-275 | at most sixteen of the changed rows, the first and then every second, third or further one, to the last |
| Tighteners.Tightener.CastVotes | crates/alloyvnc-encode/src/compare.rs:277-292 | the count kept for each shift is, over all probes, how many cells of the row that far away in the old box agree with the probe; the shift of nothing gets none |
| Votes.MostVotes | crates/alloyvnc-encode/src/compare.rs:293 | one of the shifts that has the most votes, if any has some |
| Tighteners.Tightener.Elect | crates/alloyvnc-encode/src/compare.rs:277-298 | a shift with at least eight votes that no other outvotes, and none exactly when no shift has eight |
| Tighteners.Tightener.ShiftMoves | crates/alloyvnc-encode/src/compare.rs:331-361 | a rectangle of the normal form of the matching pixels is copied if and only if it is at least eight rows high and holds a pixel of a changed cell; each copy comes from the shift, and the list is ordered away from its direction |
| Tighteners.Tightener.Detect | crates/alloyvnc-encode/src/compare.rs:261-348 | nothing is found where fewer than eight rows changed or the sampled rows elect no shift; otherwise exactly those copies, from a shift that no other outvotes |
| Tighteners.Tightener.ChangedRegion | crates/alloyvnc-encode/src/compare.rs:365-391 | the normal form of exactly the changed cells' pixels in the box, less what the moves write |
| Tighteners.Tightener.Tighten | crates/alloyvnc-encode/src/compare.rs:111-173 | the hash table, the damage and the moves of a whole pass as one relation between before and after: which cells are rehashed, when a shift is looked for and which blocks are copied from it, which pixels are reported |
| Scrolls.ScrollIsFound | crates/alloyvnc-encode/src/compare.rs:466-505 | that test for every band at least sixteen rows high and two cells wide that scrolls by at most half its height, its cells like no others in their column: the pass answers one copy of all the rows that stayed, and for damage exactly the rows that came in |
| Scrolls.OnePixelIsOneCell | crates/alloyvnc-encode/src/compare.rs:452-464 | that test for every pixel of every known picture and every claim of the backend: its run of 64 pixels, or what is left of it at the edge, is all that is reported, and nothing is copied |
| TightenReplay.TableFollows | crates/alloyvnc-encode/src/compare.rs:52-56 | after a pass no cell is stale, cells in step stay in step and every cell the damage touches is in step with the new picture |
| TightenReplay.FoundInOrder | crates/alloyvnc-encode/src/compare.rs:331-347 | no copy of the list writes where a later one reads or writes, for shifts up and down, and every source lies in the picture |
| TightenReplay.ReplayIsExact | crates/alloyvnc-encode/src/compare.rs:422-436 | without reported moves: the moves made in list order on the old picture, then the damage taken from the new one, give exactly the new picture |
| TightenReplay.ReportedIff | crates/alloyvnc-encode/src/compare.rs:139-170 | a pixel of a known cell is reported if and only if some of its cell is in the damage, none of it under a reported move, some of it different, and the pixel is not copied |
| TightenReplay.StillIsSilent | crates/alloyvnc-encode/src/compare.rs:438-450 | that test for every picture: once every cell is known, a pass over a picture that did not change reports nothing, whatever was claimed |
| TightenReplay.ReportedReplayIff | crates/alloyvnc-encode/src/compare.rs:111-173 | with reported moves: the same replay gives the new picture if and only if that picture shows each moved block as it was moved, and no pixel that changed beside a move shares a hash cell with it |
| TightenReplay.AlignedSwallowsNothing | crates/alloyvnc-encode/src/compare.rs:199-217 | destinations on whole cells, or reaching the right edge, meet the second condition |
| SwallowedChanges.NeighbourSwallowed | crates/alloyvnc-encode/src/compare.rs:207-217 | it can fail alone: a true move onto one pixel of a cell, the other drawn anew in the same frame, and the drawing is in no event |
| SwallowedChanges.DrawnOverSwallowed | crates/alloyvnc-encode/src/compare.rs:120-124 | so can the first: a whole cell moved and then drawn over in the same frame, and the drawing is in no event |
| CapturedFrames.StaysAllInStep | crates/alloyvnc/src/capture.rs:71-147 | in every run of passes from a fresh table with a first full one, frames with reported and with detected moves mixed, the whole table is in step after every pass, true or not what was reported |
| CapturedFrames.PassIsTruthful | crates/alloyvnc/src/capture.rs:71-147 | so an event such a run broadcasts turns the last picture into the next if and only if no move was reported, or those reported are shown as moved and swallow no change beside them; and a pass that finds nothing means the pictures are equal |
| Sessions.Session.DueArea | crates/alloyvnc/src/session.rs:409-416 | nothing is due exactly when neither request stands; otherwise the least area that contains both |
| Sessions.Session.Absorb | crates/alloyvnc/src/session.rs:419-451 | the session's pending region and copies become what the debt rules make of the event: resize first, moves in order, then damage |
| Sessions.Session.AbsorbOne | crates/alloyvnc/src/session.rs:426-443 | a move is queued as a copy exactly when the client takes CopyRect, its source is clean and no queued copy is involved, and is damage otherwise |
| Sessions.Session.Lagged | crates/alloyvnc/src/session.rs:563-569 | after lost events the whole picture is pending and no copy is queued |
| Sessions.Session.UpdateRequest | crates/alloyvnc/src/session.rs:840-854 | a full request adds its clipped rectangle to what is pending; the requested area becomes the least that contains it and what stood |
| Sessions.Session.SetEncodings | crates/alloyvnc/src/session.rs:776-839 | what is owed stays owed; Tight is chosen exactly when it comes before every other encoding the server writes; a layout or a pointer shape becomes due to a client that newly takes one |
| Sessions.Session.EnableContinuous | crates/alloyvnc/src/session.rs:873-892 | turned on, exactly the pixels asked for inside the picture are due from now on, whatever else is; turned off, only what was requested is |
| Sessions.Session.HasSomethingFor | crates/alloyvnc/src/session.rs:755-760 | on the region as kept, the answer is the one the pixel sets give |
| Sessions.Session.DemoteCopies | crates/alloyvnc/src/session.rs:1008-1018 | the copies inside the area are taken in order, the others become pending, none stays queued |
| Sessions.Session.CutDamage | crates/alloyvnc/src/session.rs:1030-1041 | the rectangles written are the damage's own, the one around them past 60000, and under Tight the pieces of each; they cover the damage, stay inside the area, and are as many as counted |
| Sessions.Session.BuildUpdate | crates/alloyvnc/src/session.rs:974-1144 | a changed size goes out alone with everything owed again, or ends the session exactly when the client takes neither form of it; otherwise nothing is sent exactly when nothing is owed in the area, the update is refused exactly when what it would carry is more than 65535 rectangles, and what is sent is every copy inside the area and the normal form of all that is owed there, cut for the wire, after which the debt is the rest |
| Sessions.FewEnough | crates/alloyvnc/src/session.rs:1030-1043 | without Tight an update is refused only if more than 5533 copies go with it |
| Sessions.WholePictureRefused | crates/alloyvnc/src/session.rs:1036-1043 | with everything pending and asked for whole, and nothing to copy, the update is refused if and only if it goes as Tight and the picture is over 63488 by over 65504 pixels |
| Sessions.IdleIsNothing | crates/alloyvnc/src/session.rs:755-760 | with no layout waiting, the check that there is something to send is exact: it says no if and only if the update built would be empty |
| Sessions.AskedForNothing | crates/alloyvnc/src/session.rs:1026-1028 | the check says yes and the update built is empty if and only if a layout is waiting that the client cannot take and nothing else is |
| LayoutWaits.ResizeOvertakesEvent | crates/alloyvnc/src/session.rs:982-1006 | a session gets there, whatever the sizes: a client with plain DesktopSize, an update that reads a new size before the frame's event is absorbed, and then everything sent |
| LayoutWaits.NeverAnythingToSend | crates/alloyvnc/src/session.rs:531-546 | and stays there: for any areas that come due one after another the check says yes, the update is empty, and nothing has changed |
| Debts.DemotingIsSafe | crates/alloyvnc/src/session.rs:1006-1018 | of independent copies any that do not fit the area may be turned into damage: outside their destinations the others alone give the same picture |
| Debts.AbsorbMoveIff | crates/alloyvnc/src/session.rs:426-443 | a move is queued as a copy if and only if the client takes copies, no pixel of its source is pending, and it shares none with an unsent copy that either writes; what it covers is pending if and only if it was not queued |
| Debts.EventOwes | crates/alloyvnc/src/session.rs:419-451 | an event leaves owing all of its damage, what was owed outside what moved, and nothing but those and what moved; for a client without CopyRect all of what moved too |
| Debts.SendableInOrder | crates/alloyvnc/src/session.rs:1010-1018 | the copies sent are exactly those whose destination lies in the area, in their order |
| Debts.AfterUpdateIff | crates/alloyvnc/src/session.rs:1008-1143 | after an update no copy is queued and a pixel is owed if and only if it is outside the area and was pending or under a copy not wholly inside it |
| Debts.AbsorbMoveKeeps | crates/alloyvnc/src/session.rs:427-441 | queueing or demoting a move keeps: client with copies made agrees with server outside what is pending |
| Debts.AbsorbMovesKeep | crates/alloyvnc/src/session.rs:419-451 | and so does a whole event's list of moves, taken in order |
| PictureRuns.CopyRun | crates/alloyvnc/src/session.rs:419-451 | in every run of capture, absorb, lag, request, encodings and update steps whose updates find, wherever they paint, what the last absorbed event left there: whenever no change of size is queued and the client has the absorbed picture's size, its picture with the queued copies made is the absorbed picture outside what is pending, and the copies are independent |
| PictureRuns.UntouchedIsGuarded | crates/alloyvnc/src/session.rs:1095-1097 | an update is such an update if no event still queued touches a pixel it paints |
| PictureRuns.UpdateShowsArea | crates/alloyvnc/src/session.rs:1008-1138 | so after an update for an area the client shows the absorbed picture on all of it, and the server's on every pixel painted or unchanged since |
| PictureRuns.UpdateKeepsIff | crates/alloyvnc/src/session.rs:1095-1138 | one update keeps that invariant if and only if the picture it reads is the absorbed one on every pixel painted |
| StaleCopy.ReadingAheadStrands | crates/alloyvnc/src/session.rs:1095-1097 | a run in which one update reads a newer picture than was absorbed ends with everything absorbed, nothing owed and the client's picture wrong |
| PixelRuns.PixelRun | crates/alloyvnc/src/session.rs:419-451 | for clients without CopyRect, under every interleaving with a framebuffer that runs ahead: while client and server have one size, a pixel that differs is pending, or in the damage or move destination of an event still queued, or a change of size is queued |
| PixelRuns.QuietIsEqual | crates/alloyvnc/src/session.rs:561-571 | so with everything absorbed, nothing pending and one size the pictures are equal |
| SessionRuns.AbsorbNext | crates/alloyvnc/src/session.rs:562 | absorbing the next event is an absorb step of the runs |
| SessionRuns.LoseSome | crates/alloyvnc/src/session.rs:563-569 | losing events is a lag step |
| SessionRuns.Ask | crates/alloyvnc/src/session.rs:840-854 | a request is a request step |
| SessionRuns.TakeEncodings | crates/alloyvnc/src/session.rs:776-839 | a list of encodings is an encodings step |
| SessionRuns.Send | crates/alloyvnc/src/session.rs:974-1144 | building an update is an update step that paints exactly the rectangles sent, the normal form of what is owed, and the client then shows the copies sent, made on what it had, under those pixels; it ends the session exactly on a change of size the client cannot be told of, or more rectangles than can be counted |
| SessionRuns.Serve | crates/alloyvnc/src/session.rs:494-586 | whatever is called on a session, in whatever order, is a run; it ends only at a send for one of those two reasons, under the encodings listed last; and if the client never lists CopyRect, then with every event delivered, nothing pending and one size, client and server show the same |
| TightPieces.SplitRect | crates/alloyvnc-encode/src/tight.rs:196-211 | the loop builds the list of pieces the properties below are about |
| TightPieces.PiecesTile | crates/alloyvnc-encode/src/tight.rs:188-211 | the pieces of a non-empty rectangle tile it exactly and disjointly, each at most 2048 wide and 65536 pixels, and there are as many as the count says |
| TightPieces.RowsAreMost | crates/alloyvnc-encode/src/tight.rs:196-211 | a piece has as many rows as 65536 pixels allow at its width, and one more would be too many |
| TightPieces.PiecesAreFewest | crates/alloyvnc-encode/src/tight.rs:188-194 | the pieces counted are the columns of 2048 times the rows of pieces it takes to cover the rectangle, and one column or row fewer would not |
| TightPieces.WholePicturePieces | crates/alloyvnc-encode/src/tight.rs:188-194 | a picture of over 63488 by over 65504 pixels has 65536 pieces, every other one at most 65504 |
| TightPieces.PieceSplitsToItself | crates/alloyvnc/src/session.rs:1036-1041 | every piece splits to itself alone, so the rectangles counted in the header are the ones written |
| PixelFormats.FormatRoundTrip | crates/alloyvnc-proto/src/pixel_format.rs:84-115 | every format written is read back as it was |
| PixelFormats.KnownFormats | crates/alloyvnc-proto/src/pixel_format.rs:151-172 | the sixteen bytes of four formats, among them the three the tests use |
| PixelFormats.Validate | crates/alloyvnc-proto/src/pixel_format.rs:118-144 | no complaint exactly when the format is true colour of 8, 16 or 32 bits, its depth fits and each channel is a mask inside the pixel |
| PixelFormats.ChannelFitsIff | crates/alloyvnc-proto/src/pixel_format.rs:130-145 | a channel is accepted if and only if its maximum is some number of ones, at least one, and that many bits from its shift up lie in the pixel |
| PixelFormats.WideKeeps | crates/alloyvnc-encode/src/decode.rs:89-99 | a channel of 255 levels or more loses nothing on the way there and back |
| PixelFormats.NarrowIsClose | crates/alloyvnc-encode/src/decode.rs:89-99 | a narrower one comes back off by at most (253+max)/(2*max) |
| PixelFormats.NarrowKeepsField | crates/alloyvnc-encode/src/decode.rs:89-99 | a field of at most 255 levels, widened and scaled again, is the same field |
| PixelFormats.TripTwice | crates/alloyvnc-encode/src/convert.rs:62-71 | a second trip through a channel changes nothing |
| PixelFormats.ConvertRow | crates/alloyvnc-encode/src/convert.rs:74-107 | a row's packed bytes are appended pixel by pixel, whatever the size and byte order |
| PixelFormats.UnpackPacked | crates/alloyvnc-encode/src/convert.rs:56-60 | with disjoint channels, unpacking what was packed puts each channel through its own trip and touches no other, for both byte orders and every size |
| PixelFormats.WireSpells | crates/alloyvnc-encode/src/convert.rs:56-99 | the bytes of a pixel are its packed word, low byte first or high byte first as the format says, and the framebuffer's own four in its own layout |
| PixelFormats.WireIsNearest | crates/alloyvnc-encode/src/convert.rs:56-72 | each channel of the word sent is the nearest its field can come to the pixel's |
| PixelFormats.ShownIsNearest | crates/alloyvnc-encode/src/decode.rs:66-101 | what a client shows for any bytes is, channel by channel, the nearest byte to the field |
| PixelFormats.TripsExactlyWhenDisjoint | crates/alloyvnc-proto/src/pixel_format.rs:118-144 | a validated format does so for every pixel if and only if its channels do not overlap |
| PixelFormats.OverlapIsAccepted | crates/alloyvnc-proto/src/pixel_format.rs:118-144 | three one-bit channels on the same bit pass validation, and red comes back white |
| PixelFormats.WideFormatIsLossless | crates/alloyvnc-encode/src/convert.rs:74-107 | with channels of 255 levels or more every colour comes back exactly |
| PixelFormats.SecondTrip | crates/alloyvnc-encode/src/convert.rs:74-107 | packing what was unpacked gives the same bytes again |
| PixelFormats.FieldsKept | crates/alloyvnc-encode/src/decode.rs:66-83 | for any bytes at all: unpacked and packed again, the three fields are as they were |
| Tilings.SquareTilesCut | crates/alloyvnc-encode/src/hextile.rs:82-94 | the tiles cut a rectangle exactly and disjointly, count and areas add up, none is larger than the tile size |
| Tilings.SquareTilesInOrder | crates/alloyvnc-encode/src/hextile.rs:83-95 | the tiles come in reading order, each starting a whole number of tiles across and down and whole but for the edges |
| Hextiles.ColoursAreCounts | crates/alloyvnc-encode/src/hextile.rs:226-240 | up to 24 colours each is listed once with how often it occurs; one more and the list is empty |
| Hextiles.RunsPartition | crates/alloyvnc-encode/src/hextile.rs:245-280 | the subrectangles are disjoint, each of one colour that is not the background, together cover every other pixel, and no two could be joined vertically |
| HextileEncoder.Hextile.CountColours | crates/alloyvnc-encode/src/hextile.rs:226-240 | the field ends up holding that list |
| HextileEncoder.Hextile.FindRuns | crates/alloyvnc-encode/src/hextile.rs:245-280 | the field ends up holding those subrectangles |
| HextileEncoder.Hextile.Grow | crates/alloyvnc-encode/src/hextile.rs:261-278 | a run extends the last subrectangle that ends just above it with the same columns and colour, or starts a new one |
| HextileEncoder.Hextile.Read | crates/alloyvnc-encode/src/hextile.rs:98-112 | the tile's packed bytes and the key of every pixel |
| HextileEncoder.Hextile.EncodeTile | crates/alloyvnc-encode/src/hextile.rs:115-217 | appends one tile as the chosen description and carries the remembered background and foreground on, kept as they were through raw tiles |
| HextileEncoder.Hextile.Encode | crates/alloyvnc-encode/src/hextile.rs:74-95 | appends the tiles row by row, memory carried from each to the next |
| HextileEncoder.EncodedBound | crates/alloyvnc-encode/src/hextile.rs:82-94 | a payload is at most width times height times bytes per pixel, and one byte a tile |
| HextileWire.DescribedIff | crates/alloyvnc-encode/src/hextile.rs:147-216 | a tile of two to twenty-four colours is described if and only if its blocks number at most 255 and the description is shorter than its pixels; the background is a colour none outnumbers, and there is a foreground only with two colours |
| HextileWire.PlainForms | crates/alloyvnc-encode/src/hextile.rs:123-145 | a tile of one colour is that colour, said only if it is news; one of more than twenty-four is its pixels |
| HextileWire.SaidOnce | crates/alloyvnc-encode/src/hextile.rs:115-216 | the background of a tile stays remembered, and its foreground where it said one, through tiles sent as pixels too; a tile of just that background is then a single zero byte |
| HextileWire.FirstByte | crates/alloyvnc-encode/src/hextile.rs:36-42 | the first byte is 1 for pixels, and otherwise the sum of 2 and 4 for a new background and foreground, 8 for blocks and 16 for a colour with each |
| HextileWire.FrontWire | crates/alloyvnc-encode/src/hextile.rs:171-192 | then the new background, the new foreground, low byte first, and the count of blocks |
| HextileWire.BlockWire | crates/alloyvnc-encode/src/hextile.rs:193-199 | a block is its colour where each has one, its column and row in one byte and its width and height less one in another |
| HextileWire.DescribedWire | crates/alloyvnc-encode/src/hextile.rs:192-207 | after that every block in its place, one after another to the end |
| HextileWire.RectangleWire | crates/alloyvnc-encode/src/hextile.rs:74-95 | the tiles are 16 by 16 in reading order, and nothing is remembered before the first |
| HextileDecoder.TileReadBack | crates/alloyvnc-encode/src/decode.rs:130-188 | for every tile, memory in step and bytes behind it: reading gives every pixel as packed and unpacked, consumes exactly the tile, and leaves the memories in step, whichever description was chosen |
| HextileDecoder.BlockOutside | crates/alloyvnc-encode/src/decode.rs:172-182 | for any bytes: a block that would leave its tile is refused, and any other is placed and sized by the halves of its two bytes |
| HextileDecoder.TilesGrow | crates/alloyvnc-encode/src/decode.rs:112-126 | reading tiles is unchanged by bytes that arrive later: a success keeps its answer, an error stays, and a request for more never asks past what completes it |
| HextilePictures.HextileRoundTrip | crates/alloyvnc-encode/src/decode.rs:130-188 | decoding an encoded rectangle consumes exactly the payload and shows every pixel of it, and no other pixel, as packing and unpacking leave it |
| HextilePictures.HextilePrefix | crates/alloyvnc/src/client.rs:349-355 | every proper prefix asks for at least one byte and for no more than are missing |
| HextileClient.DecodeTile | crates/alloyvnc-encode/src/decode.rs:136-186 | the decoder's loop over the picture paints exactly what the tile says, and on a failure nothing outside the tile |
| HextileClient.Decode | crates/alloyvnc-encode/src/decode.rs:130-188 | answers the bytes used and paints the rectangle, or the error of the first tile that fails with nothing outside the rectangle changed |
| HextileClient.Fetch | crates/alloyvnc/src/client.rs:343-357 | the retry loop ends having read exactly the payload from any stream that begins with it, with the picture right in spite of the partial decodes |
| Cpixels.CpixelKeepsColour | crates/alloyvnc-encode/src/zrle.rs:69-99 | the byte a compact pixel drops is one nothing uses: restored and unpacked it gives what the whole pixel gives, for every valid format and byte order |
| Cpixels.ThreeBytesIff | crates/alloyvnc-encode/src/zrle.rs:69-101 | a compact pixel has three bytes if and only if the format has 32 bits, a depth of at most 24, and either every packed pixel is below 2^24 or every one has an empty low byte; otherwise it has all the format's bytes |
| Cpixels.CpixelWire | crates/alloyvnc-encode/src/zrle.rs:69-101 | those three bytes, in the client's order, are the packed pixel where all fit in them, and the packed pixel without its low byte where not |
| Palettes.PaletteIsColours | crates/alloyvnc-encode/src/zrle.rs:242-263 | up to the limit each colour is listed once; past it the list is empty |
| Zrles.RunsStandForKeys | crates/alloyvnc-encode/src/zrle.rs:242-263 | the runs, spelled out, are the pixels, and no two neighbours have one colour |
| Zrles.LengthCodeSize | crates/alloyvnc-encode/src/zrle.rs:342-354 | a length's code is as long as the cost model says |
| PackedRows.PackSlots | crates/alloyvnc-encode/src/zrle.rs:280-296 | every index packed most significant bits first is found in its slot, for 1, 2 and 4 bits |
| PackedRows.PixelSlot | crates/alloyvnc-encode/src/zrle.rs:272-297 | each row of indices starts on a byte, a row fills its bytes from the top bits down, and each index names its pixel's colour |
| PackedRows.PackSize | crates/alloyvnc-encode/src/zrle.rs:336-340 | a packed row has exactly the bytes counted, its last one padded |
| PackedRows.RowsRead | crates/alloyvnc-encode/src/decode.rs:285-307 | rows padded to whole bytes read back as the colours they index and leave what follows |
| ZrleEncoder.Cheapest | crates/alloyvnc-encode/src/zrle.rs:188-237 | of the ways open to a tile the one chosen costs no more than any other |
| ZrleEncoder.TileCodeSize | crates/alloyvnc-encode/src/zrle.rs:188-237 | a tile of several colours takes one byte and exactly the least cost, and no tile more than raw and one byte |
| ZrleWire.TileIsShortest | crates/alloyvnc-encode/src/zrle.rs:188-240 | a tile of one colour is a byte and that colour; any other takes one of the four forms, and none open to it is shorter |
| ZrleWire.FormBytes | crates/alloyvnc-encode/src/zrle.rs:272-323 | the first byte is the number of colours for rows of indices, 128 and that number for runs of them, 128 for runs of colours; the colours follow in order |
| ZrleWire.LengthWire | crates/alloyvnc-encode/src/zrle.rs:347-354 | a length less one is bytes of 255 and a last one below |
| ZrleWire.PlainRunWire | crates/alloyvnc-encode/src/zrle.rs:317-323 | a run of colours is the colour and then its length |
| ZrleWire.PaletteRunWire | crates/alloyvnc-encode/src/zrle.rs:299-315 | a run of indices is one byte below 128 for a single pixel, and 128 more with a length after it for several |
| ZrleDecoder.LengthRead | crates/alloyvnc-encode/src/decode.rs:375-384 | every run length reads back, with whatever follows left |
| ZrleDecoder.PlainRunsRead | crates/alloyvnc-encode/src/decode.rs:308-318 | plain runs read back as the pixels they stand for |
| ZrleDecoder.PaletteRunsRead | crates/alloyvnc-encode/src/decode.rs:319-344 | palette runs, single pixels included, read back as the pixels they stand for |
| ZrleDecoder.TileReadBack | crates/alloyvnc-encode/src/decode.rs:262-348 | for every tile, compact layout and palette left from before: reading what was written gives every pixel and consumes exactly the tile, across solid, raw, packed, plain and palette runs |
| ZrleDecoder.PaletteUsedAgain | crates/alloyvnc-encode/src/decode.rs:262-349 | rows and runs of indices into the palette an earlier tile told read back too, though this encoder writes none |
| ZrleDecoder.PaletteLeft | crates/alloyvnc-encode/src/decode.rs:262-349 | a tile leaves its own palette for the next if it told one, and otherwise the one before; first bytes from 17 to 126 are refused |
| ZrleDecoder.RunsCut | crates/alloyvnc-encode/src/decode.rs:308-344 | a run longer than the rest of its tile fills the rest, and an index past the palette is refused |
| ZrlePictures.PlainRoundTrip | crates/alloyvnc-encode/src/decode.rs:247-259 | a rectangle's plain stream decodes tile by tile, is consumed exactly and shows every pixel as packing and unpacking leave it |
| ZrlePictures.RectangleRoundTrip | crates/alloyvnc-encode/src/decode.rs:222-260 | and so through the length and the deflate stream, with both ends' histories in step afterwards |
| ZrlePictures.StreamRoundTrip | crates/alloyvnc-encode/src/decode.rs:195-260 | any sequence of rectangles over one stream shows them all, in order, and uses exactly the bytes sent |
| ZrleWire.RectangleWire | crates/alloyvnc-encode/src/zrle.rs:146-171 | a rectangle is four bytes of length, high byte first, and its tiles of 64 by 64 in reading order, deflated together |
| ZrleWriter.Zrle.Encode | crates/alloyvnc-encode/src/zrle.rs:146-170 | appends the length and the deflated tiles, and the stream's history grows by just that plain block |
| ZrleWriter.Zrle.EncodeTile | crates/alloyvnc-encode/src/zrle.rs:188-237 | appends the tile's code to the plain stream |
| ZrleWriter.Zrle.Choose | crates/alloyvnc-encode/src/zrle.rs:198-236 | the comparisons in order pick the cheapest way |
| ZrleWriter.Zrle.Gather | crates/alloyvnc-encode/src/zrle.rs:242-263 | palette and runs of the tile in one pass |
| ZrleWriter.Zrle.WritePacked | crates/alloyvnc-encode/src/zrle.rs:272-297 | appends palette and packed rows |
| ZrleWriter.Zrle.WritePaletteRle | crates/alloyvnc-encode/src/zrle.rs:299-315 | appends palette and indexed runs |
| ZrleWriter.Zrle.WritePlainRle | crates/alloyvnc-encode/src/zrle.rs:317-324 | appends plain runs |
| ZrleWriter.Zrle.PushLength | crates/alloyvnc-encode/src/zrle.rs:347-354 | writes a length as full bytes and a remainder |
| ZrleClient.ZrleReader.Decode | crates/alloyvnc-encode/src/decode.rs:222-260 | inflates one rectangle with the stream's history, paints it tile by tile and answers the bytes used, or the error; nothing outside the rectangle is touched |
| ZrleClient.ZrleReader.DecodeRect | crates/alloyvnc-encode/src/decode.rs:247-259 | the tile loop over the picture paints what the plain stream says and keeps the palette for the next tile |
| Tights.ShownIsThrough | crates/alloyvnc-encode/src/tight.rs:77-100 | with disjoint channels a Tight pixel shows the same colour as a whole packed one |
| Tights.TpixelWire | crates/alloyvnc-encode/src/tight.rs:77-103 | with 32 bits, depth 24 and three maxima of 255, whatever the shifts and the byte order, a pixel is three bytes worth 65536 red, 256 green and blue, high byte first; in every other valid format it is all the bytes of the packed word, in the client's order |
| TightDecoder.CompactReadBack | crates/alloyvnc-encode/src/decode.rs:621-631 | a compact length reads back as its low 21 bits, with whatever follows left |
| TightDecoder.CompactIff | crates/alloyvnc-encode/src/tight.rs:430-439 | it reads back as written if and only if it is below 2097152 |
| TightWire.CompactWire | crates/alloyvnc-encode/src/tight.rs:430-442 | a length below 2^22 in one, two or three bytes of seven bits, low bits first, the top bit saying another follows |
| TightWire.FillWire | crates/alloyvnc-encode/src/tight.rs:213-250 | a piece of one colour is 128 with the streams to restart in the low four bits, and the colour |
| TightWire.MonoWire | crates/alloyvnc-encode/src/tight.rs:287-377 | a piece of two colours is 80 with those bits, the filter 1, the two colours and rows of bits on stream 1; data under twelve bytes goes as it is |
| TightWire.IndexedWire | crates/alloyvnc-encode/src/tight.rs:314-377 | a piece of three to 256 colours is 96 with those bits, the filter 1, their number less one, the colours, and a byte a pixel on stream 2 |
| TightWire.CopyWire | crates/alloyvnc-encode/src/tight.rs:329-377 | a piece of more is 64 with those bits, the filter 0 and the pixels on stream 0 |
| TightDecoder.SkipPieceGrows | crates/alloyvnc-encode/src/decode.rs:446-487 | finding a piece's length is unchanged by bytes that arrive later |
| TightDecoder.LenIsUsed | crates/alloyvnc-encode/src/decode.rs:438-487 | whenever a piece decodes, the length foreseen is exactly what decoding consumes |
| TightDecoder.FilterLeftOut | crates/alloyvnc-encode/src/decode.rs:532-545 | a piece whose filter is left out reads, and measures, as one with the filter that copies |
| TightPictures.PieceReadBack | crates/alloyvnc-encode/src/decode.rs:489-591 | for every piece, with streams in step or their reset announced: fill, two colours, palette and plain copy decode to their pixels, consume exactly the piece and leave the four streams in step |
| TightPictures.RectReadBack | crates/alloyvnc-encode/src/tight.rs:167-184 | and so for all the pieces of a rectangle, which together show all of it |
| TightPictures.RestartStep | crates/alloyvnc-encode/src/tight.rs:157-164 | after a reset the four pending bits put any inflater in step, whatever it had seen |
| TightPictures.FreshInStep | crates/alloyvnc-encode/src/tight.rs:129-145 | a new encoder and a new reader start in step |
| TightPictures.SessionRoundTrip | crates/alloyvnc-encode/src/tight.rs:157-184 | every sequence of rectangles and resets decodes to the pictures meant, and uses exactly the bytes sent |
| TightPictures.TightShowsTheSame | crates/alloyvnc-encode/src/tight.rs:77-100 | with disjoint channels a rectangle shows as it would through any other encoding |
| TightWriter.Tight.Restart | crates/alloyvnc-encode/src/tight.rs:157-164 | four fresh streams, all four reset bits pending |
| TightWriter.Tight.TakeReset | crates/alloyvnc-encode/src/tight.rs:282-284 | hands over the pending bits once |
| TightWriter.Tight.Encode | crates/alloyvnc-encode/src/tight.rs:167-184 | appends the pieces in order, streams carried from each to the next |
| TightWriter.Tight.EncodePiece | crates/alloyvnc-encode/src/tight.rs:213-249 | appends the piece by its number of colours: fill, mono, indexed or copy |
| TightWriter.Tight.CountColours | crates/alloyvnc-encode/src/tight.rs:268-280 | the colours, or none past 256 |
| TightWriter.Tight.Mono | crates/alloyvnc-encode/src/tight.rs:287-311 | two colours as one padded bit a pixel |
| TightWriter.Tight.Indexed | crates/alloyvnc-encode/src/tight.rs:314-326 | a palette and one byte a pixel |
| TightWriter.Tight.Copy | crates/alloyvnc-encode/src/tight.rs:329-336 | every pixel as it is, over its own stream |
| TightWriter.Tight.Compress | crates/alloyvnc-encode/src/tight.rs:368-377 | fewer than 12 bytes go as they are and touch no stream; others go deflated with a length and grow that stream's history alone |
| TightWriter.Tight.PushCompact | crates/alloyvnc-encode/src/tight.rs:430-439 | seven, seven and eight bits, as few bytes as hold the length |
| TightClient.LengthOfPiece | crates/alloyvnc/src/client.rs:377-383 | a whole encoded piece has its own length; every proper prefix asks for at least one byte and no more than are missing |
| TightClient.Length | crates/alloyvnc-encode/src/decode.rs:446-487 | the walk over a payload answers that length, or how many bytes are wanted, and touches no stream |
| TightClient.TightReader.Decode | crates/alloyvnc-encode/src/decode.rs:489-591 | restarts the streams named, decodes a piece onto the picture and advances its stream, or gives the error; nothing outside the piece is touched |
| TightClient.Fetch | crates/alloyvnc/src/client.rs:371-389 | the retry loop reads exactly the piece from any stream that begins with it, paints it and stays in step |
| Painting.PutPackedRow | crates/alloyvnc-encode/src/decode.rs:290-306 | one packed row lands pixel by pixel as its indices say; an index past the palette is refused with nothing outside the tile touched |
| Painting.PaintRows | crates/alloyvnc-encode/src/decode.rs:284-307 | rows of packed indices are read to their end and laid over the tile, for ZRLE palettes and for two Tight colours alike |
| ZrleClient.NextLength | crates/alloyvnc-encode/src/decode.rs:375-384 | the loop of full bytes reads the length the encoder wrote |
| ZrleClient.PaintPlainRuns | crates/alloyvnc-encode/src/decode.rs:308-318 | runs fill the tile in rows, the last one cut, or the first error stands |
| ZrleClient.PaintPaletteRuns | crates/alloyvnc-encode/src/decode.rs:319-344 | indexed runs and single pixels fill the tile in rows, or the first error stands |
| ZrleClient.ZrleReader.DecodeTile | crates/alloyvnc-encode/src/decode.rs:262-348 | one tile by its subencoding, onto the picture, and the palette the next may use again |
| TightClient.TightReader.StartAgain | crates/alloyvnc-encode/src/decode.rs:501-506 | the streams the control byte names are fresh, the others as they were |
| TightClient.TightReader.NextBody | crates/alloyvnc-encode/src/decode.rs:595-606 | fewer than 12 bytes come as they are; others are inflated and advance that stream alone |
| TightClient.PaintIndexed | crates/alloyvnc-encode/src/decode.rs:578-583 | a byte a pixel as long as there is data, or refused at an index the palette does not have |
| Flows.Congestion.MaySendNow | crates/alloyvnc/src/flow.rs:149-162 | yes when not measured, with nothing in flight, or when another update as large as the last fits the window |
| Flows.Congestion.CountWritten | crates/alloyvnc/src/flow.rs:165-168 | counts the bytes and nothing else |
| Flows.Congestion.PingIsDue | crates/alloyvnc/src/flow.rs:171-180 | due when measured, fewer than three are open, and 16 KiB were written or 100 ms went by since the last |
| Flows.Congestion.StartPing | crates/alloyvnc/src/flow.rs:184-195 | opens a round trip with the next number at the bytes counted so far |
| Flows.Congestion.Pong | crates/alloyvnc/src/flow.rs:198-237 | an echo closes its round trip and all before it and measures once; the window opens by its growth, halves or stays by how far that round trip is over the shortest known, within its limits; an unknown echo changes nothing and is not ours |
| Flows.Congestion.Resize | crates/alloyvnc/src/flow.rs:228-237 | the window after one measurement, as PongMoves says which way |
| Flows.PongMoves | crates/alloyvnc/src/flow.rs:198-237 | a round trip less than 25 ms over the shortest known opens the window by the growth, or to 4 MiB; one more than 100 ms over halves it, or to 16 KiB; any other leaves it |
| Flows.PongMeasures | crates/alloyvnc/src/flow.rs:209-222 | the shortest round trip is the least of the two, forgotten after a minute without a better one, and the smoothed one is seven eighths of the old and one of the new |
| Flows.ClearRunOpens | crates/alloyvnc/src/flow.rs:228-237 | along every stretch of every run whose answers are all clear the window opens by the growth at each, whatever else happens, until it stands at 4 MiB |
| Flows.QueuedRunShuts | crates/alloyvnc/src/flow.rs:228-237 | along every stretch whose answers all show a queue it halves at each, until it stands at 16 KiB |
| Flows.WindowEndsUp | crates/alloyvnc/src/flow.rs:308-330 | so a path that stays clear opens the window all the way, and eight answers over a queue shut it all the way |
| Flows.Congestion.Expire | crates/alloyvnc/src/flow.rs:242-250 | drops the oldest round trips while they are too old |
| Flows.PongedKeeps | crates/alloyvnc/src/flow.rs:198-237 | limits, order and acked at most every open mark at most written all survive any echo, and what is answered never falls |
| Flows.ExpiredKeeps | crates/alloyvnc/src/flow.rs:242-250 | writing off keeps them too, drops only from the front, answers nothing |
| Flows.LateEchoIsNothing | crates/alloyvnc/src/flow.rs:198-202 | an echo repeated, or older than one already answered, changes nothing |
| Flows.FitsTheWindow | crates/alloyvnc/src/session.rs:719-737 | an update sent when allowed leaves at most the window and its own size in flight |
| Flows.CaughtUpMaySend | crates/alloyvnc/src/flow.rs:149-162 | once the last round trip is answered and nothing was written since, the next update may go, whatever its size |
| Flows.HeldBackIff | crates/alloyvnc/src/flow.rs:149-168 | after an update the next waits if and only if something is in flight and another as large would not fit the window beside it |
| Flows.NextPingDue | crates/alloyvnc/src/flow.rs:171-195 | after a round trip is started the next is due if and only if fewer than three are open and 16 KiB have been written or a tenth of a second has gone by since |
| Flows.ExpiredCut | crates/alloyvnc/src/flow.rs:242-250 | exactly the round trips at the front open over five seconds are dropped, and each is counted |
| Flows.StepKeeps | crates/alloyvnc/src/session.rs:712-753 | every step of link, client and session keeps: bytes consumed and on the link add up to those written, every open round trip's fence was reached or lies ahead right behind its bytes |
| Flows.NeverAhead | crates/alloyvnc/src/flow.rs:1-30 | so in every run what is answered never exceeds what the client has been through, what is on the link is at most what is in flight, and an update allowed leaves at most window and its own size on the link |
| ClientMessages.ParseGrows | crates/alloyvnc-proto/src/msg.rs:152-329 | a message or a refusal read from a buffer is unchanged by any bytes appended, and a request for more is still for bytes that were missing |
| ClientMessages.WrittenReadsBack | crates/alloyvnc-proto/src/msg.rs:617-683 | every message within the limits reads back as itself from what a client writes, with whatever follows left |
| ClientMessages.ReadsBackIff | crates/alloyvnc-proto/src/msg.rs:219-245 | a written message reads back if and only if it is within the limits and, for a clipboard body, not empty |
| MessageWire.FixedWire | crates/alloyvnc-proto/src/msg.rs:156-259 | where each field of the messages of fixed length stands, high byte first; padding is skipped, a flag is set by anything but zero, and an unknown type is refused |
| MessageWire.EncodingsWire | crates/alloyvnc-proto/src/msg.rs:174-192 | a count over 1024 is refused as soon as it is read, and otherwise the list is so many signed numbers in order |
| MessageWire.CutTextWire | crates/alloyvnc-proto/src/msg.rs:219-245 | a length of either sign over a mebibyte is refused as soon as it is read; below zero it is an extended clipboard of that many bytes |
| MessageWire.FenceWire | crates/alloyvnc-proto/src/msg.rs:260-273 | flags and a payload of at most 64 bytes, more being refused |
| MessageWire.DesktopSizeWire | crates/alloyvnc-proto/src/msg.rs:274-309 | a size and at most 16 screens, each field of each in its place |
| MessageWire.QemuWire | crates/alloyvnc-proto/src/msg.rs:310-328 | only subtype 0 is taken, a key with its keysym and scancode |
| ClientMessages.ParsedFits | crates/alloyvnc-proto/src/msg.rs:156-329 | no message over the limits is ever accepted |
| ClientMessages.PrefixWaits | crates/alloyvnc-proto/src/msg.rs:156-329 | every proper prefix of a written message waits for more, never for more than is missing |
| ClientMessages.Drain | crates/alloyvnc/src/session.rs:512-518 | the loop handles exactly the messages at the front of the buffer and leaves the rest |
| ClientMessages.StepFaithful | crates/alloyvnc/src/session.rs:512-518 | receiving bytes or handling one message keeps: what was read, followed by anything, is what was handled, followed by that |
| ClientMessages.ChunkingDoesNotMatter | crates/alloyvnc/src/session.rs:505-518 | however the stream is split and whenever the loop pauses, what was handled and what is still in the buffer are together the messages of all the bytes received |

## Left out

- Tighteners.Tightener.Detect: of several shifts with the most votes it is left open which wins, as the code's table of votes leaves it.
- Tighteners.Tightener.Tighten: the changed marks are one truth value a cell, not bits packed into words, and hashing is a function of the cell's pixels.
- TightenReplay.ReplayIsExact: needs the cells of the damage's box known before moves are claimed; without moves it needs nothing of the sort.
- Framebuffers.Framebuffer.CopyWithin: a source outside the picture, for which the code panics, is excluded.
- PixelSets.Add: a region is a value that its owner replaces, not a vector edited in place.
- Sessions.Session.BuildUpdate: the bytes of the update are what the encoders' own theorems are about; here it is which copies and rectangles go out. The screen layout and the cursor's shape are only present or absent.
- Sessions.Session.DemoteCopies: says nothing about machine integers; picture sides fit 16 bits.
- PictureRuns.CopyRun: claims nothing while a change of size is queued or the client has another size; the invariant holds again once the change is absorbed and sent, when everything is owed.
- SessionRuns.Send: a client told of a new size may show anything of that size until its next update; the step taken for it shows black.
- CapturedFrames.PassIsTruthful: runs are of one picture size; a change of size starts a fresh table and a fresh run. That a reported move lies inside the picture is taken from the backend.
- HextileClient.Decode: on a failure the pixels inside the rectangle are left unstated, as a partial decode may have painted some.
- ZrleWriter.Zrle.Encode: replacing a running encoder with a fresh one in the middle of a session is not modelled.
- ZrleClient.ZrleReader.Decode: a block's inflated bytes come from the history alone; after a failure it is not stated what the reader holds or what of the rectangle was painted.
- TightWriter.Tight.EncodePiece: JPEG pieces are left out, so this is the encoder with no quality level set.
- TightDecoder.ReadPiece: a JPEG piece is refused as malformed, though its length is found; a mono body that inflates too short is refused where the code would panic.
- TightClient.TightReader.Decode: after a failure it is not stated what the streams hold or what of the piece was painted.
- TightPictures.SessionRoundTrip: covers one encoder's life; two encoders after one another on one client are not covered.
- Flows.Congestion.Pong: clocks are numbers of nanoseconds handed in, durations and counters are unbounded.
- Flows.NeverAhead: safety only; that a shut window opens again is not claimed, and does not follow.
- ClientMessages.WrittenReadsBack: extended clipboard bodies are bytes, their own format is not parsed; plain text is its Latin-1 bytes. crates/alloyvnc-proto/src/msg.rs has no writer for SetDesktopSize; its layout here is the model's own, after what crates/alloyvnc/src/client.rs:223-234 sends for one screen.
- ClientMessages.ParseClient: the fields of a fixed-size message are taken together, so the number of bytes it waits for is that of the message, where the code answers only that there are too few.
- Deflate, inflate, JPEG and xxh3 themselves.
- The raw encoder, cursor shapes, the DES and version handshakes, key tables.
- Sockets, threads, locks, timers, logging, statistics, capture backends and input.
- The order in which fences are answered and the reader paused.
