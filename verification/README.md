# MS200 lidar driver, laser message, scan filters, angle arithmetic and IMU reader

This project models the part of the repository that turns bytes and points into results, and
proves what those results are for every input and every run.

- **Receive pipeline** (`ord_lidar_driver.cpp`). `Framing` says which packets a byte stream
  contains when it is looked at as a whole. `StreamParser` is the resumable parser as written,
  including its outer guard, which is evaluated with the position of the previous header.
  `Promptness` says when packets that have arrived are handed over.
  `Decode` interpolates the twelve angles of a packet, `ScanCutter` cuts scans out of the
  stream of points, `Delivery` and `Handover` add the grab functions and whole interleaved
  runs. `OrdlidarDriver` is the driver object itself: it works in place on its buffer and its
  two arrays, and every method is proved to take the state to the state its specification
  function gives. `Crc`, `Octet` and `CrcTable` deal with the checksum; `PacketCodec` is the
  inverse of the decoder; `ScanDivision` is the reference for the cutter.
- **Angles** (`angles.h`), over the reals and in turns (a full turn is 1), with the code's
  1e-6 tolerance as a parameter.
- **Laser message** (`publish_msg`), in both directions, in hundredths of a degree and millimetres.
- **Filters** (`FullScanFilter.cpp`): smoothing, and the bilateral filter for arbitrary nonnegative
  weights of slot and wrapped 16-bit difference.
- **IMU reader** (`wit_normal_ros.py`): the byte machine and the messages it publishes.

Angles of the driver are whole hundredths of a degree, because the angle step at line 413 of
the driver is an integer division. The source compares them as floats; the model compares the
exact values. Receive and grab calls are atomic steps, as if the driver held a lock around
its scan copies, and the ready flag, which the constructor leaves unset, starts false. The
overlapping `memcpy` at line 317 is a forward move.

## Where the code does less than it might seem to

- A call to `uart_data_handle` may return with complete packets still in its buffer. No packet
  is lost, at most half of the buffer stays behind, and a complete packet is handed over within
  the next five calls (`HandedOverWithinFive`). `SearchesPromptExactly` says exactly when it
  happens, for every buffer and all new bytes; `PiecesPromptExactly` says it for packets
  with garbage between them, and `PacketKeptBack` is an instance.
- A backward jump at the start of a packet hides an angle wrap inside the same packet, and an
  overflow discards points. `DividesExactly` shows that these are the only two ways in which
  the scans differ from the division of the points at their jumps; `ScansSmoothExactly` says
  exactly which runs cut a scan with a jump inside it. `JumpingScanReceived` is a run over
  well-formed packets after which `GrabFullScan` hands one out.
- An empty scan is cut exactly by a packet that directly follows an overflow and begins more than
  a degree behind the last point that had fitted (`EmptyScansExactly`). It is marked ready exactly
  when the point array's first slot still holds an angle of ten degrees or less. Then `GrabFullScan`
  refuses it and `GrabFullScanBlocking` hands it out (`EmptyOfferedOfPacket`, `NextGrabExactly`);
  `EmptyScanReceived` is a run over well-formed packets that ends so.
- The angle step is computed with wrapping unsigned arithmetic. The last point trails the end
  angle by the rounding remainder exactly when the subtraction does not wrap (`LastPointTrailsEnd`).
- `shortest_angular_distance_with_limits` promises true exactly when both positions are inside
  the limits. `Angles.Misjudged` is the exact set of starts, goals and limits for which that
  fails (`AcceptedFromOutside` and `RefusedWithoutLimits` are instances). For a start on a limit,
  or not within the tolerance of one, it fails only when both limits are the same position (and
  not the pair of minus and plus half a turn), the start is on it and the goal is not. A start
  just ahead of the left limit counts as inside even if it is past the right one, and so does a
  start just past the right limit. From just behind the left limit, unless that is on the right
  one, the answer is wrong for every goal inside the limits: with the unlimited pair nearly every
  goal is refused there. `find_min_max_delta` by itself accepts every start closer to a limit than
  the tolerance.
- The comment of the same function gives the long way of its first example as positive. The way
  that stays inside the limits runs backwards, and the code returns it so (`DocumentedExamples`).
- The comment of `shortest_angular_distance` allows minus half a turn; the code never returns it.
- Clockwise, in exact arithmetic, the last point of a scan never falls into a cell of the laser
  message (`EndsOfScan`). The quotient in floats can round below the number of points.
- The bilateral filter pads the front of the scan with its tail, as its comment says, but not
  the tail with its front: the last two padding cells stay zero (`TailIsNotPadded`).

## Model

| member | source | states |
|---|---|---|
| CrcTable.TableEntryIsShift | oradar_ros/sdk/src/ord_lidar_driver.cpp:13-36 | each of the 256 table entries is eight steps of division by the generator 0x4D |
| Crc.LookUp | oradar_ros/sdk/src/ord_lidar_driver.cpp:271 | one table look-up divides register plus byte by eight more bits |
| Crc.TableLoop | oradar_ros/sdk/src/ord_lidar_driver.cpp:268-272 | the table loop leaves the remainder of the long division of the message polynomial, for any length |
| Crc.ChecksumIsRemainder | oradar_ros/sdk/src/ord_lidar_driver.cpp:268-272 | the byte-wise checksum equals bit-by-bit polynomial division with eight zero bits appended |
| Crc.ChecksumLinear | oradar_ros/sdk/src/ord_lidar_driver.cpp:268-272 | the checksum of a difference of equally long messages is the difference of their checksums |
| Crc.BurstDetected | oradar_ros/sdk/src/ord_lidar_driver.cpp:268-274 | messages that differ only within eight consecutive bits have equal checksums only if they are equal |
| Crc.ClosedByChecksum | oradar_ros/sdk/src/ord_lidar_driver.cpp:268-274 | exactly the right closing byte makes the checksum of the whole zero |
| Framing.ValidIffChecksumZero | oradar_ros/sdk/src/ord_lidar_driver.cpp:268-274 | a 47-byte packet passes the check exactly when the checksum over all of it is zero |
| Framing.CorruptedFrameRejected | oradar_ros/sdk/src/ord_lidar_driver.cpp:268-274 | a valid packet changed by a burst of at most eight bits, checksum byte included, is rejected |
| Framing.SkipGarbage | oradar_ros/sdk/src/ord_lidar_driver.cpp:235-259 | bytes at which no header begins do not influence which packets a stream contains |
| Framing.RoundTrip | oradar_ros/sdk/src/ord_lidar_driver.cpp:235-360 | valid packets with header-free garbage before and between them, followed by anything without a complete packet, are read back exactly, in order |
| Framing.Resync | oradar_ros/sdk/src/ord_lidar_driver.cpp:235-360 | after arbitrary noise a valid packet and all that follows is still read, unless a window reaching into it carries a correct checksum |
| PacketCodec.DecodeEncode | oradar_ros/sdk/src/ordlidar_protocol.h:87-97 | a packet built from any field values is valid and every field is read back |
| StreamParser.Seek | oradar_ros/sdk/src/ord_lidar_driver.cpp:235-251 | the search stops at a header or leaves the last two bytes |
| StreamParser.SeekSkipsGarbage | oradar_ros/sdk/src/ord_lidar_driver.cpp:235-259 | nothing the search steps over begins a header |
| StreamParser.AlignmentKeptExactly | oradar_ros/sdk/src/ord_lidar_driver.cpp:218-222 | after a call the flags agree and a remembered header begins the buffer, except exactly when the buffer was flushed with a header remembered |
| StreamParser.ParseRefines | oradar_ros/sdk/src/ord_lidar_driver.cpp:232-362 | whatever bytes follow, packets taken by the loop plus packets of what it leaves are the packets there were |
| StreamParser.ReceiveRefines | oradar_ros/sdk/src/ord_lidar_driver.cpp:205-364 | the same for one call with new data |
| StreamParser.RunRefines | oradar_ros/sdk/src/ord_lidar_driver.cpp:205-364 | the same for any sequence of calls that never flushes |
| StreamParser.ParseBacklog | oradar_ros/sdk/src/ord_lidar_driver.cpp:232-362 | what the loop leaves, including the early stop of its guard, is less than a packet or at most half |
| StreamParser.ReceiveBacklog | oradar_ros/sdk/src/ord_lidar_driver.cpp:205-364 | a call leaves less than a packet, or at most half of the buffer |
| StreamParser.BacklogBounded | oradar_ros/sdk/src/ord_lidar_driver.cpp:207-222 | reads of at most r bytes, r up to half the flush limit, never leave more than r bytes and never flush |
| StreamParser.ChunkIndependence | oradar_ros/sdk/src/ord_lidar_driver.cpp:205-386 | however a stream is cut into reads of at most 1024 bytes, packets accepted plus packets still buffered are the packets of the stream |
| StreamParser.TransmissionRecovered | oradar_ros/sdk/src/ord_lidar_driver.cpp:205-364 | packets sent with garbage between them are recovered in order from any chunking, also while a further packet is incomplete |
| Promptness.ParsePrompt | oradar_ros/sdk/src/ord_lidar_driver.cpp:232-362 | the loop, entered with any position on any aligned buffer, leaves no complete packet behind, if and only if behind every header found no packet remains or more bytes remain than were stepped over |
| Promptness.OldPacketsHandedOver | oradar_ros/sdk/src/ord_lidar_driver.cpp:205-364 | after n calls, whatever they bring, every packet of a stretch of fewer than 47 * 2^n bytes at the front of the buffer has been handed over |
| Promptness.HandedOverWithinFive | oradar_ros/sdk/src/ord_lidar_driver.cpp:205-386 | in a run from power-up every packet that has arrived completely is handed over within the next five calls |
| Promptness.DrainedByFive | oradar_ros/sdk/src/ord_lidar_driver.cpp:205-364 | five calls without new bytes leave no complete packet in a buffer of up to 1024 bytes |
| Promptness.ReceivePromptExactly | oradar_ros/sdk/src/ord_lidar_driver.cpp:205-364 | the same condition decides for one call, with any bytes left over from before, whether it hands over all packets it holds |
| Promptness.SearchesPromptExactly | oradar_ros/sdk/src/ord_lidar_driver.cpp:205-364 | the same as a statement about all header searches in the buffer, given by their offsets: behind each no packet lies, or more bytes lie than it stepped over |
| Promptness.PiecesPromptExactly | oradar_ros/sdk/src/ord_lidar_driver.cpp:205-364 | for packets with garbage between them: all are handed over if and only if the garbage in front of each, except the last, is outrun by the bytes behind it |
| Promptness.PromptExactly | oradar_ros/sdk/src/ord_lidar_driver.cpp:232-351 | the case of one stretch of garbage followed by packets, and what is kept otherwise |
| Promptness.AnswerMeaning | oradar_ros/sdk/src/ord_lidar_driver.cpp:213-363 | false leaves less than a packet behind, true leaves no remembered header |
| Promptness.AnswerExactly | oradar_ros/sdk/src/ord_lidar_driver.cpp:213-363 | the answer is true if and only if the call holds 47 to 4700 bytes and, behind one of its header searches, a packet was taken and less than another is left, or no more bytes are left than were stepped over, and two |
| Promptness.OnePacketAnswer | oradar_ros/sdk/src/ord_lidar_driver.cpp:346-363 | a read of exactly one packet is answered with true |
| Promptness.ShortAndLongCalls | oradar_ros/sdk/src/ord_lidar_driver.cpp:213-222 | below 47 bytes nothing but appending happens; above 4700 everything is thrown away and the flags stay |
| Decode.ParseFrame | oradar_ros/sdk/src/ord_lidar_driver.cpp:404-434 | the twelve slots hold the decoded points and no other slot changes |
| Decode.FirstAngle | oradar_ros/sdk/src/ord_lidar_driver.cpp:423-431 | the first point lies at the start angle |
| Decode.AnglesInTurn | oradar_ros/sdk/src/ord_lidar_driver.cpp:412-432 | a start angle below 360 degrees gives twelve angles below 360 degrees |
| Decode.RiseOrWrap | oradar_ros/sdk/src/ord_lidar_driver.cpp:412-432 | successive angles rise by the step or fall by a turn less the step, which is always more than a degree |
| Decode.AtMostOneWrap | oradar_ros/sdk/src/ord_lidar_driver.cpp:423-431 | a packet contains at most one such fall |
| Decode.LastPointTrailsEnd | oradar_ros/sdk/src/ord_lidar_driver.cpp:412-431 | the last point trails the end angle by the remainder modulo 11, if and only if the subtraction does not wrap |
| ScanCutter.CutIndex | oradar_ros/sdk/src/ord_lidar_driver.cpp:296-323 | the loop stops at the first point more than a degree behind its predecessor |
| ScanCutter.DiscardedExactly | oradar_ros/sdk/src/ord_lidar_driver.cpp:282-337 | a packet is discarded, with all that is pending, if and only if the pending points and its twelve are 4096 or more |
| ScanCutter.IngestKeepsValid | oradar_ros/sdk/src/ord_lidar_driver.cpp:282-337 | fewer than 4096 points stay pending, and the remembered angle is that of the last one |
| ScanCutter.IngestConserves | oradar_ros/sdk/src/ord_lidar_driver.cpp:282-337 | points cut or discarded plus points pending are the points there were plus those of the packet |
| ScanCutter.Conservation | oradar_ros/sdk/src/ord_lidar_driver.cpp:282-337 | the same over any run of packets: no point is lost, duplicated or reordered |
| ScanCutter.IngestKeepsShape | oradar_ros/sdk/src/ord_lidar_driver.cpp:296-323 | cut and pending points have at most one internal jump, among the first twelve |
| ScanCutter.RunKeepsShape | oradar_ros/sdk/src/ord_lidar_driver.cpp:296-323 | the same for every scan of every run |
| ScanCutter.IngestSmoothExactly | oradar_ros/sdk/src/ord_lidar_driver.cpp:282-337 | from points without a jump, one packet cuts only scans without a jump, and leaves points without one, if and only if it overflows or does not jump both at its start and inside |
| ScanCutter.RunSmoothExactly | oradar_ros/sdk/src/ord_lidar_driver.cpp:282-337 | in a run, whatever overflows occur, pending points and scans never have an internal jump, if and only if no packet that fits jumps both at its start and inside |
| ScanCutter.PendingJumpsExactly | oradar_ros/sdk/src/ord_lidar_driver.cpp:282-337 | the pending points have an internal jump if and only if a packet that fits jumped both at its start and inside and nothing was cut or discarded since |
| ScanCutter.ScansSmoothExactly | oradar_ros/sdk/src/ord_lidar_driver.cpp:282-337 | no scan cut in a run has an internal jump, if and only if no such packet is followed by a cut before anything else is cut or discarded |
| ScanCutter.CutAtJump | oradar_ros/sdk/src/ord_lidar_driver.cpp:298-320 | a cut separates two points that jump; an empty scan is cut at a jump from the remembered angle with nothing pending |
| ScanCutter.EmptyScansFromInit | oradar_ros/sdk/src/ord_lidar_driver.cpp:296-337 | from power-up the event before the cut of an empty scan is an overflow |
| ScanCutter.EmptyCutExactly | oradar_ros/sdk/src/ord_lidar_driver.cpp:296-320 | a packet cuts an empty scan if and only if nothing is pending and it begins more than a degree behind the remembered angle |
| ScanCutter.PendingEmptyExactly | oradar_ros/sdk/src/ord_lidar_driver.cpp:282-337 | from power-up nothing is pending if and only if there was no packet yet or the last one overflowed |
| ScanCutter.EmptyCutOfPacket | oradar_ros/sdk/src/ord_lidar_driver.cpp:282-337 | from power-up packet n cuts an empty scan if and only if packet n - 1 overflowed and packet n begins more than a degree behind the last point that had fitted |
| ScanCutter.EmptyScansExactly | oradar_ros/sdk/src/ord_lidar_driver.cpp:282-337 | a run from power-up cuts an empty scan if and only if it has such a packet |
| ScanDivision.DivideMeaning | oradar_ros/sdk/src/ord_lidar_driver.cpp:296-323 | the reference division: pieces without jumps, a jump between each two, together all points in order |
| ScanDivision.IngestDivides | oradar_ros/sdk/src/ord_lidar_driver.cpp:296-337 | one calm packet advances the cutter as feeding its points one by one advances the reference |
| ScanDivision.OverflowLosesPoints | oradar_ros/sdk/src/ord_lidar_driver.cpp:282-337 | scans and pending points hold as many points as came in, and fewer exactly when an overflow occurred |
| ScanDivision.DividesExactly | oradar_ros/sdk/src/ord_lidar_driver.cpp:282-337 | scans and pending points are the division of all decoded points, if and only if no packet overflowed or hid a jump |
| Delivery.GrabsDoNotInterfere | oradar_ros/sdk/src/ord_lidar_driver.cpp:714-772 | interleaved grabs change neither the packets accepted nor the scans cut |
| Delivery.GrabMeaning | oradar_ros/sdk/src/ord_lidar_driver.cpp:714-772 | a timed-out wait hands out nothing and leaves the flag; a signalled one and the plain grab hand out a ready scan and clear it, the plain one only if it has points |
| Delivery.EndToEnd | oradar_ros/sdk/src/ord_lidar_driver.cpp:205-364 | in every run, points cut, discarded, pending and still encoded in the buffer are the points of the packets in all bytes received |
| Delivery.ScansOfRun | oradar_ros/sdk/src/ord_lidar_driver.cpp:282-337 | for every interleaved run: at most one internal jump per scan, exactly when a scan has one, and the exact cause of empty scans |
| Delivery.RunDivides | oradar_ros/sdk/src/ord_lidar_driver.cpp:205-364 | the exact division statement, for every interleaved run from power-up |
| Handover.CutIsOffered | oradar_ros/sdk/src/ord_lidar_driver.cpp:301-314 | after a cut the plain grab offers the scan exactly when it has points and begins at ten degrees or less |
| Handover.DeliveriesAreGood | oradar_ros/sdk/src/ord_lidar_driver.cpp:714-772 | every scan handed out is the newest cut, was not handed out before, begins at ten degrees or less, and is empty only from the blocking grab |
| Handover.DeliveredInOrder | oradar_ros/sdk/src/ord_lidar_driver.cpp:714-772 | scans handed out are an in-order subsequence of scans cut |
| Handover.NextGrabExactly | oradar_ros/sdk/src/ord_lidar_driver.cpp:714-772 | after every run the blocking grab hands out the newest scan if and only if the first slot holds ten degrees or less; the plain grab asks for points as well |
| Handover.EmptyOfferedExactly | oradar_ros/sdk/src/ord_lidar_driver.cpp:301-314 | after a cut the blocking grab would hand out an empty scan if and only if nothing was pending, the packet began more than a degree behind the remembered angle, and the first slot held ten degrees or less |
| Handover.EmptyOfferedOfPacket | oradar_ros/sdk/src/ord_lidar_driver.cpp:282-337 | the same for packet n of a run from power-up, in terms of the packets before it |
| Handover.EmptyScanHandedOut | oradar_ros/sdk/src/ord_lidar_driver.cpp:301-336 | packet lists after which the blocking grab hands out an empty scan and the plain grab refuses it |
| Handover.EmptyScanReceived | oradar_ros/sdk/src/ord_lidar_driver.cpp:205-364 | well-formed packets, read one by one from power-up, after which the blocking grab hands out an empty scan |
| Handover.EmptyScanExample | oradar_ros/sdk/src/ord_lidar_driver.cpp:205-364 | there is such a run: packets that stand still at 90 degrees, then one from 10 degrees on |
| Handover.JumpingScanReceived | oradar_ros/sdk/src/ord_lidar_driver.cpp:205-364 | well-formed packets, read one by one from power-up, after which the plain grab hands out a scan with an internal jump |
| Handover.JumpingScanExample | oradar_ros/sdk/src/ord_lidar_driver.cpp:205-364 | there is such a run: packets at 10 degrees, from 5 once around to 4 degrees, and at 1 degree |
| Handover.PacketKeptBack | oradar_ros/sdk/src/ord_lidar_driver.cpp:232-351 | of any two packets behind 45 zero bytes, all in one read, only the first is handed over |
| OrdlidarDriver.OrdlidarDriver.constructor | oradar_ros/sdk/src/ord_lidar_driver.cpp:37-52 | buffer empty, flags clear, both arrays zeroed |
| OrdlidarDriver.OrdlidarDriver.FindHeader | oradar_ros/sdk/src/ord_lidar_driver.cpp:235-251 | position and flags after the search |
| OrdlidarDriver.OrdlidarDriver.ChecksumMatches | oradar_ros/sdk/src/ord_lidar_driver.cpp:267-274 | true exactly when the packet at the front ends in its checksum |
| OrdlidarDriver.OrdlidarDriver.MoveToFront | oradar_ros/sdk/src/ord_lidar_driver.cpp:317 | the front of the array holds what the tail of the packet held, even when they overlap |
| OrdlidarDriver.OrdlidarDriver.CutOff | oradar_ros/sdk/src/ord_lidar_driver.cpp:301-320 | the whole state after a cut |
| OrdlidarDriver.OrdlidarDriver.StoreFrame | oradar_ros/sdk/src/ord_lidar_driver.cpp:282-337 | the arrays and fields change as the cutter's specification says |
| OrdlidarDriver.OrdlidarDriver.Round | oradar_ros/sdk/src/ord_lidar_driver.cpp:234-361 | one round of the loop; the buffer shrinks by at least two bytes unless the round is the last |
| OrdlidarDriver.OrdlidarDriver.ParseLoop | oradar_ros/sdk/src/ord_lidar_driver.cpp:232-362 | the loop ends, in the specified parser and cutter state |
| OrdlidarDriver.OrdlidarDriver.UartDataHandle | oradar_ros/sdk/src/ord_lidar_driver.cpp:205-364 | one call takes parser and cutter to their specified states and returns the specified answer |
| OrdlidarDriver.OrdlidarDriver.RxThreadProc | oradar_ros/sdk/src/ord_lidar_driver.cpp:366-401 | after any sequence of reads and timeouts parser and cutter are in the states of the whole run, to which the run theorems apply, and valid_data_ tells how the last wait ended |
| OrdlidarDriver.ReadsInExactly | oradar_ros/sdk/src/ord_lidar_driver.cpp:372-400 | timeouts and reads without bytes do not reach the parser, all other reads do, in order |
| OrdlidarDriver.OrdlidarDriver.GrabFullScan | oradar_ros/sdk/src/ord_lidar_driver.cpp:759-772 | what is handed out, and only the ready flag changes |
| OrdlidarDriver.OrdlidarDriver.GrabFullScanBlocking | oradar_ros/sdk/src/ord_lidar_driver.cpp:714-734 | what is handed out after a wait that was signalled or timed out |
| Angles.PositiveIsTurn | oradar_ros/sdk/core/math/angles.h:71-73 | the doubled `fmod` is the position on the circle, for negative angles too |
| Angles.NormalizeAnglePositiveFromDegree | oradar_ros/sdk/core/math/angles.h:81-93 | the two loops end with the closed modular form |
| Angles.ShortestTurn | oradar_ros/sdk/core/math/angles.h:102-127 | the distance is in (-half turn, half turn], leads to the goal, and no other angle that does is smaller |
| Angles.ComplementIsOtherWay | oradar_ros/sdk/core/math/angles.h:138-151 | for every angle the complement ends in the same position; an angle of at most a turn changes by one turn against its sign, and zero becomes a full turn |
| Angles.FindMinMaxDelta | oradar_ros/sdk/core/math/angles.h:164-219 | when the start is accepted, and the exact travel window, for every start and every pair of limits; near a limit it ends exactly at both limits |
| Angles.AnswerMeaning | oradar_ros/sdk/core/math/angles.h:225-237 | the answer is the documented one if and only if start, goal and limits are not misjudged |
| Angles.AcceptedFromOutside | oradar_ros/sdk/core/math/angles.h:164-296 | a start just behind the left limit, outside the limits, is accepted |
| Angles.RefusedWithoutLimits | oradar_ros/sdk/core/math/angles.h:164-296 | with the unlimited pair, a start just below half a turn is refused the goal zero |
| Angles.ShortestAngularDistanceWithLimits | oradar_ros/sdk/core/math/angles.h:239-296 | for every start, goal and pair of limits: when the answer is true, when it is the documented one, that the way leads to the goal, and its sign and length for either answer: a refused way leads over the limit that is nearer to the end outside |
| Angles.DocumentedExamples | oradar_ros/sdk/core/math/angles.h:225-231 | the shape of the two examples in the comment: the long way inside wide limits, and a refusal with the short way for narrow ones |
| Angles.WayStaysInside | oradar_ros/sdk/core/math/angles.h:225-237 | every position on the way returned is inside the limits, and every other way to the goal leaves the window |
| LaserScan.PutReading | oradar_ros/src/oradar_scan_node.cpp:78-101 | one reading written into the two arrays |
| LaserScan.PublishMsg | oradar_ros/src/oradar_scan_node.cpp:24-105 | the loop leaves the cells that binning the points one after another gives |
| LaserScan.ReadingMeaning | oradar_ros/src/oradar_scan_node.cpp:52-74 | a point inside both limits reads its distance and intensity, any other reads zero, in both directions |
| LaserScan.CellMeaning | oradar_ros/src/oradar_scan_node.cpp:36-78 | in angles: the cell q of a point is the one with q * (last - first) <= (angle - first) * n < (q + 1) * (last - first), mirrored for descending scans, and cell 0 just behind the first point |
| LaserScan.PublishableExactly | oradar_ros/src/oradar_scan_node.cpp:36-78 | which scans have a defined message: every quotient of angle and increment lies strictly between -1 and 2^32 |
| LaserScan.FourPointMessage | oradar_ros/src/oradar_scan_node.cpp:24-105 | the ranges and intensities of the message for four given points |
| LaserScan.IndexMonotone | oradar_ros/src/oradar_scan_node.cpp:76-77 | in a sorted clockwise scan cell numbers never decrease |
| LaserScan.EndsOfScan | oradar_ros/src/oradar_scan_node.cpp:36-78 | clockwise, the first point opens cell zero and the last one never fits |
| LaserScan.CellsOfAnyScan | oradar_ros/src/oradar_scan_node.cpp:50-102 | for angles in any order and both directions: a cell is NaN if and only if no point started it, and otherwise shows the least range and the latest intensity of the point that last started it and of all points that fell into it since |
| LaserScan.MessageOfSortedScan | oradar_ros/src/oradar_scan_node.cpp:50-102 | clockwise with nondecreasing angles: hit cells show the least range and the last intensity, bridged cells the first point beyond, all others NaN |
| FullScanFilter.SmoothFilter | oradar_ros/sdk/src/filters/FullScanFilter.cpp:80-128 | every distance becomes the floor mean of the near nonzero readings of its window; nothing else changes |
| FullScanFilter.SmoothedExactly | oradar_ros/sdk/src/filters/FullScanFilter.cpp:80-128 | in numbers: a point in range with two neighbours on each side gets the floor mean of those of the five readings that are nonzero and at most 39 away, and keeps its distance without any and in every other case |
| FullScanFilter.SmoothingExample | oradar_ros/sdk/src/filters/FullScanFilter.cpp:80-128 | five given readings and their mean |
| FullScanFilter.SmoothingIsGentle | oradar_ros/sdk/src/filters/FullScanFilter.cpp:80-128 | no distance moves by 40 or more; margins and points out of range keep theirs |
| FullScanFilter.Pad | oradar_ros/sdk/src/filters/FullScanFilter.cpp:152-167 | the padded distances as the two loops leave them |
| FullScanFilter.TailIsNotPadded | oradar_ros/sdk/src/filters/FullScanFilter.cpp:153-167 | the window of the last point ends in two zeros, that of the first begins with the tail of the scan |
| FullScanFilter.BilateralFilter | oradar_ros/sdk/src/filters/FullScanFilter.cpp:130-204 | every distance becomes the truncated weighted mean of its window; nothing else changes |
| FullScanFilter.FilteredExactly | oradar_ros/sdk/src/filters/FullScanFilter.cpp:177-199 | in numbers, for 16-bit readings: a point in range gets the floor of the quotient of the two five-term sums, in which a reading above the centre is weighed at the difference plus 65536 |
| FullScanFilter.FilterExample | oradar_ros/sdk/src/filters/FullScanFilter.cpp:177-199 | three given readings and a filtered distance |
| FullScanFilter.MeanInHull | oradar_ros/sdk/src/filters/FullScanFilter.cpp:183-199 | for any nonnegative weights that are not all zero the mean lies between the least and greatest nonzero reading, before and after truncation |
| FullScanFilter.WhenWeighted | oradar_ros/sdk/src/filters/FullScanFilter.cpp:177-198 | the weights do not all vanish if the centre is a reading whose own weight is positive, and for positive weights exactly if the window has a reading |
| FullScanFilter.FilteredInHull | oradar_ros/sdk/src/filters/FullScanFilter.cpp:177-203 | the same for a point in range; a point out of range keeps its distance |
| Imu.Reader.constructor | wit_ros_imu/scripts/wit_normal_ros.py:104-110 | nothing held, all readings zero |
| Imu.Reader.HandleSerialData | wit_ros_imu/scripts/wit_normal_ros.py:24-101 | bytes held, readings and publication after one byte |
| Imu.Reader.Dispatch | wit_ros_imu/scripts/wit_normal_ros.py:41-64 | only an intact packet of a known kind changes a reading, and only an angle packet publishes |
| Imu.Reader.HandleAll | wit_ros_imu/scripts/wit_normal_ros.py:145-148 | the same for all bytes that have arrived |
| Imu.BuildReadBack | wit_ros_imu/scripts/wit_normal_ros.py:15-20 | a packet built from three signed 16-bit values, low byte first, reads back these values, and is intact if and only if its last byte is the sum of the other ten modulo 256 |
| Imu.EveryPacketIsBuilt | wit_ros_imu/scripts/wit_normal_ros.py:15-20 | every eleven bytes that begin with the sync byte are such a packet |
| Imu.PacketReceived | wit_ros_imu/scripts/wit_normal_ros.py:24-101 | received by a machine that holds no bytes, such a packet sets the reading of its kind to the values sent, and of the angle kind publishes them with the latest others; with any other last byte it changes nothing |
| Imu.AngleSixteen | wit_ros_imu/scripts/wit_normal_ros.py:51-101 | a given packet publishes raw angle 16 |
| Imu.MachineIsBatch | wit_ros_imu/scripts/wit_normal_ros.py:24-70 | fed a byte at a time, the machine completes the packets of the whole stream and holds its unfinished tail, which begins with the sync byte |
| Imu.ReadingsAreLatest | wit_ros_imu/scripts/wit_normal_ros.py:41-64 | each reading is that of the latest intact packet of its kind, or zeros |
| Imu.MessagesCarryLatest | wit_ros_imu/scripts/wit_normal_ros.py:71-101 | one message per intact angle packet, in order, with the latest of the other readings |
| Imu.StreamPublishes | wit_ros_imu/scripts/wit_normal_ros.py:24-101 | what a fresh reader publishes on any stream, in terms of the packets of the whole stream |

## Left out

- OrdlidarDriver.OrdlidarDriver.RxThreadProc: the search for start-up messages in the same bytes (`uart_data_find_init_info`) while `init_info_flag_` is set, which touches neither parser nor cutter, is not modelled; it takes one message per call with a head flag that is not always reset, and has no stream specification.
- OrdlidarDriver.OrdlidarDriver.GrabFullScanBlocking: the condition variable is reduced to a parameter that says how the wait ended.
- LaserScan.PublishMsg: scans without points, with equal first and last angle, or with a quotient of -1 or less or of 2^32 or more, for which the source divides by zero or makes an undefined conversion, are excluded by `Publishable`.
- FullScanFilter.BilateralFilter: the exponential kernel is any nonnegative function of slot and wrapped difference; the square of that difference can overflow `int`, which is undefined and could make a weight infinite, and infinite weights are not modelled; the sums are exact reals, and the result of converting zero divided by zero is a parameter.
- Float rounding, everywhere: angles, ranges and weights are exact.
- Reads longer than `readbuf`: the run theorems take reads of at most 1024 bytes; one call is modelled for any length.
- The single-packet scan (`one_scan_data_`, `GrabOneScan`), the timestamp and the speed reported by `GetRotationSpeed`: each holds a field of the latest packet and influences neither the parser nor the cutter; `PacketCodec` covers reading the speed.
- Threads, locks and data races between the receive thread and the grab functions; `Deactive`'s reset of the point counts.
- Serial, socket and lock-file code, motor commands, C API, launch files.
- `tail_filter` (reads before the first point), `intensity_filter` (an identity for nonnegative thresholds) and `BubbleSort` (its result is not used).
- The physical units of the IMU readings and the quaternion of the orientation.
