# Verified model of the robot side of the Tuya app protocol

The `arm_app` program sits between the Tuya app and a vacuum robot. This project models its
hand-written logic in Dafny and proves what that logic keeps, loses or recovers:

- **Raw data-point frames** (`Bytes`, `Coordinates`, `Records`, `Frames`, `Shapes`, `RestrictedArea`,
  `VirtualWall`, `ZoneClean`, `LocalAlert`, `RoomClean`, `ResultFrames`). Requests starting with 0xAA are
  parsed with a moving cursor over nested, count-prefixed records; reports print them back with a
  one-byte length and a modular checksum. `Records` proves once, for any record codec, that lists inherit
  "parsing inverts printing" and "printing reproduces what was parsed"; the other modules instantiate it.
- **Clean records** (`CleanRecord`): map, path, wall frame and area frame in one blob.
- **Rasters and paths** (`MapRaster`, `PathFile`): Y flip, four cells per byte, room labels, point types in
  coordinate low bits.
- **Version comparison** (`Version`).
- **H.264 splitter and its endless driver loop** (`LiveVideo`); start codes as in Annex B and NAL unit types
  as in section 7.4.1 of ITU-T H.264.
- **Timed tasks and do-not-disturb** (`NotDisturb`, `TimedTask`): a ticking thread interleaved with setters, on a
  system clock that the program itself sets.
- **Album sessions** (`Album`): any number of SDK callbacks and a sender thread over shared slots, one write or one
  look at a shared field per step.

Code that works step by step is a method, with loops over cursors and buffers and, where the source changes
an object in place, a class; each is proved equal to a function, and the theorems are about those functions.
Message structs come from generated headers that are not part of this model; their fields are taken from how
the code uses them, counts read from a request byte keep their value 0..255, and coordinates are reals.
Reading outside a request buffer or vector is undefined in C++; the model makes it an explicit outcome
(`Overrun`, `Undefined`) instead of excluding it.

Where the code does not do what one would expect, the exact condition is proved:

- A name survives the area and zone frames, with one NUL added, if and only if it has at most 19 bytes. What a
  handler answers is the name with that NUL: it survives the next trip in every frame if and only if the request's
  name had at most 18 bytes. A longer name makes the next parser take what follows the field for part of the name;
  an actual answer parses back if and only if that happens to continue each such name.
- An area frame of version 0 parses back if and only if it holds at most 14 areas, of versions 1 and 2 at most 255.
- A timer frame parses back if and only if its `number` is the true size and fits a byte; a number beyond the
  timers printed makes the parser read past the end.
- More than ten virtual walls are answered as none; room-cleaning repeat counts above two become one.
- A zone request without zones makes the reporting code index an empty vector.
- The video loop sends the declarative split of the file cyclically if and only if there is a boundary, none
  occupies just the last five bytes, and the file opens with one or has two; every other file ends up repeating
  one frame forever. Frames stay inside the file's buffer unless its only boundary is not at its start.
- The do-not-disturb test is the intended closed interval for windows past midnight, across several hours,
  or one whole hour, and for no other window.
- Two start orders are more than a minute apart if the millisecond clock was not set back between them. The elapsed
  time is an unsigned difference, so a reading below the stamp releases the throttle at once: after a set-back two
  orders can come at any readings.
- A one-shot task that falls due while the throttle holds is disabled without ever being started.
- A download request for exactly the three files and no stream is dropped.
- A finish notification goes to its own session if and only if the session id of the slot had been written (slot 0
  aside), so a query that returned is enough; a concrete interleaving shows the other case.
- A clean record splits back into its parts if and only if a wall frame was obtained or no area frame was.

## Model

| member | source | states |
|---|---|---|
| Bytes.NetworkOrder16 | arm_app/apps/src/tuya_utils.cpp:337-354 | the big-endian helpers are inverse on all bytes, and on an int recover its int16 value |
| Bytes.NetworkOrder32 | arm_app/apps/src/tuya_utils.cpp:362-381 | the 32-bit helpers are inverse on all bytes, and on an int, negative ones included, recover its int32 value |
| Bytes.BigEndian16 | arm_app/apps/src/tuya_utils.cpp:337-354 | the most significant byte comes first, congruent to the int modulo 2^16 |
| Bytes.BigEndian32 | arm_app/apps/src/tuya_utils.cpp:362-381 | the same modulo 2^32, the result of reading being signed |
| Coordinates.WireIdentity | arm_app/apps/src/tuya_utils.cpp:20-32 | wire value to robot coordinate and back is the identity, for every resolution |
| Coordinates.SnapErrorBound | arm_app/apps/src/tuya_utils.cpp:20-32 | a coordinate moves by at most resolution/20 through the wire exactly when its scaled value fits int16 |
| Coordinates.SnapIdempotent | arm_app/apps/src/tuya_utils.cpp:20-32 | sending a coordinate that came off the wire emits the same word again |
| Coordinates.RoundIff | arm_app/apps/src/tuya_utils.cpp:25-32 | rounding is to the nearest integer, of two the one further from zero |
| Coordinates.TenToACell | arm_app/apps/src/tuya_utils.cpp:20-32 | n map cells are 10 n on the wire, in both directions |
| Records.DecodeEncoded | arm_app/apps/src/tuya_dp_function.cpp:2104-2120 | any count-prefixed list parses back from its printed form, wherever it lies in the buffer, given that for its records |
| Records.EncodeDecoded | arm_app/apps/src/tuya_dp_function.cpp:2104-2120 | whatever a list parser consumes is byte for byte what printing its result gives, given that for its records |
| Records.EncodedAt | arm_app/apps/src/tuya_dp_function.cpp:1293-1302 | a printed list holds its records in order, each right after those before it |
| Records.DecodeEncodedBefore | arm_app/apps/src/tuya_dp_function.cpp:2162-2171 | a list whose records read beyond their own bytes parses as what follows each record makes it, overruns included |
| Records.ReceivedIff | arm_app/apps/src/tuya_dp_function.cpp:2162-2171 | such a list comes back as wanted if and only if each of its records does |
| Frames.SealFrame | arm_app/apps/src/tuya_dp_function.cpp:1255-1261 | the patching and summing loop produces the sealed frame |
| Frames.SealIsTheLaw | arm_app/apps/src/tuya_dp_function.cpp:1304-1310 | length byte and checksum congruences hold, nothing else changes, and no other frame does both |
| Frames.LengthExact | arm_app/apps/src/tuya_dp_function.cpp:1304 | the length byte is the true length exactly up to 255 counted bytes |
| Frames.DetectsOneByte | arm_app/apps/src/tuya_dp_function.cpp:1305-1310 | changing any single counted byte or the checksum breaks the law |
| Frames.TotalIsSum | arm_app/apps/src/tuya_dp_function.cpp:1305-1310 | the total is the plain sum of the bytes |
| Shapes.PolygonInverts | arm_app/apps/src/tuya_dp_function.cpp:1293-1302 | a printed polygon parses back with its count and every vertex snapped to the wire grid |
| Shapes.PolygonReproduces | arm_app/apps/src/tuya_dp_function.cpp:2110-2118 | a parsed polygon prints as the very bytes it was read from |
| Shapes.AppendPolygon | arm_app/apps/src/tuya_dp_function.cpp:1293-1302 | the printing loop appends exactly the polygon's encoding |
| Shapes.ReadPolygon | arm_app/apps/src/tuya_dp_function.cpp:2151-2160 | the cursor loop computes the polygon parser, overruns included |
| Shapes.VertexLayout | arm_app/apps/src/tuya_dp_function.cpp:1295-1301 | x word first, then y |
| Shapes.PolygonLayout | arm_app/apps/src/tuya_dp_function.cpp:1293-1302 | count byte, then vertex j at byte 1 + 4 j |
| Shapes.PolygonArrives | arm_app/apps/src/tuya_dp_function.cpp:2110-2118 | the printed polygon arrives with its count, each coordinate within resolution/20 exactly if it fits 16 bits |
| Shapes.NameInverts | arm_app/apps/src/tuya_dp_function.cpp:2162-2170 | a name of at most 19 bytes comes back followed by one NUL |
| Shapes.NameLayout | arm_app/apps/src/tuya_dp_function.cpp:1333-1338 | length byte, then 19 bytes cut off or padded with NULs |
| Shapes.NameSurvivesIff | arm_app/apps/src/tuya_dp_function.cpp:1333-1338 | it does so in every surrounding frame if and only if it has at most 19 bytes |
| Shapes.TextSurvivesIff | arm_app/apps/src/tuya_dp_function.cpp:1333-1338 | what a C string reader sees of a name, of any length, survives in every frame exactly up to the stated limit |
| Shapes.SecondTripIff | arm_app/apps/src/tuya_dp_function.cpp:2162-2175 | what was parsed survives printing and parsing again in every surrounding frame if and only if the request's name had at most 18 bytes |
| Shapes.NineteenSwallowsNext | arm_app/apps/src/tuya_dp_function.cpp:2162-2171 | with 19 bytes the second parser reads the byte after the field into the name |
| Shapes.NineteenSeen | arm_app/apps/src/tuya_dp_function.cpp:2162-2171 | a C string reader sees that unless the byte is zero |
| Shapes.AppendName | arm_app/apps/src/tuya_dp_function.cpp:1333-1338 | the 19-byte field is printed and the padded name handed back |
| Shapes.ReadName | arm_app/apps/src/tuya_dp_function.cpp:2162-2170 | the copying loop computes the name parser, which trusts the length byte |
| RestrictedArea.AreaInverts | arm_app/apps/src/tuya_dp_function.cpp:2144-2171 | one area record of any layout parses back from its printed form |
| RestrictedArea.AreaLayout | arm_app/apps/src/tuya_dp_function.cpp:1314-1386 | mode, in version 2 the type, polygon, and from version 1 on the name |
| RestrictedArea.AreaArrives | arm_app/apps/src/tuya_dp_function.cpp:2144-2171 | mode, type, polygon and name of what arrives, in terms of what was sent |
| RestrictedArea.ParseInvertsEncodePlainIff | arm_app/apps/src/tuya_dp_function.cpp:1286-1313 | version 0: count, modes and all vertices are recovered and the cursor ends on the checksum, if and only if there are at most 14 areas |
| RestrictedArea.ParseInvertsEncodeNamedIff | arm_app/apps/src/tuya_dp_function.cpp:1314-1386 | versions 1 and 2: version, count, modes, types (2), vertices and names are recovered and the cursor ends on the checksum, if and only if the count fits its byte |
| RestrictedArea.AnswerParsesBackIff | arm_app/apps/src/tuya_dp_function.cpp:2129-2178 | the answer to a 0x38 request parses back to the request's areas, NULs added, if and only if the version is 1 or 2 and each name had at most 18 bytes or is continued by what follows its field in the answer |
| RestrictedArea.EncodeInvertsParse | arm_app/apps/src/tuya_dp_function.cpp:2095-2127 | the answer to every accepted 0x1A request carries the request's own bytes |
| RestrictedArea.FrameLawIff | arm_app/apps/src/tuya_dp_function.cpp:1277-1388 | the frame obeys the law exactly for versions 0, 1, 2 (or command 0); other versions give a bare header |
| RestrictedArea.PlainLengthExact | arm_app/apps/src/tuya_dp_function.cpp:2101 | with at most 14 quadrilaterals the length byte is exact and at most 254 |
| RestrictedArea.PlainLengthIff | arm_app/apps/src/tuya_dp_function.cpp:2101 | of quadrilaterals the length byte is exact if and only if there are at most 14 |
| RestrictedArea.PlainAnswerIff | arm_app/apps/src/tuya_dp_function.cpp:2095-2128 | when a 0x1A request is answered, dropped, or read beyond its end |
| RestrictedArea.NamedAnswerIff | arm_app/apps/src/tuya_dp_function.cpp:2129-2178 | the same for 0x38, with command and version of the answer |
| RestrictedArea.AppRestrictedArea.ToData | arm_app/apps/src/tuya_dp_function.cpp:1277-1388 | prints the frame of the message as it was and pads the first names in place, nothing else |
| RestrictedArea.AppRestrictedArea.Push | arm_app/apps/src/tuya_dp_function.cpp:2146-2170 | pushing onto the parallel vectors appends one record |
| RestrictedArea.ReadAreas | arm_app/apps/src/tuya_dp_function.cpp:2103-2120 | the parsing loop fills the message with exactly the parsed records |
| RestrictedArea.HandlePlain | arm_app/apps/src/tuya_dp_function.cpp:2095-2128 | case 0x1A answers what its parse deserves: nothing above 14 areas or when not delivered |
| RestrictedArea.HandleNamed | arm_app/apps/src/tuya_dp_function.cpp:2129-2178 | case 0x38 answers with the frame of the parsed message in the request's version |
| VirtualWall.LengthAlwaysExact | arm_app/apps/src/tuya_dp_function.cpp:1225-1269 | for every message the wall frame is its length byte plus four bytes long, length at most 82 |
| VirtualWall.ParseInvertsEncodeIff | arm_app/apps/src/tuya_dp_function.cpp:1232-1263 | the walls parse back from the frame if and only if there are at most ten |
| VirtualWall.EncodeInvertsParseIff | arm_app/apps/src/tuya_dp_function.cpp:1909-1935 | the answer repeats the request's bytes if and only if it names at most ten walls |
| VirtualWall.TooManyWalls | arm_app/apps/src/tuya_dp_function.cpp:1235-1239 | any count above ten gives the frame of no walls; other versions a bare header |
| VirtualWall.WallLayout | arm_app/apps/src/tuya_dp_function.cpp:1240-1254 | count, then begin and end of wall j at bytes 5 + 8 j and 9 + 8 j |
| VirtualWall.AppVirtualWall.ToData | arm_app/apps/src/tuya_dp_function.cpp:1225-1269 | prints the clamped frame and resets a count above ten in the message |
| VirtualWall.Handle | arm_app/apps/src/tuya_dp_function.cpp:1909-1935 | case 0x12 parses, and answers with the wall frame when delivered |
| ZoneClean.ParseInvertsEncodeIff | arm_app/apps/src/tuya_dp_function.cpp:1439-1491 | v1.1.0 and v1.2.0: repeat count, all polygons and names are recovered and the cursor ends on the checksum, if and only if the count fits its byte |
| ZoneClean.AnswerParsesBackIff | arm_app/apps/src/tuya_dp_function.cpp:2368-2403 | the answer to a v1.2.0 request parses back to the request's zones under the same condition on its names |
| ZoneClean.EncodeInvertsParse | arm_app/apps/src/tuya_dp_function.cpp:2307-2367 | the answer to a v1.1.0 request repeats the request's own bytes |
| ZoneClean.AppZoneClean.ToData | arm_app/apps/src/tuya_dp_function.cpp:1439-1491 | prints the frame of the message as it was and pads the names in place |
| ZoneClean.AppZoneClean.Pad | arm_app/apps/src/tuya_dp_function.cpp:2336-2355 | only empty vectors are resized |
| ZoneClean.ReadZones | arm_app/apps/src/tuya_dp_function.cpp:2316-2334 | the parsing loop fills the message with exactly the parsed zones |
| ZoneClean.ParsePlain | arm_app/apps/src/tuya_dp_function.cpp:2307-2355 | the parsed and padded message meets the encoder's demands if and only if it has a zone |
| ZoneClean.HandlePlain | arm_app/apps/src/tuya_dp_function.cpp:2307-2367 | case 0x28: answered frame, or undefined for a delivered request without zones |
| ZoneClean.HandleNamed | arm_app/apps/src/tuya_dp_function.cpp:2368-2403 | case 0x3A with version byte 1 answers with the frame of the parsed message |
| LocalAlert.ParseInvertsEncodeIff | arm_app/apps/src/tuya_dp_function.cpp:1573-1601 | all timers with their announced rooms and every other field are recovered, cursor on the checksum, if and only if `number` is the true size and fits its byte; otherwise the first `number` modulo 256, or an overrun if there are fewer |
| LocalAlert.EncodeInvertsParse | arm_app/apps/src/tuya_dp_function.cpp:2505-2548 | the answer repeats the request's own bytes although empty room lists were padded |
| LocalAlert.TaskLayout | arm_app/apps/src/tuya_dp_function.cpp:1583-1599 | a printed timer, byte for byte |
| LocalAlert.ParsedTask | arm_app/apps/src/tuya_dp_function.cpp:2514-2541 | whatever timer is read: its fields, the announced rooms, and one zero for a list without rooms |
| LocalAlert.Report | arm_app/apps/src/tuya_dp_function.cpp:1573-1640 | the printing loops produce the frame of all timers in the vector |
| LocalAlert.ReadTasks | arm_app/apps/src/tuya_dp_function.cpp:2514-2541 | the parsing loop computes the timer list parser |
| LocalAlert.Handle | arm_app/apps/src/tuya_dp_function.cpp:2505-2548 | case 0x30 answers with the frame of the parsed timers |
| RoomClean.ParseInvertsEncodeIff | arm_app/apps/src/tuya_dp_function.cpp:1684-1703 | the message parses back exactly when its repeat count is at most two and its count is true |
| RoomClean.EncodeInvertsParseIff | arm_app/apps/src/tuya_dp_function.cpp:1981-2002 | the answer repeats the request exactly when the requested repeat count is at most two |
| RoomClean.ParsedRooms | arm_app/apps/src/tuya_dp_function.cpp:1985-1996 | repeat count, one if above two, and the announced room ids |
| RoomClean.RoomLayout | arm_app/apps/src/tuya_dp_function.cpp:1684-1703 | where a report carries them |
| RoomClean.Handle | arm_app/apps/src/tuya_dp_function.cpp:1981-2004 | case 0x14 parses with the clamp and answers |
| ResultFrames.VoiceReadsBack | arm_app/apps/src/tuya_dp_function.cpp:705-737 | the 0xAB law holds with exact length, and every field reads back, for every protocol version |
| ResultFrames.ReportVoice | arm_app/apps/src/tuya_dp_function.cpp:705-737 | the branching report code produces the frame of that law |
| ResultFrames.MapSaveLaw | arm_app/apps/src/tuya_dp_function.cpp:2704-2724 | the 0xAB law holds for the map save report |
| CleanRecord.SplitsBackIff | arm_app/apps/src/tuya_robot.cpp:746-783 | for all files and replies the blob splits back into its four parts if and only if a wall frame was obtained or no area frame was; the wall frame has at most 86 bytes |
| CleanRecord.StoredCommands | arm_app/apps/src/tuya_robot.cpp:753-772 | the commands under which the two frames are stored: 0x13 or 0x49, 0x1B or 0x39 |
| CleanRecord.QueriesUsed | arm_app/apps/src/tuya_robot.cpp:753-772 | a reply is used if there is one and its version is not negative |
| CleanRecord.SplitUnique | arm_app/apps/src/tuya_robot.cpp:778-783 | records with a wall frame determine their parts |
| CleanRecord.Assemble | arm_app/apps/src/tuya_robot.cpp:725-783 | the record is the join of the files and the frames of the two replies, its three lengths adding up to the size of the blob; an unreadable file aborts it |
| MapRaster.RoomLabelIff | arm_app/apps/src/tuya_utils.cpp:245-265 | room cells and only they get a multiple of four, four times the room number, from which the cell is recovered; obstacles get 1 and all others 3 |
| MapRaster.ClassIff | arm_app/apps/src/tuya_utils.cpp:224-243 | obstacle from 60 on, free floor from 0 to 44, all others unknown |
| MapRaster.QuadValue | arm_app/apps/src/tuya_utils.cpp:302-317 | four codes in a byte, the first in the highest bits |
| MapRaster.FlipInvolution | arm_app/apps/src/tuya_utils.cpp:434-441 | the cell permutation of the Y flip is its own inverse |
| MapRaster.FlippedTwice | arm_app/apps/src/tuya_utils.cpp:434-441 | flipping a grid twice restores it |
| MapRaster.FlipY | arm_app/apps/src/tuya_utils.cpp:432-441 | the double loop writes each grid cell to its flipped position and leaves surplus cells zero |
| MapRaster.Combine4Pixel | arm_app/apps/src/tuya_utils.cpp:302-317 | the byte holds the four codes, most significant first, short groups padded with 3 |
| MapRaster.UnpackInvertsPack | arm_app/apps/src/tuya_utils.cpp:446-450 | unpacking returns every code followed by fewer than four 3s |
| MapRaster.PackMap | arm_app/apps/src/tuya_utils.cpp:434-450 | version 0 pixels are the packed codes of the flipped grid |
| MapRaster.LabelMap | arm_app/apps/src/tuya_utils.cpp:466-481 | version 1 pixels are the labels of the flipped grid |
| MapRaster.MapIsLossless | arm_app/apps/src/tuya_utils.cpp:418-450 | every cell's class, stated on its value, is read back at its flipped position, the rest is padding, and the size is pix_len |
| MapRaster.CellIsShown | arm_app/apps/src/tuya_utils.cpp:434-450 | the cell of row y and column x is shown in row h - 1 - y, column x |
| MapRaster.RoomsSurvive | arm_app/apps/src/tuya_utils.cpp:466-481 | every room cell is recovered exactly and no other cell can be taken for one |
| PathFile.MarkWithinOneIff | arm_app/apps/src/tuya_utils.cpp:669-672 | a decoded coordinate is the scaled one or one less exactly when that fits int16 |
| PathFile.LowBits | arm_app/apps/src/tuya_utils.cpp:671-693 | the two lowest bits for every point type, all other bits being those of the coordinates |
| PathFile.ReadInvertsWrite | arm_app/apps/src/tuya_utils.cpp:722-741 | a saved file reads back completely: fixed header bytes, path id, direction, classes and coordinates, in 13 + 4n bytes |
| PathFile.MarkLayout | arm_app/apps/src/tuya_utils.cpp:722-741 | mark i lies at byte 13 + 4 i of the file |
| PathFile.PathKeepsTypeAndPosition | arm_app/apps/src/tuya_utils.cpp:654-706 | every point's class and position are recovered from the saved file |
| PathFile.MarkPoints | arm_app/apps/src/tuya_utils.cpp:665-693 | the in-place word loop leaves each point's two marked words |
| PathFile.WritePath | arm_app/apps/src/tuya_utils.cpp:654-741 | header fields and words, written one by one in network order, make the file of the marked points |
| Version.FirstDifferenceDecides | arm_app/apps/src/tuya_utils.cpp:147-150 | the first difference of the zero-padded segment lists decides the result |
| Version.ZeroIffSamePadded | arm_app/apps/src/tuya_utils.cpp:133-152 | the result is zero exactly when the zero-padded lists agree everywhere |
| Version.Antisymmetric | arm_app/apps/src/tuya_utils.cpp:129-153 | swapping the arguments negates the result |
| Version.Transitive | arm_app/apps/src/tuya_utils.cpp:129-153 | the order is transitive, strictly so if one step is strict |
| Version.TrailingZerosIgnored | arm_app/apps/src/tuya_utils.cpp:133-152 | appending any number of ".0" on either side never changes the result |
| Version.PrintedVersionsCompare | arm_app/apps/src/tuya_utils.cpp:129-153 | a version written in decimal, any numbers joined by dots, is read as those numbers, and two compare as their numbers do |
| Version.DigitOf | arm_app/apps/src/tuya_utils.cpp:138 | characters that are no digits count by their distance from 0 |
| Version.CompareVersion | arm_app/apps/src/tuya_utils.cpp:129-153 | the two-cursor loop terminates and computes the comparison of the segment lists |
| LiveVideo.BoundariesApart | arm_app/apps/src/tuya_ipc_media_demo.c:146-165 | two boundaries are at least five bytes apart |
| LiveVideo.BoundaryIff | arm_app/apps/src/tuya_ipc_media_demo.c:146-165 | boundaries and key frames read off the bytes: 00 00 00 01 and one of sixteen first bytes |
| LiveVideo.CutFrames | arm_app/apps/src/tuya_ipc_media_demo.c:144-181 | each frame of the split begins at a boundary, contains no other, has at least five bytes, meets the next one, and is a key frame exactly for an SPS |
| LiveVideo.CutMissesNone | arm_app/apps/src/tuya_ipc_media_demo.c:144-181 | every boundary begins a frame of the split |
| LiveVideo.CutTiles | arm_app/apps/src/tuya_ipc_media_demo.c:221-228 | the frames of a pass glue together to the file from its first boundary |
| LiveVideo.RepeatsSplitIff | arm_app/apps/src/tuya_ipc_media_demo.c:221-263 | the endless run sends the split cyclically if and only if the file is well cut |
| LiveVideo.TilesIff | arm_app/apps/src/tuya_ipc_media_demo.c:221-263 | each pass is the split and tiles the whole file if and only if the file opens with a boundary and none takes just its last five bytes |
| LiveVideo.GetsStuck | arm_app/apps/src/tuya_ipc_media_demo.c:139-182 | the run over any file that is not well cut follows the split up to the last frame but one, if there are two, and then repeats the named resting frame forever |
| LiveVideo.EveryRun | arm_app/apps/src/tuya_ipc_media_demo.c:221-263 | the n-th frame of the run over any file: cyclic if well cut, eventually constant otherwise |
| LiveVideo.ShortRuns | arm_app/apps/src/tuya_ipc_media_demo.c:133-182 | the run in full for files of up to five bytes, without a boundary, and with one |
| LiveVideo.StaysInFileIff | arm_app/apps/src/tuya_ipc_media_demo.c:221-263 | all frames ever sent lie inside the file's buffer if and only if it is not a file whose only boundary comes after its start |
| LiveVideo.Driver.ReadOneFrame | arm_app/apps/src/tuya_ipc_media_demo.c:133-182 | the scan loop sets the three out-values to the next frame, or leaves them when five bytes or fewer remain |
| LiveVideo.Driver.SendNext | arm_app/apps/src/tuya_ipc_media_demo.c:221-257 | one turn of the loop is one step of the run |
| LiveVideo.Driver.SendMany | arm_app/apps/src/tuya_ipc_media_demo.c:221-263 | the first n frames sent are those of the run; on a well-formed file the first pass is the split |
| NotDisturb.WindowTestIff | arm_app/apps/src/timed_task.cpp:254-295 | the window test agrees with the closed interval at all times of day exactly for the windows named |
| NotDisturb.CyclicWindow | arm_app/apps/src/timed_task.cpp:261-275 | past midnight with end before start the window is the cyclic closed interval |
| NotDisturb.ClockTimeOf | arm_app/apps/src/timed_task.cpp:31-34 | high byte hour, low byte minute |
| NotDisturb.WindowTestInMinutes | arm_app/apps/src/timed_task.cpp:254-295 | the test in minutes of the day, for every window |
| NotDisturb.DueIff | arm_app/apps/src/timed_task.cpp:297-343 | a task is due at its hour and minute on its weekdays, or on any day with an empty mask |
| NotDisturb.DueOnDays | arm_app/apps/src/timed_task.cpp:297-343 | for a mask made of any set of days, Monday first, a task is due on those days, or on all if there are none |
| TimedTask.StartsAMinuteApart | arm_app/apps/src/timed_task.cpp:87-122 | on every run, whatever the readings, two start orders with no set-back of the clock between them are more than 60000 ms apart |
| TimedTask.ReleasedIff | arm_app/apps/src/timed_task.cpp:118-122 | a throttle is released, and stamped anew, exactly when more than 60000 ms passed or the clock reads less than the stamp |
| TimedTask.SetBackBreaksThrottle | arm_app/apps/src/timed_task.cpp:87-122 | runs in which a task is started at any reading and, the clock set back, again at any lower one |
| TimedTask.ModesAlternate | arm_app/apps/src/timed_task.cpp:29-65 | on every run mode messages are 1, 0, 1, ... and after a check the status is "on and inside now" |
| TimedTask.StartsAreJustified | arm_app/apps/src/timed_task.cpp:70-98 | on every run a start order was for a valid, due task outside the window in force |
| TimedTask.StartIff | arm_app/apps/src/timed_task.cpp:70-98 | a task reached by the loop gets its start order as the next message if and only if it is valid, due, outside a window that is on, and the throttle is off |
| TimedTask.TaskTurn | arm_app/apps/src/timed_task.cpp:70-113 | all messages and all changes of the loop body for one task |
| TimedTask.WindowTurn | arm_app/apps/src/timed_task.cpp:28-65 | all messages and all changes of the window check |
| TimedTask.OtherSteps | arm_app/apps/src/timed_task.cpp:136-252 | what the setters and the entry of the loop change |
| TimedTask.OneShotLostIff | arm_app/apps/src/timed_task.cpp:82-112 | on every run each list sent disables a one-shot task, whose start order comes right before it if and only if the throttle was off when the task was reached; otherwise it is never started |
| TimedTask.TaskCanBeLost | arm_app/apps/src/timed_task.cpp:82-112 | of any two one-shot tasks due in the same minute, a run disables the second without starting it |
| TimedTask.RunKeeps | arm_app/apps/src/timed_task.cpp:18-124 | all invariants survive every interleaving of single steps the mutexes allow, deletions between the sends of one task included |
| TimedTask.TimedTask.CheckNotDisturb | arm_app/apps/src/timed_task.cpp:28-65 | the window part of the loop body is the window step |
| TimedTask.TimedTask.CheckOneTask | arm_app/apps/src/timed_task.cpp:70-113 | the body of the timer loop is the timer function: start, list and report messages, replies overwriting their arguments |
| TimedTask.TaskStepsCompose | arm_app/apps/src/timed_task.cpp:70-113 | the single steps for one task, uninterrupted, are that function |
| TimedTask.TimedTask.ResetThrottle | arm_app/apps/src/timed_task.cpp:117-122 | the part after the sleep is the cool-down step, its difference taken modulo 2^64 |
| TimedTask.TimedTask.AddTask | arm_app/apps/src/timed_task.cpp:136-139 | replaces the timer list and nothing else |
| TimedTask.TimedTask.DeleteTask | arm_app/apps/src/timed_task.cpp:209-212 | disables the timer list and nothing else |
| TimedTask.TimedTask.SetNotDisturbTime | arm_app/apps/src/timed_task.cpp:214-237 | replaces the window and nothing else |
| TimedTask.TimedTask.SetNotDisturbSwitch | arm_app/apps/src/timed_task.cpp:245-252 | switches a configured window only |
| Album.DroppedIff | arm_app/apps/src/tuya_ipc_sweeper_demo.c:140-157 | of all flag combinations exactly "three files, no stream" never starts |
| Album.ModeIff | arm_app/apps/src/tuya_ipc_sweeper_demo.c:140-152 | stream if any stream is asked for, else files if any of the three is not |
| Album.SentCount | arm_app/apps/src/tuya_ipc_sweeper_demo.c:300-324 | a file type is counted if and only if it was asked for as file or stream and could be sent |
| Album.ChooseMode | arm_app/apps/src/tuya_ipc_sweeper_demo.c:132-152 | the two scanning loops choose the transfer mode |
| Album.FinishesBounded | arm_app/apps/src/tuya_ipc_sweeper_demo.c:291-341 | under any interleaving, callbacks of one session overlapping included, a session gets no more finishes than accepted STARTs and CANCELs |
| Album.FinishAddressIff | arm_app/apps/src/tuya_ipc_sweeper_demo.c:87-97 | a finish goes to the session of its slot exactly when its session id had been written, or for slot 0; it does so whenever a query had returned |
| Album.FinishCanGoAstray | arm_app/apps/src/tuya_ipc_sweeper_demo.c:96-97 | a concrete interleaving sends slot 1's finish to session 0 |
| Album.PoliteFinishesArrive | arm_app/apps/src/tuya_ipc_sweeper_demo.c:79-183 | if START and CANCEL come only after a returned query, every finish reaches its session |
| Album.StepsAreLocal | arm_app/apps/src/tuya_ipc_sweeper_demo.c:67-74 | no step changes another session's slot, callbacks or history |
| Album.CallbacksCompose | arm_app/apps/src/tuya_ipc_sweeper_demo.c:87-171 | the single writes of a callback, uninterrupted, are the callback |
| Album.EntryPoints | arm_app/apps/src/tuya_ipc_sweeper_demo.c:67-171 | handles 0 to 9, and the slot after a query, start and cancel, field by field |
| Album.TurnOf | arm_app/apps/src/tuya_ipc_sweeper_demo.c:292-340 | when a finish is sent, and the slot after the turn, field by field |
| Album.SenderComposes | arm_app/apps/src/tuya_ipc_sweeper_demo.c:292-340 | the single steps of the sender on a slot, uninterrupted, are its turn on that slot, with the exact notification it sends |
| Album.Sweeper.QueryAlbum | arm_app/apps/src/tuya_ipc_sweeper_demo.c:87-120 | marks and identifies one slot; bad channels change nothing |
| Album.Sweeper.StartAlbum | arm_app/apps/src/tuya_ipc_sweeper_demo.c:121-160 | stores the request and starts the slot if a mode was found |
| Album.Sweeper.CancelAlbum | arm_app/apps/src/tuya_ipc_sweeper_demo.c:161-171 | stops one slot; bad channels change nothing |
| Album.Sweeper.ServeSlot | arm_app/apps/src/tuya_ipc_sweeper_demo.c:292-340 | counts sent files, and reports finished exactly for stopped slots and completed file transfers |

## Left out

- ZoneClean.HandleNamed: covers version byte 1 only; the parser and encoder of v1.2.1 and v1.2.2 use different layouts, so no round trip holds for them.
- ZoneClean.AppZoneClean.Pad: order, mode, suction, cistern, zone id, type and local-save vectors are not modelled, because the two versions never print them.
- TimedTask.TimedTask.CheckOneTask: the robot's replies are arbitrary arguments, and a reply that replaces the list while it is being walked continues at the next index, where the C++ iterators are invalid. The fields of a task that are only passed on are not listed.
- LiveVideo.Driver.ReadOneFrame: offsets are unbounded integers, so files of 2 GB and more, where `int pos` wraps, are not covered.
- Version.CompareVersion: numbers are unbounded; the 32-bit wrap of very long digit strings is not covered.
- PathFile.WritePath: takes the direction already scaled (`degree * 10`) as an integer.
- MapRaster.PackMap: stops before LZ4 compression; the header fields other than pix_len are not modelled.
- Album.Sweeper.StartAlbum: the SDK's request parser is not part of this model; its result and the array it fills are arguments.
- CleanRecord.Assemble: the clearing of room properties and the description text around the three lengths are not modelled.
- Floating-point rounding: coordinates and the resolution are reals, and the resolution is an argument instead of a global.
- Counts inside polygons, and counts that differ from the size of their vectors, are printed modulo 256 as the code does; polygons are claimed to come back only when their count fits the byte.
- Spot cleaning (0x16, 0x3E) and do-not-disturb v1.0.0 (0x32) frames: fixed layouts without nesting, which would only add easy members.
- Timers v1.1.0, do-not-disturb v1.1.0, room names, room properties and virtual walls v1.1.0: parser and encoder disagree on the layout.
- Version 2 map pixels with carpet codes and the compressed tail of saved maps.
- On/off data points, data-point tables, BLE, Wi-Fi, downloads, shell commands, file I/O, P2P start-up and logging.
