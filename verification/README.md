# GPS-Simulator in Dafny

GPS-Simulator is a Windows desktop tool that fakes the GPS position of
connected iOS devices. The user can do three things:

- teleport to a point chosen on a Bing map, typed in, or found by a place search;
- walk a loaded GPX route at walking, running or driving speed, reversing at its end;
- draw a new route pin by pin and save it as a GPX 1.1 file.

Each position reaches the devices as a framed message sent to their
location-simulation service.

This project models the program's core as pure functions over immutable
state:

| Module | What it models |
|---|---|
| `Geodesy` | Location, the distance on the sphere, the bearing and the destination point |
| `Walker` | the route-walking engine |
| `DeviceConn` | the device registry, the byte frames of location updates and clears, and one round of the device polling loop |
| `App` | the window's walking state: the timer tick, the walk/pause/stop buttons, the speed and routing buttons, and loading a GPX route |
| `Teleport` | the teleport tab: elevation and geocoding URLs, search, selection, teleport button and map click |
| `GpxTool` | the GPX editor: create mode, waypoints, dragging, inserting and removing pins, saving |
| `GpxModel`, `Garmin`, `Serializer`, `GpxClass` | the SharpGpx library: collection helpers, Garmin colours, the cached XmlSerializer facade, loading and saving GPX documents |
| `Base`, `Text` | Result/Option, the List operations the program relies on, and string Split, Join and Trim |

Some behaviour is outside the model and becomes a parameter instead:

- Trigonometry is an uninterpreted record `Trig`. Facts about it appear only as named `requires`.
- Formatting a double is `show`, and `Convert.ToDouble` is `parse`.
- Bing Maps answers are `geocode` and `elevations`.
- Reading a GPX file is `load`.
- The native libimobiledevice calls are `native` and `probe`.
- The XML runtime is `GpxClass.XmlRuntime`.
- The double-to-decimal conversion on saving is `toDecimal`.

An operation that throws in the program returns `Err(fault)` here and
changes no state.

The window offers three routing modes: stop at end, loop and reverse walk
(`e_routing_mode`, MainWindow.xaml.cs:50-54). The radio buttons record the
choice (walking_tab.cs:154-167), but the engine never reads
`cur_routing_mode`: at the end of a route it always reverses
(walking_timer_callback.cs:171-183). The model does the same
(`App.TickIgnoresRouting`).

## Model

| member | source | states |
|---|---|---|
| Base.IndexOf | GPS-Simulator/main/gpxtool_tab.cs:271 | List.IndexOf: -1 exactly when the item is absent, otherwise the position of its first occurrence |
| Base.Insert | GPS-Simulator/main/gpxtool_tab.cs:304 | List.Insert succeeds exactly for 0 <= index <= Count; the item lands at index, with the items before it unchanged and the rest shifted right |
| Base.RemoveAt | GPS-Simulator/main/gpxtool_tab.cs:362 | List.RemoveAt succeeds exactly for an existing index and closes the gap |
| Base.SetAt | GPS-Simulator/main/gpxtool_tab.cs:272 | the list indexer setter succeeds exactly for an existing index and changes only that slot |
| Base.Move | GPS-Simulator/walking_timer_callback.cs:180 | Collection.Move puts the moved item at the target; the other items keep their relative order |
| Base.Reverse | GPS-Simulator/walking_timer_callback.cs:179-180 | the reversed route holds the i-th point from the end at position i |
| Base.ReversePermutes | GPS-Simulator/walking_timer_callback.cs:179-180 | reversing a route keeps its points as a multiset |
| Base.ReverseInvolution | GPS-Simulator/walking_timer_callback.cs:179-180 | reversing twice gives back the original route |
| Text.Split | GPS-Simulator/device_conn.cs:138 | string.Split gives at least one piece, and no piece contains the separator |
| Text.Join | GPS-Simulator/device_conn.cs:138 | definition: string.Join puts the separator between consecutive parts and nowhere else; JoinSplit and SplitJoin show it undoes and is undone by Split |
| Text.Take | GPS-Simulator/device_conn.cs:138 | LINQ Take(n) gives the first min(n, length) items |
| Text.SplitHead | GPS-Simulator/device_conn.cs:138 | the first piece of a split is the text before the first separator, or the whole text |
| Text.JoinSplit | GPS-Simulator/device_conn.cs:138 | joining the pieces of a split with the same separator rebuilds the text |
| Text.SplitJoin | GPS-Simulator/device_conn.cs:138 | splitting a join of separator-free pieces gives the pieces back |
| Text.JoinSnoc | GPS-Simulator/main/teleport_tab.cs:159-166 | appending one more part to a join adds the separator and the part |
| Text.TrimStart | GPS-Simulator/main/teleport_tab.cs:209 | the result is a suffix, everything cut is white space, and it does not start with white space |
| Text.TrimEnd | GPS-Simulator/main/teleport_tab.cs:209 | the result is a prefix, everything cut is white space, and it does not end with white space |
| Text.Trim | GPS-Simulator/main/teleport_tab.cs:209 | string.Trim gives the slice of the text that starts where the start-trimmed text starts; only white space is cut on either side, and the result neither starts nor ends with white space |
| Text.TrimSlice | GPS-Simulator/main/teleport_tab.cs:209 | trimming the end of a start-trimmed text leaves a slice of the original with only white space around it, starting and ending with non-white space |
| Geodesy.DegreesToRadians | GPS-Simulator/walking_timer_callback.cs:104-107 | definition: the angle times π over 180; DegreesRadiansRoundTrip shows RadiansToDegrees undoes it |
| Geodesy.RadiansToDegrees | GPS-Simulator/walking_timer_callback.cs:109-113 | definition: the angle times the factor 180/π; DegreesRadiansRoundTrip shows DegreesToRadians undoes it |
| Geodesy.DegreesRadiansRoundTrip | GPS-Simulator/walking_timer_callback.cs:104-113 | degrees-to-radians and radians-to-degrees are inverse in both orders |
| Geodesy.DistanceOnGeoid | GPS-Simulator/walking_timer_callback.cs:53-85 | definition: the earth radius times the arc cosine of the dot product of the two points on the sphere over r²; DistanceSymmetric and DistanceToSelf state its symmetry and its zero on the diagonal |
| Geodesy.Distance | GPS-Simulator/walking_timer_callback.cs:45-51 | definition: distance_on_loc hands the latitudes and longitudes to distance_on_geoid; DistanceIgnoresAltitude shows the altitudes play no part |
| Geodesy.DistanceSymmetric | GPS-Simulator/walking_timer_callback.cs:45-85 | distance_on_loc from a to b equals the distance from b to a |
| Geodesy.DistanceIgnoresAltitude | GPS-Simulator/walking_timer_callback.cs:45-51 | the distance depends only on latitude and longitude |
| Geodesy.DistanceToSelf | GPS-Simulator/walking_timer_callback.cs:53-85 | a point is at distance 0 from itself when sin²+cos²=1 and acos(1)=0 |
| Geodesy.FMod | GPS-Simulator/walking_timer_callback.cs:100-101 | the C# % on doubles takes the sign of the dividend and stays below the divisor in magnitude |
| Geodesy.FloorRemainder | GPS-Simulator/walking_timer_callback.cs:100-101 | a non-negative value minus its floored multiple of the divisor lies in [0, divisor) |
| Geodesy.NormalizeAngle | GPS-Simulator/walking_timer_callback.cs:100-101 | definition: (θ + 2π) % 2π with the C# remainder; NormalizeAngleRange states the range it lands in |
| Geodesy.NormalizeAngleRange | GPS-Simulator/walking_timer_callback.cs:100-101 | (θ + 2π) % 2π maps an atan2 angle in (-π, π] into [0, 2π), adding 2π exactly to the negative ones |
| Geodesy.Bearing | GPS-Simulator/walking_timer_callback.cs:89-102 | definition: the initial great-circle bearing atan2(y, x) of the two points, normalised by NormalizeAngle; BearingInRange states its range |
| Geodesy.BearingInRange | GPS-Simulator/walking_timer_callback.cs:89-102 | the bearing between two points lies in [0, 2π) whenever atan2 returns values in (-π, π] |
| Geodesy.Destination | GPS-Simulator/walking_timer_callback.cs:115-142 | FindPointAtDistanceFrom returns a location with altitude 0 |
| Geodesy.DestinationZeroDistance | GPS-Simulator/walking_timer_callback.cs:115-142 | moving distance 0 from a non-polar start returns the start's latitude and longitude, under the stated trigonometric identities |
| Walker.SetRoute | GPS-Simulator/walking_timer_callback.cs:253-263 | set_route always stores the polyline; a non-null one puts the cursor on its first point and segment 0; an empty one throws |
| Walker.Valid | GPS-Simulator/walking_timer_callback.cs:148-196 | definition: the engine state in which a step can be taken — a route of at least two points, a segment index in [0, points - 2] and a current location; SetRouteValid establishes it and StepPreservesValid keeps it |
| Walker.Create | GPS-Simulator/walking_timer_callback.cs:37-43 | the constructor starts at speed 0, and with no polyline leaves every field at its default |
| Walker.Reset | GPS-Simulator/walking_timer_callback.cs:243-247 | reset puts the cursor back at the start of the route it holds and changes nothing else |
| Walker.MoveLastTo | GPS-Simulator/walking_timer_callback.cs:180 | Move(Count-1, i) cuts the last point and inserts it at i |
| Walker.ReverseRoute | GPS-Simulator/walking_timer_callback.cs:179-180 | the in-place Move loop reverses the route and keeps its points as a multiset |
| Walker.Step | GPS-Simulator/walking_timer_callback.cs:148-196 | get_next_step_location fails exactly when the polyline is missing, the next index is out of range, the cursor is null, or the index is negative within a segment; success keeps the speed and sets a cursor |
| Walker.StepLength | GPS-Simulator/walking_timer_callback.cs:156 | definition: the distance of one 500 ms step, half the speed in metres per second |
| Walker.SetRouteValid | GPS-Simulator/walking_timer_callback.cs:253-263 | setting a route of two or more points yields a walkable engine at the route's first point |
| Walker.StepPreservesValid | GPS-Simulator/walking_timer_callback.cs:148-196 | from a walkable engine a step never throws and stays walkable; the segment index stays, advances by one, or restarts at 0 with the route reversed; the route's points never change as a multiset |
| Walker.StepWithinSegment | GPS-Simulator/walking_timer_callback.cs:156-167 | a step shorter than the remaining distance moves speed/2 along the segment's bearing and stays on the segment |
| Walker.StepNextSegment | GPS-Simulator/walking_timer_callback.cs:170-192 | a step that passes the end of an inner segment continues on the next segment by the left-over distance |
| Walker.StepAtEnd | GPS-Simulator/walking_timer_callback.cs:171-183 | a step that passes the end of the last segment reverses the route and puts the cursor on the old last point, at segment 0 |
| GpxModel.AddItem | GPS-Simulator/SharpGpx/GPX1_1/Extensions.cs:8-48 | the Add helpers append the item after the existing ones and throw on a null collection |
| GpxModel.AddItemsInOrder | GPS-Simulator/SharpGpx/GPX1_1/Extensions.cs:8-12 | chained adds keep the items in the order they were added |
| Garmin.ConvertColor | GPS-Simulator/SharpGpx/GPX1_1/GarminExtensions.cs:12-36 | DarkYellow, which has no System.Drawing namesake, maps to DarkGoldenrod, and any value that is not a declared member falls through to Black |
| Garmin.ConvertColorKeepsName | GPS-Simulator/SharpGpx/GPX1_1/GarminExtensions.cs:14-34 | every other declared Garmin colour maps to the System.Drawing colour of the same name |
| Garmin.ConvertColorBijective | GPS-Simulator/SharpGpx/GPX1_1/GarminExtensions.cs:12-36 | on the listed colours the conversion is injective, and every target colour is reached |
| Garmin.Member | GPS-Simulator/SharpGpx/GPX1_1/GarminExtensions.cs:14-34 | every named colour the conversion produces comes from a declared DisplayColor_t member; the inverse of the table |
| Garmin.RouteColor | GPS-Simulator/SharpGpx/GPX1_1/GarminExtensions.cs:42 | a route extension's Color is Black for an undeclared DisplayColor, DarkGoldenrod for DarkYellow, and the same-named colour otherwise |
| Garmin.TrackColor | GPS-Simulator/SharpGpx/GPX1_1/GarminExtensions.cs:48 | a track extension's Color is the colour a route extension of the same DisplayColor gets: Black for an undeclared value, DarkGoldenrod for DarkYellow, and the same-named colour otherwise |
| Serializer.DictAdd | GPS-Simulator/SharpGpx/Serializer.cs:69 | Dictionary.Add succeeds exactly for a new key; it adds that key and keeps every other entry |
| Serializer.CreateSerializer | GPS-Simulator/SharpGpx/Serializer.cs:44-74 | a cached serializer is returned as is; otherwise one is built for the type and extra types and cached only when caching is on; entries are never changed or dropped |
| Serializer.CreateSerializerStable | GPS-Simulator/SharpGpx/Serializer.cs:44-74 | with caching on, asking for the same type again returns the same serializer and state |
| Serializer.CheckXml | GPS-Simulator/SharpGpx/Serializer.cs:96-100 | CheckXML throws ArgumentException exactly for an empty text, or one that neither starts with '<' nor ends with '>' |
| Serializer.CheckXmlExamples | GPS-Simulator/SharpGpx/Serializer.cs:96-100 | "abc>" and "<abc" pass, "" and "abc" are rejected |
| Serializer.CriticalException | GPS-Simulator/SharpGpx/Serializer.cs:797-803 | with Throw set the exception propagates; otherwise the result is false |
| Serializer.Deserialize | GPS-Simulator/SharpGpx/Serializer.cs:121-128 | text rejected as not XML throws with no cache change; otherwise the parse result, or on a parse failure rethrow or null depending on Throw (the reader overload at lines 282-302) |
| Serializer.Serialize | GPS-Simulator/SharpGpx/Serializer.cs:487-513 | a null object throws ArgumentNullException; a write failure rethrows or yields what was written so far, depending on Throw |
| Serializer.DefaultsSwallowFailures | GPS-Simulator/SharpGpx/Serializer.cs:797-803 | with Throw off, deserializing XML-looking text and serializing an object never fail |
| GpxClass.Copy | GPS-Simulator/SharpGpx/GpxClass.cs:25-34 | the copy constructor throws on a null gpx or null collections, and otherwise keeps every field |
| GpxClass.FromXml | GPS-Simulator/SharpGpx/GpxClass.cs:42-54 | malformed XML throws; a GPX 1.0 root is transformed to 1.1 before deserializing; the result is the copied document |
| GpxClass.FromXmlTransformsOnlyGpx10 | GPS-Simulator/SharpGpx/GpxClass.cs:42-54 | a document whose root is not GPX 1.0 is deserialized as given |
| GpxClass.ToGpx1_1 | GPS-Simulator/SharpGpx/GpxClass.cs:78-91 | the conversion keeps the scalar fields and replaces each null collection with an empty one |
| GpxClass.ToGpx1_1Idempotent | GPS-Simulator/SharpGpx/GpxClass.cs:78-91 | converting an already normalised document changes nothing, so converting twice equals converting once |
| GpxClass.ToGpx1_0 | GPS-Simulator/SharpGpx/GpxClass.cs:94-105 | the 1.0 conversion keeps only creator and version |
| GpxClass.ToXml | GPS-Simulator/SharpGpx/GpxClass.cs:112-119 | saving serializes the 1.1 form, then transforms the text to 1.0 only when version 1.0 is asked for |
| GpxClass.ToXmlLatest | GPS-Simulator/SharpGpx/GpxClass.cs:125-128 | definition: ToXml() is ToXml(GPX_1_1); ToFileWritesGpx11 relates it to ToFile |
| GpxClass.ToFile | GPS-Simulator/SharpGpx/GpxClass.cs:161-165 | definition: the text ToFile writes is the normalised 1.1 document through the serializer's guarded stream variant |
| GpxClass.FileAfterOpenWrite | GPS-Simulator/SharpGpx/GpxClass.cs:161-165 | File.OpenWrite overwrites from the start without truncating: the new text comes first, and the tail of a longer old file survives |
| GpxClass.OpenWriteKeepsTail | GPS-Simulator/SharpGpx/GpxClass.cs:161-165 | saving over a longer file leaves a file that is not the saved text |
| GpxClass.OpenWriteExact | GPS-Simulator/SharpGpx/GpxClass.cs:161-165 | with no old file, or one no longer than the text, the file holds exactly the text |
| GpxClass.ToFileWritesGpx11 | GPS-Simulator/SharpGpx/GpxClass.cs:125-165 | ToFile and ToXml() both write the GPX 1.1 form |
| GpxClass.CheckVersion | GPS-Simulator/SharpGpx/GpxClass.cs:173-190 | a file is accepted exactly when it loads and its root namespace is GPX 1.0 or 1.1 |
| GpxClass.SaveLoadRoundTrip | GPS-Simulator/SharpGpx/GpxClass.cs:161-190 | when the XML runtime round-trips the document, a saved file passes CheckVersion and loads back as the normalised document, and the serializer is then cached |
| DeviceConn.ShortVersionFewDots | GPS-Simulator/device_conn.cs:138 | a version with fewer than two dots is its own short version |
| DeviceConn.ShortVersionOf | GPS-Simulator/device_conn.cs:138 | definition: the first two dot-separated pieces of the version, joined by a dot; characterised by the two lemmas around this row |
| DeviceConn.ShortVersionUpToSecondDot | GPS-Simulator/device_conn.cs:138 | otherwise the short version is the text before the second dot |
| DeviceConn.ShortVersionExample | GPS-Simulator/device_conn.cs:344-349 | 13.3.1 becomes 13.3 |
| DeviceConn.MakeDevice | GPS-Simulator/device_conn.cs:132-141 | the new DeviceModel keeps udid, name, version, build and developer mode, and its full version is short(build) |
| DeviceConn.DdiImageUrl | GPS-Simulator/device_conn.cs:22-27 | the disk-image URL is the repository URL, then the full version, then ".zip" |
| DeviceConn.RemoveFirst | GPS-Simulator/device_conn.cs:200 | List.Remove takes out only the first equal item, or nothing |
| DeviceConn.DeviceAddRemove | GPS-Simulator/device_conn.cs:162-220 | adding appends the device, named "(UNPROVISIONED)" when not in developer mode; removing drops its first copy; clearing empties; provisioning is enabled exactly when a device remains |
| DeviceConn.AddThenRemove | GPS-Simulator/device_conn.cs:162-220 | adding then removing the same device restores the device multiset and the provisioning flag |
| DeviceConn.BE32 | GPS-Simulator/device_conn.cs:265-270 | the uint-cast, reversed BitConverter bytes are four bytes |
| DeviceConn.DecodeBE32 | GPS-Simulator/device_conn.cs:265-270 | four big-endian bytes read as a number below 2^32 |
| DeviceConn.BE32RoundTrip | GPS-Simulator/device_conn.cs:265-270 | decoding inverts encoding modulo 2^32, and encoding inverts decoding |
| DeviceConn.Ascii | GPS-Simulator/device_conn.cs:266-272 | Encoding.ASCII keeps characters below 128 and turns every other into '?' |
| DeviceConn.AsciiDecode | GPS-Simulator/device_conn.cs:266-272 | bytes read back as characters of the same code |
| DeviceConn.AsciiRoundTrip | GPS-Simulator/device_conn.cs:266-272 | a text survives the encoding exactly when it is ASCII |
| DeviceConn.CoordinateSends | GPS-Simulator/device_conn.cs:265-277 | each coordinate is sent as a length and then its bytes: four sends |
| DeviceConn.LocationFrame | GPS-Simulator/device_conn.cs:235-277 | a location frame is five sends starting with message type 0 |
| DeviceConn.UpdateLocation | GPS-Simulator/device_conn.cs:222-288 | each served device, in list order, receives its own location frame, and nothing else is sent |
| DeviceConn.ServedDevices | GPS-Simulator/device_conn.cs:238-262 | the devices sent to are exactly those with a handshake, developer mode and a started service |
| DeviceConn.Served | GPS-Simulator/device_conn.cs:238-262 | definition: a device is sent to when the lockdown handshake succeeds, it is in developer mode and the location service starts |
| DeviceConn.UpdateLocationHeaderReuse | GPS-Simulator/device_conn.cs:235-277 | as written, the second served device gets the longitude length as its header instead of type 0; the corrected loop sends type 0 |
| DeviceConn.UpdateLoopAsWritten | GPS-Simulator/device_conn.cs:235-277 | as written, the first served device gets the header the loop starts with and every later one the longitude-length header, each followed by its four coordinate sends; other devices get nothing |
| DeviceConn.UpdateLocationAsWritten | GPS-Simulator/device_conn.cs:222-288 | as written, the first served device receives its whole location frame, and every later served device the longitude length in place of message type 0 |
| DeviceConn.AsWrittenDiffersOnlyInHeaders | GPS-Simulator/device_conn.cs:235-277 | for any device list the as-written and corrected loops send equally many messages and agree on the first frame and on every coordinate send; with a non-empty longitude they differ in the header of every later served device |
| DeviceConn.LocationFrameParses | GPS-Simulator/device_conn.cs:265-277 | a frame with ASCII coordinates parses back as type 0 with the two coordinate texts |
| DeviceConn.Clearable | GPS-Simulator/device_conn.cs:290-338 | definition: ClearLocation reaches the send for a device when the handshake, the service start and the client creation succeed; the developer-mode flag is not consulted |
| DeviceConn.ClearSends | GPS-Simulator/device_conn.cs:290-338 | a clearable device gets [0,0,0,0] and, exactly when that send succeeds, [0,0,0,1] after it; any other device gets nothing |
| DeviceConn.ClearLocation | GPS-Simulator/device_conn.cs:290-338 | ClearLocation sends only [0,0,0,0] and [0,0,0,1], each [0,0,0,1] right after a [0,0,0,0] to the same device; every clearable device of the list gets its sends, and every send belongs to the sends of a device of the list |
| DeviceConn.ClearLocationPerDevice | GPS-Simulator/device_conn.cs:290-338 | ClearLocation's output is the per-device sends of the devices concatenated in list order |
| DeviceConn.ClearMessagesAreBE32 | GPS-Simulator/device_conn.cs:290-338 | the two clear messages are the big-endian encodings of 0 and 1 |
| DeviceConn.Except | GPS-Simulator/device_conn.cs:83 | LINQ Except gives the distinct reported items that are not known, all of them, in the order of their first occurrence in the reported list |
| DeviceConn.Udids | GPS-Simulator/device_conn.cs:82-83 | the UDIDs of the known devices, in order |
| DeviceConn.AddNew | GPS-Simulator/device_conn.cs:85-143 | the corrected loop only appends: known devices are untouched, and adding enables provisioning |
| DeviceConn.PassesChecks | GPS-Simulator/device_conn.cs:90-126 | definition: the lookups the code as written does check, both handshakes and the device name |
| DeviceConn.Accepted | GPS-Simulator/device_conn.cs:90-126 | definition: both handshakes and all three lookups succeed |
| DeviceConn.AddNewAsWritten | GPS-Simulator/device_conn.cs:85-143 | as written, adding throws a null reference exactly when some new device passes the checked lookups but its ProductVersion lookup fails; when it does not throw and every BuildVersion lookup succeeds, it adds what the corrected loop adds |
| DeviceConn.AcceptedUdids | GPS-Simulator/device_conn.cs:85-126 | exactly the probed devices whose lookups all succeed, and distinct when the input is |
| DeviceConn.AddNewAddsAccepted | GPS-Simulator/device_conn.cs:85-143 | the devices added are exactly the accepted ones, in probing order |
| DeviceConn.ListenStep | GPS-Simulator/device_conn.cs:66-153 | an empty device list clears the registry; otherwise the registry only grows at its end |
| DeviceConn.ListenStepAsWritten | GPS-Simulator/device_conn.cs:66-153 | as written, an empty device list clears the registry; a round fails only with a null reference, and otherwise agrees with the corrected round when every BuildVersion lookup succeeds |
| DeviceConn.ListenStepKeepsUdidsDistinct | GPS-Simulator/device_conn.cs:66-153 | a polling round never registers a UDID twice, and adds exactly the accepted new devices |
| DeviceConn.AddNewGuardFinding | GPS-Simulator/device_conn.cs:112-126 | as written, a failed ProductVersion lookup leads to a null dereference; the corrected loop skips the device |
| App.Initial | GPS-Simulator/MainWindow.xaml.cs:57-125 | the window starts in teleport mode, stopped, reversing, at fast walking speed, with the timer off, options enabled, saving disabled and no route |
| App.PointsOf | GPS-Simulator/main/walking_tab.cs:75-80 | each waypoint becomes the location with its latitude, longitude and elevation, in order |
| App.SegsPoints | GPS-Simulator/main/walking_tab.cs:84-91 | reading the segments fails with a null reference exactly when some segment has no point list |
| App.TrksPoints | GPS-Simulator/main/walking_tab.cs:82-92 | reading the tracks fails, with a null reference, exactly when some track has a null segment list or a segment with a null point list |
| App.GpxPoints | GPS-Simulator/main/walking_tab.cs:71-94 | missing waypoint or track lists throw; the waypoints come first, followed by the track points |
| App.ReadGpxCoords | GPS-Simulator/main/walking_tab.cs:71-94 | the nested loops of read_gpx_coords compute the reference reading GpxPoints |
| App.ReadPoints | GPS-Simulator/main/walking_tab.cs:75-80 | the waypoint loop computes PointsOf |
| App.ReadSegments | GPS-Simulator/main/walking_tab.cs:84-91 | the segment loop computes SegsPoints |
| App.ReadTracks | GPS-Simulator/main/walking_tab.cs:82-92 | the track loop computes TrksPoints |
| App.TrksPointsErrPrefix | GPS-Simulator/main/walking_tab.cs:82-92 | a failure among the first tracks is a failure of the whole read |
| App.DrawGpxRoute | GPS-Simulator/main/walking_tab.cs:98-132 | with no file nothing changes; otherwise it fails exactly when the file, the reading or an empty route fails, and on success the engine walks the read points from the first, stopped |
| App.OptionDlg | GPS-Simulator/main/walking_tab.cs:35-69 | a route is loaded only when options are enabled, the dialog is accepted, and a different file is chosen |
| App.LoadedRouteIsWalkable | GPS-Simulator/main/walking_tab.cs:35-132 | choosing a file of two or more points leaves a walkable engine at its first point, stopped, at the old speed |
| App.SetWalkingSpeed | GPS-Simulator/main/walking_tab.cs:139-142 | the walking button sets the fast walking speed (2.47 as a float) and changes nothing else; the running and driving buttons are stated relative to it |
| App.SetRunningSpeed | GPS-Simulator/main/walking_tab.cs:149-152 | running is three times the walking speed and changes nothing else |
| App.SetDrivingSpeed | GPS-Simulator/main/walking_tab.cs:144-147 | driving is twelve times the walking speed and changes nothing else |
| App.SetRouting | GPS-Simulator/main/walking_tab.cs:154-167 | a routing button records its mode and changes nothing else |
| App.WalkButton | GPS-Simulator/main/walking_tab.cs:174-245 | without a route nothing changes; otherwise active toggles to paused and anything else to active; the timer runs and the options lock exactly while active |
| App.PauseResume | GPS-Simulator/main/walking_tab.cs:174-245 | pausing and resuming returns to the same state |
| App.StopButton | GPS-Simulator/main/walking_tab.cs:223-250 | stopping halts the timer, re-enables options and puts the engine back at the route's start |
| App.ButtonsKeepConsistent | GPS-Simulator/main/walking_tab.cs:35-250 | every button keeps the timer running exactly while walking is active, with options locked then |
| App.Consistent | GPS-Simulator/main/walking_tab.cs:174-250 | definition: the timer runs exactly while walking is active, and the options button is enabled exactly while it is not |
| App.LoadKeepsConsistent | GPS-Simulator/main/walking_tab.cs:35-132 | loading a route leaves walking stopped or unchanged, so the timer and the load button stay in step |
| App.Tick | GPS-Simulator/walking_timer_callback.cs:203-238 | a tick succeeds exactly when the engine step does, and then only the engine changes (through the corrected `DeviceConn.UpdateLocation`, see "## Findings") |
| App.TickCoversInterval | GPS-Simulator/MainWindow.xaml.cs:99-105 | the 500 ms tick covers exactly the distance walked at the speed in one interval |
| App.TickIgnoresRouting | GPS-Simulator/walking_timer_callback.cs:148-196 | the routing mode does not affect a tick |
| App.TickKeepsWalkable | GPS-Simulator/walking_timer_callback.cs:203-238 | ticking a walkable engine never throws and leaves it walkable (through the corrected `DeviceConn.UpdateLocation`, see "## Findings") |
| App.TickSendsNewPosition | GPS-Simulator/walking_timer_callback.cs:229-236 | every served device receives a frame with the new position (through the corrected `DeviceConn.UpdateLocation`, see "## Findings") |
| Teleport.PointTexts | GPS-Simulator/main/teleport_tab.cs:148-168 | each list item contributes "lat,lon" in order |
| Teleport.CoordTexts | GPS-Simulator/main/teleport_tab.cs:148-168 | two coordinate texts per item |
| Teleport.ElevationQueryUrl | GPS-Simulator/main/teleport_tab.cs:148-168 | the loop builds the elevation URL with comma-separated points; an empty list gives an empty point list |
| Teleport.ElevationUrl | GPS-Simulator/main/teleport_tab.cs:154 | definition: the Bing Elevation List query for a points text and a key |
| Teleport.ElevationUrlFor | GPS-Simulator/main/teleport_tab.cs:148-166 | definition: the elevation query for the comma-joined points of the items, the reference the loop is proved equal to |
| Teleport.ElevationUrlOne | GPS-Simulator/main/teleport_tab.cs:171-181 | the single-point URL equals the list URL of a one-item list |
| Teleport.PointsSplitBack | GPS-Simulator/main/teleport_tab.cs:148-168 | without commas in the coordinate texts, the service splits the point list back into exactly the coordinates sent |
| Teleport.Elevate | GPS-Simulator/main/teleport_tab.cs:183-197 | an elevation lookup fails exactly when the service fails; it keeps latitude and longitude and takes the first elevation, if any |
| Teleport.ItemsOf | GPS-Simulator/main/teleport_tab.cs:226-238 | each hit becomes a list item at altitude 0 with its name |
| Teleport.WithAltitudes | GPS-Simulator/main/teleport_tab.cs:240-247 | the k-th item gets the k-th altitude |
| Teleport.Search | GPS-Simulator/main/teleport_tab.cs:199-248 | search clears results and, for a non-empty text, lists every hit with its elevation, or fails when geocoding, elevation or too few elevations fail; nothing else changes |
| Teleport.SearchUrl | GPS-Simulator/main/teleport_tab.cs:209 | definition: the Bing Locations query for the trimmed search text and the key |
| Teleport.SearchKey | GPS-Simulator/main/teleport_tab.cs:265-271 | definition: Return runs the search, and any other key leaves the window as it is |
| Teleport.SelectionChanged | GPS-Simulator/main/teleport_tab.cs:250-263 | a valid selection shows the item's coordinates; an index past the end throws; otherwise nothing changes |
| Teleport.SearchThenSelect | GPS-Simulator/main/teleport_tab.cs:199-263 | selecting the i-th result shows the i-th hit with its elevation |
| Teleport.TeleButton | GPS-Simulator/main/teleport_tab.cs:25-64 | the teleport button acts only when stopped and all three fields parse; it then places the pin and sends the location to every served device (through the corrected `DeviceConn.UpdateLocation`, see "## Findings") |
| Teleport.TeleportClick | GPS-Simulator/main/teleport_tab.cs:66-110 | a map click is ignored only while walking; otherwise it fails exactly when the elevation fails, and sets the pin and the fields and sends the click's coordinates (through the corrected `DeviceConn.UpdateLocation`, see "## Findings") |
| Teleport.TeleportThenButton | GPS-Simulator/main/teleport_tab.cs:25-110 | when parse inverts show, pressing the button after a click reproduces the click's effect |
| GpxTool.CreateToggle | GPS-Simulator/main/gpxtool_tab.cs:31-51 | the button switches the click mode; leaving create mode discards the route |
| GpxTool.CreateToggleTwice | GPS-Simulator/main/gpxtool_tab.cs:31-51 | toggling twice returns to teleport mode with an empty route |
| GpxTool.UpdatePins | GPS-Simulator/main/gpxtool_tab.cs:179-190 | Last() throws exactly when there are no pins |
| GpxTool.PinsCover | GPS-Simulator/main/gpxtool_tab.cs:179-190 | definition: there are at least as many pins as route locations, the invariant the editing operations keep |
| GpxTool.AddWaypoint | GPS-Simulator/main/gpxtool_tab.cs:122-146 | in create mode a click appends the elevated point, adds a pin and enables saving; it fails exactly when the elevation lookup does |
| GpxTool.RightClick | GPS-Simulator/main/gpxtool_tab.cs:192-207 | in create mode it clears the route and disables saving but keeps the pins; in teleport mode nothing changes |
| GpxTool.DoubleClick | GPS-Simulator/main/gpxtool_tab.cs:214-226 | a double-click teleports in teleport mode and adds a waypoint in create mode |
| GpxTool.DragRelease | GPS-Simulator/main/gpxtool_tab.cs:266-278 | releasing a dragged pin replaces the first equal location; it fails when that location is gone or there are no pins |
| GpxTool.AddBetween | GPS-Simulator/main/gpxtool_tab.cs:291-310 | the elevated midpoint is inserted after position i, shifting the rest right |
| GpxTool.AddPinBefore | GPS-Simulator/main/gpxtool_tab.cs:312-326 | a pin that is not first gets the midpoint inserted before it |
| GpxTool.AddPinAfter | GPS-Simulator/main/gpxtool_tab.cs:328-342 | a pin that is not last gets the midpoint inserted after it; an unknown pin on a non-empty route throws |
| GpxTool.AddPinPlacesMidpoint | GPS-Simulator/main/gpxtool_tab.cs:291-342 | the midpoint ends up directly next to the pin, and the pins still cover the route |
| GpxTool.Midpoint | GPS-Simulator/main/gpxtool_tab.cs:299-301 | the new location lies halfway between its neighbours in latitude, longitude and altitude |
| GpxTool.RemovePinAsWritten | GPS-Simulator/main/gpxtool_tab.cs:344-367 | as written, an unknown pin throws, and removing the only pin throws in the Last() of gpx_update_pins (line 187) |
| GpxTool.RemovePin | GPS-Simulator/main/gpxtool_tab.cs:344-367 | removing drops the first occurrence and one pin, keeping the rest in order |
| GpxTool.RemoveLastPinFinding | GPS-Simulator/main/gpxtool_tab.cs:344-367 | for a one-point route, as written, removal fails; corrected, it leaves an empty route |
| GpxTool.RemovePinAgrees | GPS-Simulator/main/gpxtool_tab.cs:344-367 | with two or more pins, as written and corrected agree |
| GpxTool.TrackPoints | GPS-Simulator/main/gpxtool_tab.cs:63-88 | each location becomes a waypoint of its decimal-converted coordinates, with elevation set |
| GpxTool.Rounded | GPS-Simulator/main/gpxtool_tab.cs:63-88 | the locations after the decimal conversion |
| GpxTool.GpxSave | GPS-Simulator/main/gpxtool_tab.cs:53-100 | cancelling saves nothing; otherwise the track is written, or the save fails; afterwards the mode is teleport and the route is cleared |
| GpxTool.SavedTrackPoints | GPS-Simulator/main/gpxtool_tab.cs:63-88 | reading the saved document back gives the rounded route |
| GpxTool.SavedTrack | GPS-Simulator/main/gpxtool_tab.cs:63-88 | definition: a new document whose track list is one time-stamped track of one segment holding the points |
| GpxTool.SaveThenLoad | GPS-Simulator/main/gpxtool_tab.cs:53-100 | a saved route loads back as the rounded route, and gives back the route itself when the decimal cast keeps every value |
| GpxTool.ToolKeepsPinsCover | GPS-Simulator/main/gpxtool_tab.cs:31-367 | every editing operation keeps at least as many pins as route points |

## Left out

- App.Tick: models one_step with the GPS-drift checkbox unchecked; the drifted branch (walking_timer_callback.cs:215-228) is left out because it is random: the position sent is the engine's position plus a random offset, which is always subtracted because `rnd.Next(0, 1)` is always 0, and whose altitude is the latitude of a route point.
- Geodesy.Distance: doubles are modelled as exact reals. In the program rounding can push cos_theta slightly above 1 (walking_timer_callback.cs:79-84), and Math.Acos then returns NaN. Reals have no NaN, so that path is not modelled.
- Geodesy.DistanceToSelf: proves the exact-real distance 0. With doubles the distance from a point to itself can be NaN, because of the rounding described above.
- Walker.Step: when the distance to the next point is NaN, `dis_walk_500ms < dis_to_next_seg` (walking_timer_callback.cs:158) is false, and the program takes the next-segment branch and sends NaN coordinates. The model has no NaN and does not show this.
- App.Tick: sends through the corrected `DeviceConn.UpdateLocation`, which resets the header for every device (see "## Findings"). As written, every served device after the first gets the longitude length as its header (`DeviceConn.UpdateLocationAsWritten`, `DeviceConn.AsWrittenDiffersOnlyInHeaders`).
- GpxTool.SaveThenLoad: takes the file to hold exactly the written text, which is the corrected OpenWrite (see "## Findings"). As written, File.OpenWrite does not truncate, so saving over a longer old file keeps its tail (`GpxClass.FileAfterOpenWrite`, `GpxClass.OpenWriteKeepsTail`).
- App.TickSendsNewPosition: every served device getting the new position's frame holds for the corrected loop. As written, only the first served device gets the full frame.
- Teleport.TeleButton: sends through the corrected `DeviceConn.UpdateLocation`, for the same reason as App.Tick.
- Teleport.TeleportClick: sends through the corrected `DeviceConn.UpdateLocation`, for the same reason as App.Tick.
- Presentation is not modelled: the map, the pushpins, the polyline, colours, message boxes, button captions, the way-points text and the search list items.
- Pin_MouseDown and Map_MouseMove drag tracking is not modelled. Only the release is (`GpxTool.DragRelease`).
- HTTP failures, threads and sleeping are not modelled. Network and XML failures fold into the `Err` of `geocode` and `elevations`. The threads and sleep of the polling loop are left out, and so is the error from its first device-list call.
- Failures of the native libimobiledevice calls (idevice_new ThrowOnError) are not modelled. Their outcomes are parameters.
- Number and text conversions are not modelled. Double-to-decimal on saving is `toDecimal`, and reading back is exact. Double formatting and culture are `show` and `parse`. A decimal comma breaks the precondition of `Teleport.PointsSplitBack`. UTF-16 is treated as ASCII.
- Reference equality of DeviceModel is modelled as value equality. DeviceModel does not override Equals, so `Devices.Remove` (device_conn.cs:200) removes that very object in the program and the first equal-valued one here. Location needs no such note: its Equals compares the coordinates.
- XmlSerializer construction failures are not modelled.
- The connected-device text is not modelled.
- Provisioning is not modelled. dev_prov.cs, device_tab.cs and XsltHelper are not part of this model. The generated GPX classes are records, and `new GpxClass()` is the `blank` parameter.
- The BingMapKey value is a `key` parameter.
- File I/O is not modelled. Reading is `load`, and DDI directory creation is left out.
- Timer scheduling is not modelled. Only single ticks are proved, with no multi-tick induction.
- Debug.Assert calls are not modelled.
- The duplicate Map_MouseDoubleClick in teleport_tab.cs:118-127 is not modelled. The gpxtool_tab.cs handler is the one modelled.
- The DateTime track name is a parameter.
- GpxModel.Addwpt: the typed helpers are thin wrappers, so their contract is stated on `AddItem`. A returned collection is a value here, not the same object.

## Findings

| source | as written | input that shows it | evidently intended | confidence | as-written member | corrected member |
|---|---|---|---|---|---|---|
| GPS-Simulator/device_conn.cs:235-277 | UpdateLocation reuses `size` for the length prefixes and never resets it per device | two served devices and a non-empty longitude text: the second header is the longitude length | every device's header is type 0 | not executed | DeviceConn.UpdateLocationHeaderReuse | DeviceConn.UpdateLocation |
| GPS-Simulator/device_conn.cs:112-126 | after the value lookups the code re-checks `ret_get_devname` | a probe whose ProductVersion lookup fails: null.Split throws | a failed value lookup skips the device | not executed | DeviceConn.AddNewGuardFinding | DeviceConn.ListenStep |
| GPS-Simulator/main/gpxtool_tab.cs:344-367 | removing a pin calls gpx_update_pins, whose pins.Last() (line 187) runs on the emptied list | a one-point route with one pin: Last() on an empty list throws | the last pin can be removed | not executed | GpxTool.RemoveLastPinFinding | GpxTool.RemovePin |
| GPS-Simulator/SharpGpx/GpxClass.cs:161-165 | ToFile writes through File.OpenWrite, which does not truncate | saving a shorter route over a longer file leaves its old tail | the file holds exactly the new document | not executed | GpxClass.OpenWriteKeepsTail | GpxTool.SaveThenLoad |
