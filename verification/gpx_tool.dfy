/** The GPX creation tool (main/gpxtool_tab.cs): switching between teleport
    and GPX creation mode, adding waypoints by double-click, dragging them,
    inserting and removing them from a pushpin's context menu, and saving
    the locations as a one-track GPX file.  The map, the polyline, the
    waypoint text and the pin colours are presentation; what the model keeps
    of the pushpin list is its length `pins`, because colouring the first
    and last pin is the one step that can throw. */
module GpxTool {
  import opened Base
  import opened Geodesy
  import opened GpxModel
  import App
  import Teleport
  import GpxClass
  import Serializer
  import DeviceConn

  /** Every location has a pushpin: only creation mode clears the pin list,
      while right-click and saving clear the locations alone. */
  predicate PinsCover(a: App.App)
  {
    a.pins >= |a.gpxLocations|
  }

  /** gpx_create_Click: leaving creation mode clears the locations, the pins
      and the save button; entering it only changes the mode. */
  function CreateToggle(a: App.App): (r: App.App)
    ensures r.click != a.click
    ensures r.click == App.Teleport ==> r == a.(click := App.Teleport, gpxLocations := [], pins := 0, saveEnabled := false)
    ensures r.click == App.CreateGpx ==> r == a.(click := App.CreateGpx)
  {
    match a.click
    case CreateGpx => a.(click := App.Teleport, gpxLocations := [], pins := 0, saveEnabled := false)
    case Teleport => a.(click := App.CreateGpx)
  }

  /** Entering and leaving creation mode discards whatever was built and
      every pin. */
  lemma CreateToggleTwice(a: App.App)
    requires a.click == App.Teleport
    ensures CreateToggle(CreateToggle(a)) == a.(gpxLocations := [], pins := 0, saveEnabled := false)
    ensures PinsCover(CreateToggle(CreateToggle(a)))
  {
  }

  /** gpx_update_from_gpx_locations: redrawing the polyline and the text
      cannot fail, but colouring the pins takes the list's Last(), which
      throws on an empty list. */
  function UpdatePins(a: App.App): (r: Result<App.App>)
    ensures r.Err? <==> a.pins == 0
    ensures r.Err? ==> r.fault == InvalidOperation
    ensures r.Ok? ==> r.value == a
  {
    if a.pins == 0 then Err(InvalidOperation) else Ok(a)
  }

  /** gpx_add_waypoint: only in creation mode.  The point gets its elevation
      (CreatePushpinAndAddToMap), a pin is added, the location is appended
      and the save button enabled. */
  function AddWaypoint(a: App.App, loc: Location, elevations: string -> Result<seq<real>>,
                       show: real -> string, key: string): (r: Result<App.App>)
    ensures a.click != App.CreateGpx ==> r == Ok(a)
    ensures a.click == App.CreateGpx ==> (r.Err? <==> Teleport.Elevate(loc, elevations, show, key).Err?)
    ensures a.click == App.CreateGpx && r.Ok? ==>
              var here := Teleport.Elevate(loc, elevations, show, key).value;
              && r.value.gpxLocations == a.gpxLocations + [here]
              && r.value.pins == a.pins + 1 && r.value.saveEnabled
              && r.value == a.(gpxLocations := r.value.gpxLocations, pins := r.value.pins, saveEnabled := true)
  {
    if a.click != App.CreateGpx then Ok(a)
    else
      match Teleport.Elevate(loc, elevations, show, key)
      case Err(f) => Err(f)
      case Ok(here) =>
        UpdatePins(a.(pins := a.pins + 1, gpxLocations := a.gpxLocations + [here], saveEnabled := true))
  }

  /** Map_MouseSingleRightClick: in creation mode the locations are
      discarded and saving is disabled; the pins stay in their list. */
  function RightClick(a: App.App): (r: App.App)
    ensures a.click == App.Teleport ==> r == a
    ensures a.click == App.CreateGpx ==> r.gpxLocations == [] && !r.saveEnabled && r.pins == a.pins
    ensures r.(gpxLocations := a.gpxLocations, saveEnabled := a.saveEnabled) == a
  {
    match a.click
    case Teleport => a
    case CreateGpx => a.(gpxLocations := [], saveEnabled := false)
  }

  /** Map_MouseDoubleClick: a teleport in teleport mode, a new waypoint (and
      nothing sent to the devices) in creation mode. */
  function DoubleClick(a: App.App, loc: Location, elevations: string -> Result<seq<real>>, key: string,
                       native: string -> DeviceConn.Native, show: real -> string): (r: Result<App.Effect>)
    ensures a.click == App.Teleport ==> r == Teleport.TeleportClick(a, loc, elevations, key, native, show)
    ensures a.click == App.CreateGpx ==>
              && (r.Ok? <==> AddWaypoint(a, loc, elevations, show, key).Ok?)
              && (r.Ok? ==> r.value == App.Effect(AddWaypoint(a, loc, elevations, show, key).value, []))
  {
    match a.click
    case Teleport => Teleport.TeleportClick(a, loc, elevations, key, native, show)
    case CreateGpx =>
      match AddWaypoint(a, loc, elevations, show, key)
      case Err(f) => Err(f)
      case Ok(b) => Ok(App.Effect(b, []))
  }

  /** Pin_MouseUp at the end of a drag: the first location equal to the
      dragged pin's old location is replaced by the new one (IndexOf's -1 makes
      the setter throw), then the pins are recoloured. */
  function DragRelease(a: App.App, prior: Location, moved: Location): (r: Result<App.App>)
    ensures r.Err? <==> prior !in a.gpxLocations || a.pins == 0
    ensures r.Ok? ==>
              var i := IndexOf(a.gpxLocations, prior);
              && |r.value.gpxLocations| == |a.gpxLocations|
              && 0 <= i && r.value.gpxLocations[i] == moved && prior !in a.gpxLocations[..i]
              && (forall k :: 0 <= k < |a.gpxLocations| && k != i ==> r.value.gpxLocations[k] == a.gpxLocations[k])
              && r.value == a.(gpxLocations := r.value.gpxLocations)
  {
    match SetAt(a.gpxLocations, IndexOf(a.gpxLocations, prior), moved)
    case Err(f) => Err(f)
    case Ok(locs) => UpdatePins(a.(gpxLocations := locs))
  }

  /** The point halfway between two locations, coordinate by coordinate. */
  function Midpoint(l1: Location, l2: Location): (m: Location)
    ensures m.lat - l1.lat == l2.lat - m.lat && m.lon - l1.lon == l2.lon - m.lon
    ensures m.alt - l1.alt == l2.alt - m.alt
  {
    Location((l1.lat + l2.lat) / 2.0, (l1.lon + l2.lon) / 2.0, (l1.alt + l2.alt) / 2.0)
  }

  /** AddLocationBetweenLocationAndNext(i): the midpoint of locations i and
      i + 1 is inserted after location i, gets its elevation (the same
      object is in the list, so the list sees it), and a pin is inserted at
      i + 1 of the pin list.  Indexing outside the locations or inserting
      past the end of the pins throws. */
  function AddBetween(a: App.App, i: int, elevations: string -> Result<seq<real>>,
                      show: real -> string, key: string): (r: Result<App.App>)
    ensures r.Ok? <==>
              && 0 <= i && i + 1 < |a.gpxLocations| && i + 1 <= a.pins
              && Teleport.Elevate(Midpoint(a.gpxLocations[i], a.gpxLocations[i + 1]), elevations, show, key).Ok?
    ensures r.Ok? && 0 <= i && i + 1 < |a.gpxLocations| ==>
              var mid := Teleport.Elevate(Midpoint(a.gpxLocations[i], a.gpxLocations[i + 1]), elevations, show, key).value;
              r.value == a.(gpxLocations := a.gpxLocations[..i + 1] + [mid] + a.gpxLocations[i + 1..],
                            pins := a.pins + 1)
  {
    var locs := a.gpxLocations;
    if !(0 <= i < |locs|) || !(0 <= i + 1 < |locs|) then Err(ArgumentOutOfRange)
    else
      match Teleport.Elevate(Midpoint(locs[i], locs[i + 1]), elevations, show, key)
      case Err(f) => Err(f)
      case Ok(mid) =>
        if !(0 <= i + 1 <= a.pins) then Err(ArgumentOutOfRange)
        else Ok(a.(gpxLocations := locs[..i + 1] + [mid] + locs[i + 1..], pins := a.pins + 1))
  }

  /** AddPinBeforeMenuItem_Click: nothing before the first pin (or a pin not
      found); otherwise a midpoint between the previous location and this
      one, after which the recolouring always succeeds. */
  function AddPinBefore(a: App.App, pin: Location, elevations: string -> Result<seq<real>>,
                        show: real -> string, key: string): (r: Result<App.App>)
    ensures IndexOf(a.gpxLocations, pin) <= 0 ==> r == Ok(a)
    ensures IndexOf(a.gpxLocations, pin) > 0 ==>
              r == AddBetween(a, IndexOf(a.gpxLocations, pin) - 1, elevations, show, key)
  {
    var i := IndexOf(a.gpxLocations, pin);
    if i > 0 then
      match AddBetween(a, i - 1, elevations, show, key)
      case Err(f) => Err(f)
      case Ok(b) => UpdatePins(b)
    else Ok(a)
  }

  /** AddPinAfterMenuItem_Click: nothing after the last pin; otherwise a
      midpoint between this location and the next.  A pin that is not found
      gives index -1, which passes the test and makes the indexer throw. */
  function AddPinAfter(a: App.App, pin: Location, elevations: string -> Result<seq<real>>,
                       show: real -> string, key: string): (r: Result<App.App>)
    ensures IndexOf(a.gpxLocations, pin) >= |a.gpxLocations| - 1 ==> r == Ok(a)
    ensures IndexOf(a.gpxLocations, pin) < |a.gpxLocations| - 1 ==>
              r == AddBetween(a, IndexOf(a.gpxLocations, pin), elevations, show, key)
    ensures pin !in a.gpxLocations && |a.gpxLocations| > 0 ==> r == Err(ArgumentOutOfRange)
  {
    var i := IndexOf(a.gpxLocations, pin);
    if i < |a.gpxLocations| - 1 then
      match AddBetween(a, i, elevations, show, key)
      case Err(f) => Err(f)
      case Ok(b) => UpdatePins(b)
    else Ok(a)
  }

  /** With a pin for every location, a new pin before a pin that is not the
      first lands directly in front of it, and one after a pin that is not
      the last lands directly behind it: only the elevation query can fail. */
  lemma AddPinPlacesMidpoint(a: App.App, pin: Location, elevations: string -> Result<seq<real>>,
                             show: real -> string, key: string)
    requires PinsCover(a)
    requires pin in a.gpxLocations
    ensures var i := IndexOf(a.gpxLocations, pin);
            var r := AddPinBefore(a, pin, elevations, show, key);
            0 < i && Teleport.Elevate(Midpoint(a.gpxLocations[i - 1], pin), elevations, show, key).Ok? ==>
              && r.Ok? && |r.value.gpxLocations| == |a.gpxLocations| + 1
              && r.value.gpxLocations[i] == Teleport.Elevate(Midpoint(a.gpxLocations[i - 1], pin), elevations, show, key).value
              && r.value.gpxLocations[i + 1] == pin
              && PinsCover(r.value)
    ensures var i := IndexOf(a.gpxLocations, pin);
            var r := AddPinAfter(a, pin, elevations, show, key);
            i + 1 < |a.gpxLocations| && Teleport.Elevate(Midpoint(pin, a.gpxLocations[i + 1]), elevations, show, key).Ok? ==>
              && r.Ok? && |r.value.gpxLocations| == |a.gpxLocations| + 1
              && r.value.gpxLocations[i] == pin
              && r.value.gpxLocations[i + 1] == Teleport.Elevate(Midpoint(pin, a.gpxLocations[i + 1]), elevations, show, key).value
              && PinsCover(r.value)
  {
  }

  /** RemovePinMenuItem_Click as written: a pin whose location is not found
      is an error; otherwise the pin and the location are removed and the
      pins recoloured, which throws when the last pin was just removed. */
  function RemovePinAsWritten(a: App.App, pin: Location): (r: Result<App.App>)
    ensures pin !in a.gpxLocations ==> r == Err(Generic)
    ensures pin in a.gpxLocations && a.pins <= 1 ==> r == Err(InvalidOperation)
  {
    var i := IndexOf(a.gpxLocations, pin);
    if i < 0 then Err(Generic)
    else
      var pins := if a.pins > 0 then a.pins - 1 else 0;
      UpdatePins(a.(pins := pins, gpxLocations := a.gpxLocations[..i] + a.gpxLocations[i + 1..]))
  }

  /** RemovePinMenuItem_Click with the recolouring skipped once no pin is
      left, so that the only waypoint can be removed. */
  function RemovePin(a: App.App, pin: Location): (r: Result<App.App>)
    ensures r.Err? <==> pin !in a.gpxLocations
    ensures r.Err? ==> r.fault == Generic
    ensures r.Ok? ==>
              var i := IndexOf(a.gpxLocations, pin);
              && 0 <= i && a.gpxLocations[i] == pin && pin !in a.gpxLocations[..i]
              && r.value.gpxLocations == a.gpxLocations[..i] + a.gpxLocations[i + 1..]
              && multiset(r.value.gpxLocations) + multiset{pin} == multiset(a.gpxLocations)
              && (PinsCover(a) ==> r.value.pins + 1 == a.pins && PinsCover(r.value))
              && r.value == a.(gpxLocations := r.value.gpxLocations, pins := r.value.pins)
  {
    var i := IndexOf(a.gpxLocations, pin);
    if i < 0 then Err(Generic)
    else
      var rest := a.gpxLocations[..i] + a.gpxLocations[i + 1..];
      CutOneMultiset(a.gpxLocations, i);
      Ok(a.(pins := if a.pins > 0 then a.pins - 1 else 0, gpxLocations := rest))
  }

  /** Cutting the item at `i` out of a sequence takes exactly that item out of
      its multiset. */
  lemma CutOneMultiset<T>(s: seq<T>, i: int)
    requires 0 <= i < |s|
    ensures multiset(s[..i] + s[i + 1..]) + multiset{s[i]} == multiset(s)
  {
    assert s == s[..i] + [s[i]] + s[i + 1..];
  }

  /** Removing the only waypoint: the code as written throws from the pin
      recolouring, the corrected version leaves an empty route and no pin. */
  lemma RemoveLastPinFinding(a: App.App, l: Location)
    requires a.gpxLocations == [l] && a.pins == 1
    ensures RemovePinAsWritten(a, l) == Err(InvalidOperation)
    ensures RemovePin(a, l) == Ok(a.(gpxLocations := [], pins := 0))
  {
  }

  /** While another pin remains, the correction changes nothing. */
  lemma RemovePinAgrees(a: App.App, pin: Location)
    requires a.pins >= 2
    ensures RemovePinAsWritten(a, pin) == RemovePin(a, pin)
  {
  }

  // ---------------------------------------------------------------------
  // Saving

  /** What saving produced: the new window state, the serializer's static
      state, and the file written with its text (None when no file name was
      chosen). */
  datatype Saved = Saved(app: App.App, state: Serializer.State, file: Option<(string, string)>)

  /** The track points of the saved file, in order: the coordinates cast to
      decimal by `toDecimal`, with the elevation marked as present. */
  function TrackPoints(locs: seq<Location>, toDecimal: real -> real): (r: seq<Wpt>)
    ensures |r| == |locs|
    ensures forall k :: 0 <= k < |locs| ==>
              r[k] == Wpt(toDecimal(locs[k].lat), toDecimal(locs[k].lon), toDecimal(locs[k].alt), true)
  {
    if |locs| == 0 then []
    else [Wpt(toDecimal(locs[0].lat), toDecimal(locs[0].lon), toDecimal(locs[0].alt), true)]
         + TrackPoints(locs[1..], toDecimal)
  }

  /** The document gpx_save_Click builds: a new GpxClass (`blank`, whose
      generated defaults are not part of this model) whose track list is
      replaced by one track, named by the time stamp, of one segment holding
      the points. */
  function SavedTrack(blank: Gpx, locs: seq<Location>, trkName: string, toDecimal: real -> real): Gpx
  {
    blank.(trk := Some([Trk(Some(trkName), Some([Trkseg(Some(TrackPoints(locs, toDecimal)))]))]))
  }

  /** The locations as they come back from a saved file: each coordinate
      through the decimal cast. */
  function Rounded(locs: seq<Location>, toDecimal: real -> real): (r: seq<Location>)
    ensures |r| == |locs|
    ensures forall k :: 0 <= k < |locs| ==>
              r[k] == Location(toDecimal(locs[k].lat), toDecimal(locs[k].lon), toDecimal(locs[k].alt))
  {
    if |locs| == 0 then []
    else [Location(toDecimal(locs[0].lat), toDecimal(locs[0].lon), toDecimal(locs[0].alt))]
         + Rounded(locs[1..], toDecimal)
  }

  /** gpx_save_Click.  Without a file name nothing happens.  Otherwise the
      track is written by ToFile and the tool returns to teleport mode with
      the locations cleared and saving disabled; the pins stay in their
      list. */
  function GpxSave(a: App.App, fileName: string, trkName: string, blank: Gpx, toDecimal: real -> real,
                   rt: GpxClass.XmlRuntime, st: Serializer.State): (r: Result<Saved>)
    ensures fileName == "" ==> r == Ok(Saved(a, st, None))
    ensures fileName != "" ==>
              var out := GpxClass.ToFile(rt, st, SavedTrack(blank, a.gpxLocations, trkName, toDecimal));
              && (r.Err? <==> out.result.Err?)
              && (r.Ok? ==> r.value.state == out.state && r.value.file == Some((fileName, out.result.value)))
              && (r.Ok? ==> r.value.app == a.(click := App.Teleport, gpxLocations := [], saveEnabled := false))
  {
    if fileName == "" then Ok(Saved(a, st, None))
    else
      var out := GpxClass.ToFile(rt, st, SavedTrack(blank, a.gpxLocations, trkName, toDecimal));
      match out.result
      case Err(f) => Err(f)
      case Ok(text) =>
        Ok(Saved(a.(click := App.Teleport, gpxLocations := [], saveEnabled := false),
                 out.state, Some((fileName, text))))
  }

  /** The points read back from a saved track are the saved locations through
      the decimal cast. */
  lemma SavedTrackPoints(blank: Gpx, locs: seq<Location>, trkName: string, toDecimal: real -> real)
    requires blank.wpt.None? || blank.wpt == Some([])
    ensures App.GpxPoints(GpxClass.ToGpx1_1(SavedTrack(blank, locs, trkName, toDecimal)))
              == Ok(Rounded(locs, toDecimal))
  {
    var pts := TrackPoints(locs, toDecimal);
    var seg := Trkseg(Some(pts));
    var t := Trk(Some(trkName), Some([seg]));
    assert [seg][..0] == [];
    assert App.SegsPoints([]) == Ok([]);
    assert [] + App.PointsOf(pts) == App.PointsOf(pts);
    assert App.SegsPoints([seg]) == Ok(App.PointsOf(pts));
    assert [t][..0] == [];
    assert App.TrksPoints([]) == Ok([]);
    assert App.TrksPoints([t]) == Ok(App.PointsOf(pts));
    assert App.PointsOf(pts) == Rounded(locs, toDecimal);
  }

  /** Saving the locations and loading the file again (as the walking tab
      does) gives back the locations, each coordinate through the decimal
      cast, in the order they were placed; so a cast that keeps the values
      gives exactly the route that was built.  The serializer is assumed to
      read back what it wrote. */
  lemma SaveThenLoad(a: App.App, fileName: string, trkName: string, blank: Gpx, toDecimal: real -> real,
                     rt: GpxClass.XmlRuntime, st: Serializer.State)
    requires fileName != ""
    requires blank.wpt.None? || blank.wpt == Some([])
    requires GpxClass.RoundTrips(rt, GpxClass.ToGpx1_1(SavedTrack(blank, a.gpxLocations, trkName, toDecimal)))
    requires st.cacheSerializers
    ensures GpxSave(a, fileName, trkName, blank, toDecimal, rt, st).Ok?
    ensures var s := GpxSave(a, fileName, trkName, blank, toDecimal, rt, st).value;
            var loaded := GpxClass.FromXml(rt, s.state, s.file.value.1).result;
            && loaded.Ok?
            && App.GpxPoints(loaded.value) == Ok(Rounded(a.gpxLocations, toDecimal))
            && ((forall x :: toDecimal(x) == x) ==> App.GpxPoints(loaded.value) == Ok(a.gpxLocations))
  {
    var track := SavedTrack(blank, a.gpxLocations, trkName, toDecimal);
    GpxClass.SaveLoadRoundTrip(rt, st, track);
    SavedTrackPoints(blank, a.gpxLocations, trkName, toDecimal);
    if forall x :: toDecimal(x) == x {
      assert Rounded(a.gpxLocations, toDecimal) == a.gpxLocations;
    }
  }

  /** Every operation of the tool keeps a pin for every location. */
  lemma ToolKeepsPinsCover(a: App.App, loc: Location, moved: Location, elevations: string -> Result<seq<real>>,
                           show: real -> string, key: string, fileName: string, trkName: string, blank: Gpx,
                           toDecimal: real -> real, rt: GpxClass.XmlRuntime, st: Serializer.State)
    requires PinsCover(a)
    ensures PinsCover(CreateToggle(a)) && PinsCover(RightClick(a))
    ensures AddWaypoint(a, loc, elevations, show, key).Ok? ==>
              PinsCover(AddWaypoint(a, loc, elevations, show, key).value)
    ensures DragRelease(a, loc, moved).Ok? ==> PinsCover(DragRelease(a, loc, moved).value)
    ensures AddPinBefore(a, loc, elevations, show, key).Ok? ==>
              PinsCover(AddPinBefore(a, loc, elevations, show, key).value)
    ensures AddPinAfter(a, loc, elevations, show, key).Ok? ==>
              PinsCover(AddPinAfter(a, loc, elevations, show, key).value)
    ensures RemovePin(a, loc).Ok? ==> PinsCover(RemovePin(a, loc).value)
    ensures GpxSave(a, fileName, trkName, blank, toDecimal, rt, st).Ok? ==>
              PinsCover(GpxSave(a, fileName, trkName, blank, toDecimal, rt, st).value.app)
  {
    InsertKeepsPinsCover(a, loc, elevations, show, key);
  }

  /** Inserting a pin before or after another keeps a pin for every location. */
  lemma InsertKeepsPinsCover(a: App.App, pin: Location, elevations: string -> Result<seq<real>>,
                             show: real -> string, key: string)
    requires PinsCover(a)
    ensures AddPinBefore(a, pin, elevations, show, key).Ok? ==>
              PinsCover(AddPinBefore(a, pin, elevations, show, key).value)
    ensures AddPinAfter(a, pin, elevations, show, key).Ok? ==>
              PinsCover(AddPinAfter(a, pin, elevations, show, key).value)
  {
  }
}
