/** The state of the main window (MainWindow.xaml.cs) and the operations of
    its walking tab (main/walking_tab.cs): loading a GPX file and drawing its
    route, the speed and routing settings, the walk/pause/stop buttons, and
    the timer tick that advances the walking engine and sends the new
    position to every connected device.  Map drawing, message boxes and
    button captions are presentation and are not part of the state. */
module App {
  import opened Base
  import opened Geodesy
  import opened GpxModel
  import Walker
  import DeviceConn

  /** c_fast_walking_speed: the float literal 2.47f widened to double, i.e.
      the exact value of the nearest single-precision number, in m/s. */
  const FastWalkingSpeed: real := 2.4700000286102294921875

  /** The walking timer's interval. */
  const TimerIntervalMs: int := 500

  datatype WalkingState = Active | Paused | Stopped

  datatype ClickMode = CreateGpx | Teleport

  datatype RoutingMode = StopAtEnd | LoopToStart | ReverseWalk

  /** list_item: a search result. */
  datatype ListItem = ListItem(loc: Location, name: string)

  /** The texts of the latitude, longitude and altitude boxes. */
  datatype Coords = Coords(lat: string, lon: string, alt: string)

  /** The window state the modelled code reads and writes.  `engine` is the
      timer callback; its route is the location list of g_polyline, which is
      the same object (draw_gpx_route hands g_polyline to set_route), so it is
      held once.  `pins` is the number of waypoint pushpins in the `pins`
      list of the GPX tool; `registry` is location_service's device list with
      the enabled state of the provisioning button. */
  datatype App = App(
    click: ClickMode,
    walking: WalkingState,
    routing: RoutingMode,
    gpxFileName: Option<string>,
    engine: Walker.Walker,
    timerRunning: bool,
    optionEnabled: bool,
    gpxLocations: seq<Location>,
    pins: nat,
    saveEnabled: bool,
    teleportPin: Option<Location>,
    queryResult: seq<ListItem>,
    coords: Coords,
    registry: DeviceConn.Registry)

  /** The constructor: teleport mode, stopped, reverse walking, the engine
      created on the (still null) polyline at walking speed, the timer
      created and stopped, the save button disabled, and the provisioning
      button disabled unless a device is already known.  The text boxes keep
      what the window layout puts in them. */
  function Initial(coords: Coords, reg: DeviceConn.Registry): (a: App)
    ensures a.click == Teleport && a.walking == Stopped && a.routing == ReverseWalk
    ensures a.gpxFileName == None && a.engine.route == None
    ensures a.engine.speed == FastWalkingSpeed
    ensures !a.timerRunning && a.optionEnabled && !a.saveEnabled
    ensures a.gpxLocations == [] && a.queryResult == [] && a.teleportPin == None
    ensures a.registry.devices == reg.devices
    ensures |reg.devices| < 1 ==> !a.registry.provEnabled
    ensures Consistent(a)
  {
    var engine := Walker.Create(None).value.(speed := FastWalkingSpeed);
    var prov := if |reg.devices| < 1 then false else reg.provEnabled;
    App(Teleport, Stopped, ReverseWalk, None, engine, false, true, [], 0, false, None, [],
        coords, DeviceConn.Registry(reg.devices, prov))
  }

  /** What the walk/pause/stop buttons maintain: the timer runs exactly while
      walking is active, and the load button is enabled exactly while it is
      not. */
  predicate Consistent(a: App)
  {
    (a.timerRunning <==> a.walking == Active) && (a.optionEnabled <==> a.walking != Active)
  }

  // ---------------------------------------------------------------------
  // Reading a GPX file

  /** The locations of a list of waypoints, each as (lat, lon, ele). */
  function PointsOf(ws: seq<Wpt>): (r: seq<Location>)
    ensures |r| == |ws|
    ensures forall k :: 0 <= k < |ws| ==> r[k] == Location(ws[k].lat, ws[k].lon, ws[k].ele)
  {
    if |ws| == 0 then [] else PointsOf(ws[..|ws| - 1]) + [Location(ws[|ws| - 1].lat, ws[|ws| - 1].lon, ws[|ws| - 1].ele)]
  }

  /** The points of a list of track segments, segment by segment; a null
      point list is dereferenced by the foreach. */
  function SegsPoints(segs: seq<Trkseg>): (r: Result<seq<Location>>)
    ensures r.Err? ==> r.fault == NullReference
    ensures r.Err? <==> exists k :: 0 <= k < |segs| && segs[k].trkpt.None?
  {
    if |segs| == 0 then Ok([])
    else
      var front := SegsPoints(segs[..|segs| - 1]);
      var last := segs[|segs| - 1];
      if front.Err? then
        assert forall k :: 0 <= k < |segs| - 1 ==> segs[k] == segs[..|segs| - 1][k];
        front
      else if last.trkpt.None? then Err(NullReference)
      else
        assert forall k :: 0 <= k < |segs| - 1 ==> segs[k] == segs[..|segs| - 1][k];
        Ok(front.value + PointsOf(last.trkpt.value))
  }

  /** A track the foreach dereferences null in: its segment list, or the
      point list of one of its segments, is null. */
  predicate TrkBroken(t: Trk)
  {
    t.trkseg.None? || exists j :: 0 <= j < |t.trkseg.value| && t.trkseg.value[j].trkpt.None?
  }

  /** The points of a list of tracks, track by track; reading fails exactly
      when some track is broken. */
  function TrksPoints(trks: seq<Trk>): (r: Result<seq<Location>>)
    ensures r.Err? ==> r.fault == NullReference
    ensures r.Err? <==> exists k :: 0 <= k < |trks| && TrkBroken(trks[k])
  {
    if |trks| == 0 then Ok([])
    else
      var front := TrksPoints(trks[..|trks| - 1]);
      var last := trks[|trks| - 1];
      assert forall k :: 0 <= k < |trks| - 1 ==> trks[k] == trks[..|trks| - 1][k];
      if front.Err? then front
      else if last.trkseg.None? then Err(NullReference)
      else
        match SegsPoints(last.trkseg.value)
        case Err(f) => Err(f)
        case Ok(pts) => Ok(front.value + pts)
  }

  /** read_gpx_coords, as a reference: the waypoints first, then every track
      point of every segment of every track, in document order. */
  function GpxPoints(g: Gpx): (r: Result<seq<Location>>)
    ensures g.wpt.None? || g.trk.None? ==> r == Err(NullReference)
    ensures r.Ok? ==> |g.wpt.value| <= |r.value| && r.value[..|g.wpt.value|] == PointsOf(g.wpt.value)
    ensures r.Err? ==> r.fault == NullReference
  {
    if g.wpt.None? || g.trk.None? then Err(NullReference)
    else
      match TrksPoints(g.trk.value)
      case Err(f) => Err(f)
      case Ok(pts) =>
        var r := PointsOf(g.wpt.value) + pts;
        assert r[..|g.wpt.value|] == PointsOf(g.wpt.value);
        Ok(r)
  }

  /** read_gpx_coords: the waypoint loop, then the track loops. */
  method ReadGpxCoords(g: Gpx) returns (r: Result<seq<Location>>)
    ensures r == GpxPoints(g)
  {
    if g.wpt.None? {
      return Err(NullReference);
    }
    var lc := ReadPoints(g.wpt.value);
    if g.trk.None? {
      return Err(NullReference);
    }
    var rest := ReadTracks(g.trk.value);
    if rest.Err? {
      return Err(rest.fault);
    }
    return Ok(lc + rest.value);
  }

  /** The innermost foreach: one location per point, in order. */
  method ReadPoints(ws: seq<Wpt>) returns (lc: seq<Location>)
    ensures lc == PointsOf(ws)
  {
    lc := [];
    var i := 0;
    while i < |ws|
      invariant 0 <= i <= |ws|
      invariant lc == PointsOf(ws[..i])
    {
      assert ws[..i + 1][..i] == ws[..i];
      lc := lc + [Location(ws[i].lat, ws[i].lon, ws[i].ele)];
      i := i + 1;
    }
    assert ws[..|ws|] == ws;
  }

  /** The foreach over the segments of one track. */
  method ReadSegments(segs: seq<Trkseg>) returns (r: Result<seq<Location>>)
    ensures r == SegsPoints(segs)
  {
    var lc: seq<Location> := [];
    var s := 0;
    while s < |segs|
      invariant 0 <= s <= |segs|
      invariant SegsPoints(segs[..s]) == Ok(lc)
    {
      assert segs[..s + 1][..s] == segs[..s];
      if segs[s].trkpt.None? {
        assert SegsPoints(segs).Err?;
        return Err(NullReference);
      }
      var pts := ReadPoints(segs[s].trkpt.value);
      lc := lc + pts;
      s := s + 1;
    }
    assert segs[..|segs|] == segs;
    return Ok(lc);
  }

  /** The foreach over the tracks. */
  method ReadTracks(trks: seq<Trk>) returns (r: Result<seq<Location>>)
    ensures r == TrksPoints(trks)
  {
    var lc: seq<Location> := [];
    var t := 0;
    while t < |trks|
      invariant 0 <= t <= |trks|
      invariant TrksPoints(trks[..t]) == Ok(lc)
    {
      assert trks[..t + 1][..t] == trks[..t];
      if trks[t].trkseg.None? {
        assert TrksPoints(trks[..t + 1]).Err?;
        TrksPointsErrPrefix(trks, t + 1);
        return Err(NullReference);
      }
      var pts := ReadSegments(trks[t].trkseg.value);
      if pts.Err? {
        assert TrksPoints(trks[..t + 1]).Err?;
        TrksPointsErrPrefix(trks, t + 1);
        return Err(pts.fault);
      }
      lc := lc + pts.value;
      t := t + 1;
    }
    assert trks[..|trks|] == trks;
    return Ok(lc);
  }

  /** Once a prefix of the tracks fails, every longer prefix fails. */
  lemma {:induction false} TrksPointsErrPrefix(trks: seq<Trk>, n: int)
    requires 0 <= n <= |trks|
    requires TrksPoints(trks[..n]).Err?
    ensures TrksPoints(trks).Err?
    decreases |trks| - n
  {
    if n < |trks| {
      assert trks[..n + 1][..n] == trks[..n];
      TrksPointsErrPrefix(trks, n + 1);
    } else {
      assert trks[..n] == trks;
    }
  }

  // ---------------------------------------------------------------------
  // Loading and drawing a route

  /** draw_gpx_route.  `load` is the outcome of GpxClass.FromFile for a file
      name (the file system is not modelled).  Nothing happens without a
      file name; otherwise the coordinates are read, the map is centred on
      the first one (an empty route makes that index throw), and the engine
      is set on the new route with walking stopped. */
  function DrawGpxRoute(a: App, load: string -> Result<Gpx>): (r: Result<App>)
    ensures a.gpxFileName.None? || a.gpxFileName == Some("") ==> r == Ok(a)
    ensures r.Ok? && a.gpxFileName.Some? && a.gpxFileName != Some("") ==>
              && load(a.gpxFileName.value).Ok?
              && GpxPoints(load(a.gpxFileName.value).value).Ok?
              && var pts := GpxPoints(load(a.gpxFileName.value).value).value;
              && |pts| > 0
              && r.value == a.(engine := a.engine.(route := Some(pts), cur := Some(pts[0]), seg := 0),
                               walking := Stopped)
    ensures r.Err? <==> a.gpxFileName.Some? && a.gpxFileName != Some("")
                        && (load(a.gpxFileName.value).Err?
                            || GpxPoints(load(a.gpxFileName.value).value).Err?
                            || GpxPoints(load(a.gpxFileName.value).value).value == [])
  {
    if a.gpxFileName.None? || a.gpxFileName == Some("") then Ok(a)
    else
      match load(a.gpxFileName.value)
      case Err(f) => Err(f)
      case Ok(g) =>
        match GpxPoints(g)
        case Err(f) => Err(f)
        case Ok(pts) =>
          if |pts| == 0 then Err(ArgumentOutOfRange)
          else
            var engine := Walker.SetRoute(a.engine, Some(pts)).value;
            Ok(a.(engine := engine, walking := Stopped))
  }

  /** OptionDlg.  A click on the disabled load button is never delivered.
      `dialogOk` is whether the dialog returned OK, `chosen` its FileName; a
      route is loaded only for a name that is non-null and differs from the
      current one. */
  function OptionDlg(a: App, dialogOk: bool, chosen: Option<string>, load: string -> Result<Gpx>): (r: Result<App>)
    ensures !a.optionEnabled || !dialogOk || chosen.None? || chosen == a.gpxFileName ==> r == Ok(a)
    ensures a.optionEnabled && dialogOk && chosen.Some? && chosen != a.gpxFileName ==>
              r == DrawGpxRoute(a.(gpxFileName := chosen), load)
  {
    if !a.optionEnabled || !dialogOk then Ok(a)
    else if a.gpxFileName != chosen && chosen.Some? then DrawGpxRoute(a.(gpxFileName := chosen), load)
    else Ok(a)
  }

  /** A route loaded from a file that reads without error is walkable from its
      first point when it has at least two points. */
  lemma LoadedRouteIsWalkable(a: App, name: string, load: string -> Result<Gpx>)
    requires a.optionEnabled && Some(name) != a.gpxFileName && name != ""
    requires load(name).Ok? && GpxPoints(load(name).value).Ok?
    requires |GpxPoints(load(name).value).value| >= 2
    ensures OptionDlg(a, true, Some(name), load).Ok?
    ensures var b := OptionDlg(a, true, Some(name), load).value;
            && Walker.Valid(b.engine)
            && b.engine.cur == Some(GpxPoints(load(name).value).value[0])
            && b.walking == Stopped && b.gpxFileName == Some(name)
            && b.engine.speed == a.engine.speed
  {
  }

  // ---------------------------------------------------------------------
  // Speed and routing

  /** The three speed buttons: walking, running (three times) and driving
      (twelve times). */
  function SetWalkingSpeed(a: App): (r: App)
    ensures r.engine.speed == FastWalkingSpeed
    ensures r.(engine := r.engine.(speed := a.engine.speed)) == a
  {
    a.(engine := a.engine.(speed := FastWalkingSpeed))
  }

  function SetRunningSpeed(a: App): (r: App)
    ensures r.engine.speed == 3.0 * SetWalkingSpeed(a).engine.speed
    ensures r.(engine := r.engine.(speed := a.engine.speed)) == a
  {
    a.(engine := a.engine.(speed := FastWalkingSpeed * 3.0))
  }

  function SetDrivingSpeed(a: App): (r: App)
    ensures r.engine.speed == 12.0 * SetWalkingSpeed(a).engine.speed
    ensures r.(engine := r.engine.(speed := a.engine.speed)) == a
  {
    a.(engine := a.engine.(speed := FastWalkingSpeed * 12.0))
  }

  /** The three routing buttons only record the choice. */
  function SetRouting(a: App, m: RoutingMode): (r: App)
    ensures r.routing == m && r.(routing := a.routing) == a
  {
    a.(routing := m)
  }

  // ---------------------------------------------------------------------
  // Walking

  /** walk_Button_Click.  Without a file name nothing happens.  The engine
      is given g_polyline when it has no route, which is the same route, so
      that leaves it as it is.  Stopped or paused walking becomes active with
      the timer running and the load button disabled; active walking pauses,
      stopping the timer and enabling the load button. */
  function WalkButton(a: App): (r: App)
    ensures a.gpxFileName.None? ==> r == a
    ensures a.gpxFileName.Some? ==>
              r.walking == (if a.walking == Active then Paused else Active)
              && r.timerRunning == (r.walking == Active)
              && r.optionEnabled == (r.walking != Active)
              && r.(walking := a.walking, timerRunning := a.timerRunning, optionEnabled := a.optionEnabled) == a
  {
    if a.gpxFileName.None? then a
    else
      var engine := if a.engine.route.None? then Walker.SetRoute(a.engine, a.engine.route).value else a.engine;
      match a.walking
      case Stopped => a.(engine := engine, timerRunning := true, optionEnabled := false, walking := Active)
      case Paused => a.(engine := engine, timerRunning := true, optionEnabled := false, walking := Active)
      case Active => a.(engine := engine, timerRunning := false, optionEnabled := true, walking := Paused)
  }

  /** Pausing and resuming returns to where walking was. */
  lemma PauseResume(a: App)
    requires a.gpxFileName.Some? && a.walking == Active && Consistent(a)
    ensures WalkButton(a).walking == Paused
    ensures WalkButton(WalkButton(a)) == a
  {
  }

  /** stop_Button_Click (switch_walking_state): active or paused walking
      stops, the timer stops, the load button is enabled, and the engine is
      reset to the start of its route; stopped walking is left alone. */
  function StopButton(a: App): (r: Result<App>)
    ensures a.walking == Stopped ==> r == Ok(a)
    ensures a.walking != Stopped && a.engine.route.Some? && |a.engine.route.value| > 0 ==>
              r == Ok(a.(walking := Stopped, timerRunning := false, optionEnabled := true,
                         engine := a.engine.(cur := Some(a.engine.route.value[0]), seg := 0)))
    ensures a.walking != Stopped && a.engine.route.None? ==>
              r == Ok(a.(walking := Stopped, timerRunning := false, optionEnabled := true))
  {
    match a.walking
    case Stopped => Ok(a)
    case _ =>
      match Walker.Reset(a.engine)
      case Err(f) => Err(f)
      case Ok(engine) => Ok(a.(walking := Stopped, timerRunning := false, optionEnabled := true, engine := engine))
  }

  /** The walking buttons, the settings and a successful route load keep the
      timer and the load button in step with the walking state. */
  lemma ButtonsKeepConsistent(a: App, m: RoutingMode, dialogOk: bool, chosen: Option<string>,
                              load: string -> Result<Gpx>)
    requires Consistent(a)
    requires a.engine.route.None? || |a.engine.route.value| > 0
    ensures Consistent(WalkButton(a))
    ensures StopButton(a).Ok? && Consistent(StopButton(a).value)
    ensures Consistent(SetWalkingSpeed(a)) && Consistent(SetRunningSpeed(a))
    ensures Consistent(SetDrivingSpeed(a)) && Consistent(SetRouting(a, m))
    ensures OptionDlg(a, dialogOk, chosen, load).Ok? ==> Consistent(OptionDlg(a, dialogOk, chosen, load).value)
  {
    assert Consistent(WalkButton(a));
    assert Consistent(StopButton(a).value);
    LoadKeepsConsistent(a, dialogOk, chosen, load);
  }

  /** A successful route load leaves the walking state stopped or unchanged. */
  lemma LoadKeepsConsistent(a: App, dialogOk: bool, chosen: Option<string>, load: string -> Result<Gpx>)
    requires Consistent(a)
    ensures OptionDlg(a, dialogOk, chosen, load).Ok? ==> Consistent(OptionDlg(a, dialogOk, chosen, load).value)
  {
    var r := OptionDlg(a, dialogOk, chosen, load);
    if r.Ok? && a.optionEnabled && dialogOk && chosen.Some? && chosen != a.gpxFileName {
      var b := a.(gpxFileName := chosen);
      assert r == DrawGpxRoute(b, load);
      assert r.value == b || r.value.walking == Stopped;
    }
  }

  // ---------------------------------------------------------------------
  // The timer tick

  /** What a tick produces: the new window state and the bytes sent to the
      devices. */
  datatype Effect = Effect(app: App, sends: seq<DeviceConn.Send>)

  /** one_step with GPS drift off: the engine takes one step and the new
      current location, its coordinates formatted by `show` (the culture's
      double.ToString), is sent to every connected device.  An exception in
      the step ends the program. */
  function Tick(t: Trig, a: App, native: string -> DeviceConn.Native, show: real -> string): (r: Result<Effect>)
    ensures r.Ok? <==> Walker.Step(t, a.engine).Ok?
    ensures r.Ok? ==> r.value.app == a.(engine := Walker.Step(t, a.engine).value)
  {
    match Walker.Step(t, a.engine)
    case Err(f) => Err(f)
    case Ok(e) =>
      var here := e.cur.value;
      Ok(Effect(a.(engine := e),
                     DeviceConn.UpdateLocation(a.registry.devices, native, show(here.lat), show(here.lon))))
  }

  /** The timer fires every 500 ms and the engine's step is half the speed:
      one tick covers exactly the distance walked in one interval. */
  lemma TickCoversInterval(w: Walker.Walker)
    ensures Walker.StepLength(w) == w.speed * (TimerIntervalMs as real / 1000.0)
  {
  }

  /** The routing mode chosen with the three routing buttons has no effect on
      walking: a tick behaves the same whatever mode is set. */
  lemma TickIgnoresRouting(t: Trig, a: App, m: RoutingMode, native: string -> DeviceConn.Native,
                           show: real -> string)
    ensures Tick(t, SetRouting(a, m), native, show).Ok? <==> Tick(t, a, native, show).Ok?
    ensures Tick(t, a, native, show).Ok? ==>
              Tick(t, SetRouting(a, m), native, show).value
                == Effect(Tick(t, a, native, show).value.app.(routing := m),
                               Tick(t, a, native, show).value.sends)
  {
  }

  /** From a walkable engine a tick succeeds and leaves the engine walkable,
      so once a route of two or more points is loaded no tick ever fails. */
  lemma TickKeepsWalkable(t: Trig, a: App, native: string -> DeviceConn.Native, show: real -> string)
    requires Walker.Valid(a.engine)
    ensures Tick(t, a, native, show).Ok?
    ensures Walker.Valid(Tick(t, a, native, show).value.app.engine)
  {
    Walker.StepPreservesValid(t, a.engine);
  }

  /** Each device that accepts the simulated location receives, in device
      order, one frame carrying the engine's new position as formatted by
      `show`. */
  lemma TickSendsNewPosition(t: Trig, a: App, native: string -> DeviceConn.Native, show: real -> string, k: int)
    requires Tick(t, a, native, show).Ok?
    requires 0 <= k < |DeviceConn.ServedDevices(a.registry.devices, native)|
    ensures var sends := Tick(t, a, native, show).value.sends;
            var here := Tick(t, a, native, show).value.app.engine.cur.value;
            && |sends| == 5 * |DeviceConn.ServedDevices(a.registry.devices, native)|
            && sends[5 * k..5 * k + 5]
               == DeviceConn.LocationFrame(DeviceConn.ServedDevices(a.registry.devices, native)[k].udid,
                                           show(here.lat), show(here.lon))
  {
  }
}
