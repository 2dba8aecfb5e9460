/** The teleport tab (main/teleport_tab.cs): the Bing Maps URLs for the
    elevation and location queries, the search for a place by name, picking
    a search result, and teleporting to the coordinates in the text boxes or
    to a point double-clicked on the map.  The web service is not modelled:
    what a query URL returns is a parameter (a geocoding or elevation
    function of the URL, whose Err is any exception the request, the XML
    parsing or the number conversion raises).  `show` is double.ToString in
    the current culture and `parse` is Convert.ToDouble, None when it
    throws. */
module Teleport {
  import opened Base
  import opened Geodesy
  import opened Text
  import App
  import DeviceConn

  /** BASE_URI_STRING of spell_elevation_query_url up to its first argument;
      the rest of the format string follows the points. */
  const ElevationPrefix: string := "http://dev.virtualearth.net/REST/v1/Elevation/List?points="

  /** The constant part of the geocoding request before the query text. */
  const LocationsPrefix: string := "http://dev.virtualearth.net/REST/v1/Locations/"

  /** string.Format(BASE_URI_STRING, points, key). */
  function ElevationUrl(points: string, key: string): string
  {
    ElevationPrefix + points + "&key=" + key + "&o=xml"
  }

  /** One point of an elevation query: "lat,lon". */
  function PointText(show: real -> string, loc: Location): string
  {
    show(loc.lat) + "," + show(loc.lon)
  }

  /** The "lat,lon" texts of the items, in order. */
  function PointTexts(show: real -> string, items: seq<App.ListItem>): (r: seq<string>)
    ensures |r| == |items|
    ensures forall k :: 0 <= k < |items| ==> r[k] == PointText(show, items[k].loc)
  {
    if |items| == 0 then [] else [PointText(show, items[0].loc)] + PointTexts(show, items[1..])
  }

  /** The coordinate texts of the items: latitude, then longitude, item by
      item. */
  function CoordTexts(show: real -> string, items: seq<App.ListItem>): (r: seq<string>)
    ensures |r| == 2 * |items|
  {
    if |items| == 0 then []
    else [show(items[0].loc.lat), show(items[0].loc.lon)] + CoordTexts(show, items[1..])
  }

  /** The elevation query for a list of items, as a reference: the points
      joined by commas. */
  function ElevationUrlFor(show: real -> string, items: seq<App.ListItem>, key: string): string
  {
    ElevationUrl(Join(PointTexts(show, items), ","), key)
  }

  /** spell_elevation_query_url(List<list_item>): a comma goes before every
      point but the first. */
  method ElevationQueryUrl(show: real -> string, items: seq<App.ListItem>, key: string) returns (url: string)
    ensures url == ElevationUrlFor(show, items, key)
    ensures |items| == 0 ==> url == ElevationUrl("", key)
  {
    var locString := "";
    var ndx := 0;
    while ndx < |items|
      invariant 0 <= ndx <= |items|
      invariant locString == Join(PointTexts(show, items[..ndx]), ",")
    {
      var prefix := PointTexts(show, items[..ndx]);
      var point := PointText(show, items[ndx].loc);
      PointTextsSnoc(show, items, ndx);
      if ndx != 0 {
        JoinSnoc(prefix, point, ",");
        locString := locString + ",";
      } else {
        assert |prefix| == 0;
      }
      locString := locString + show(items[ndx].loc.lat) + "," + show(items[ndx].loc.lon);
      assert ndx == 0 ==> locString == point;
      assert ndx != 0 ==> locString == Join(prefix, ",") + "," + point;
      ndx := ndx + 1;
    }
    assert items[..|items|] == items;
    url := ElevationUrl(locString, key);
  }

  /** The points of one more item are the points so far and its point. */
  lemma PointTextsSnoc(show: real -> string, items: seq<App.ListItem>, n: int)
    requires 0 <= n < |items|
    ensures PointTexts(show, items[..n + 1]) == PointTexts(show, items[..n]) + [PointText(show, items[n].loc)]
  {
  }

  /** spell_elevation_query_url(Location): the query for a single point. */
  function ElevationUrlOne(show: real -> string, loc: Location, key: string): (r: string)
    ensures forall name :: r == ElevationUrlFor(show, [App.ListItem(loc, name)], key)
  {
    ElevationUrl(PointText(show, loc), key)
  }

  /** The points of a query are two coordinate texts each, joined by commas:
      as long as no coordinate text holds a comma (which the decimal comma of
      some cultures breaks), the service can split the list back into exactly
      the coordinates that were sent. */
  lemma PointsSplitBack(show: real -> string, items: seq<App.ListItem>)
    requires |items| >= 1
    requires forall k :: 0 <= k < |items| ==> ',' !in show(items[k].loc.lat) && ',' !in show(items[k].loc.lon)
    ensures Split(Join(PointTexts(show, items), ","), ',') == CoordTexts(show, items)
  {
    JoinPoints(show, items);
    CoordTextsNoComma(show, items);
    SplitJoin(CoordTexts(show, items), ',');
  }

  /** Joining the points with commas is joining all the coordinates with
      commas. */
  lemma {:induction false} JoinPoints(show: real -> string, items: seq<App.ListItem>)
    requires |items| >= 1
    ensures Join(PointTexts(show, items), ",") == Join(CoordTexts(show, items), ",")
    decreases |items|
  {
    var la, lo := show(items[0].loc.lat), show(items[0].loc.lon);
    var rest := CoordTexts(show, items[1..]);
    assert CoordTexts(show, items) == [la, lo] + rest;
    assert ([la, lo] + rest)[1..] == [lo] + rest;
    if |items| == 1 {
      assert rest == [];
      assert PointTexts(show, items) == [la + "," + lo];
      assert Join([lo], ",") == lo;
    } else {
      JoinPoints(show, items[1..]);
      assert PointTexts(show, items)[1..] == PointTexts(show, items[1..]);
      assert ([lo] + rest)[1..] == rest;
      assert |rest| >= 2;
    }
  }

  /** No coordinate text of the items holds a comma when none of their
      latitudes and longitudes formats with one. */
  lemma {:induction false} CoordTextsNoComma(show: real -> string, items: seq<App.ListItem>)
    requires forall k :: 0 <= k < |items| ==> ',' !in show(items[k].loc.lat) && ',' !in show(items[k].loc.lon)
    ensures forall j :: 0 <= j < |CoordTexts(show, items)| ==> ',' !in CoordTexts(show, items)[j]
    decreases |items|
  {
    if |items| > 0 {
      assert forall k :: 0 <= k < |items| - 1 ==> items[1..][k] == items[k + 1];
      CoordTextsNoComma(show, items[1..]);
      var c := CoordTexts(show, items);
      assert c == [show(items[0].loc.lat), show(items[0].loc.lon)] + CoordTexts(show, items[1..]);
      forall j | 0 <= j < |c|
        ensures ',' !in c[j]
      {
        if j >= 2 {
          assert c[j] == CoordTexts(show, items[1..])[j - 2];
        }
      }
    }
  }

  /** get_elevations on the single-point query for `loc`, then the altitude
      update of teleport_click and CreatePushpinAndAddToMap: the first
      elevation returned, if any, becomes the location's altitude. */
  function Elevate(loc: Location, elevations: string -> Result<seq<real>>, show: real -> string,
                   key: string): (r: Result<Location>)
    ensures r.Err? <==> elevations(ElevationUrlOne(show, loc, key)).Err?
    ensures r.Ok? ==> r.value.lat == loc.lat && r.value.lon == loc.lon
    ensures r.Ok? ==> var es := elevations(ElevationUrlOne(show, loc, key)).value;
                      r.value.alt == if |es| > 0 then es[0] else loc.alt
  {
    match elevations(ElevationUrlOne(show, loc, key))
    case Err(f) => Err(f)
    case Ok(es) => Ok(if |es| > 0 then loc.(alt := es[0]) else loc)
  }

  // ---------------------------------------------------------------------
  // Searching for a place

  /** One Location element of a geocoding response: its Name, Latitude and
      Longitude. */
  datatype Hit = Hit(name: string, lat: real, lon: real)

  /** The geocoding request: the search text with surrounding white space
      trimmed, then the key. */
  function SearchUrl(text: string, key: string): string
  {
    LocationsPrefix + Trim(text) + "?o=xml&key=" + key
  }

  /** The list items built from the hits, each at a new Location's altitude
      0. */
  function ItemsOf(hits: seq<Hit>): (r: seq<App.ListItem>)
    ensures |r| == |hits|
    ensures forall k :: 0 <= k < |hits| ==>
              r[k] == App.ListItem(Location(hits[k].lat, hits[k].lon, 0.0), hits[k].name)
  {
    if |hits| == 0 then []
    else [App.ListItem(Location(hits[0].lat, hits[0].lon, 0.0), hits[0].name)] + ItemsOf(hits[1..])
  }

  /** The loop that gives each search result the elevation at the same
      position of the elevation list as its altitude. */
  function WithAltitudes(items: seq<App.ListItem>, alts: seq<real>): (r: seq<App.ListItem>)
    requires |alts| >= |items|
    ensures |r| == |items|
    ensures forall k :: 0 <= k < |items| ==> r[k] == items[k].(loc := items[k].loc.(alt := alts[k]))
  {
    if |items| == 0 then []
    else [items[0].(loc := items[0].loc.(alt := alts[0]))] + WithAltitudes(items[1..], alts[1..])
  }

  /** search_Button_Click.  The previous results are cleared first; an empty
      search box stops there, and so does a response without locations.
      Otherwise one item per location is kept, and the elevation of every
      item is asked for in one query; a reply with fewer elevations than
      items makes the altitude loop index past its end. */
  function Search(a: App.App, text: string, key: string, geocode: string -> Result<seq<Hit>>,
                  elevations: string -> Result<seq<real>>, show: real -> string): (r: Result<App.App>)
    ensures r.Ok? ==> r.value == a.(queryResult := r.value.queryResult)
    ensures |text| == 0 ==> r == Ok(a.(queryResult := []))
    ensures |text| > 0 ==>
              var found := geocode(SearchUrl(text, key));
              && (found.Err? ==> r == Err(found.fault))
              && (found.Ok? && |found.value| == 0 ==> r == Ok(a.(queryResult := [])))
              && (found.Ok? && |found.value| > 0 ==>
                    var hits := found.value;
                    var alts := elevations(ElevationUrlFor(show, ItemsOf(hits), key));
                    && (alts.Err? ==> r == Err(alts.fault))
                    && (alts.Ok? && |alts.value| < |hits| ==> r == Err(ArgumentOutOfRange))
                    && (alts.Ok? && |alts.value| >= |hits| ==>
                          && r.Ok? && |r.value.queryResult| == |hits|
                          && forall k :: 0 <= k < |hits| ==>
                               r.value.queryResult[k]
                                 == App.ListItem(Location(hits[k].lat, hits[k].lon, alts.value[k]), hits[k].name)))
  {
    var cleared := a.(queryResult := []);
    if |text| <= 0 then Ok(cleared)
    else
      match geocode(SearchUrl(text, key))
      case Err(f) => Err(f)
      case Ok(hits) =>
        if |hits| <= 0 then Ok(cleared)
        else
          var items := ItemsOf(hits);
          match elevations(ElevationUrlFor(show, items, key))
          case Err(f) => Err(f)
          case Ok(alts) =>
            if |alts| < |items| then Err(ArgumentOutOfRange)
            else Ok(cleared.(queryResult := WithAltitudes(items, alts)))
  }

  /** search_box_key_down_handler: Return runs the search; any other key is
      ignored. */
  function SearchKey(a: App.App, isReturn: bool, text: string, key: string,
                     geocode: string -> Result<seq<Hit>>, elevations: string -> Result<seq<real>>,
                     show: real -> string): Result<App.App>
  {
    if isReturn then Search(a, text, key, geocode, elevations, show) else Ok(a)
  }

  /** search_result_list_SelectionChanged: with results and a selection, the
      selected item's coordinates are written to the three text boxes.  The
      list box shows one line per result, so the selected index is within
      range; an index past the results would make the indexer throw. */
  function SelectionChanged(a: App.App, index: int, show: real -> string): (r: Result<App.App>)
    ensures |a.queryResult| == 0 || index < 0 ==> r == Ok(a)
    ensures r.Err? <==> 0 <= index && 0 < |a.queryResult| <= index
    ensures r.Err? ==> r.fault == ArgumentOutOfRange
    ensures 0 <= index < |a.queryResult| ==>
              var loc := a.queryResult[index].loc;
              r == Ok(a.(coords := App.Coords(show(loc.lat), show(loc.lon), show(loc.alt))))
  {
    if |a.queryResult| <= 0 || index < 0 then Ok(a)
    else if index >= |a.queryResult| then Err(ArgumentOutOfRange)
    else
      var loc := a.queryResult[index].loc;
      Ok(a.(coords := App.Coords(show(loc.lat), show(loc.lon), show(loc.alt))))
  }

  /** Selecting the i-th result of a successful search fills the boxes with
      the i-th location found and the i-th elevation returned for it. */
  lemma SearchThenSelect(a: App.App, text: string, key: string, geocode: string -> Result<seq<Hit>>,
                         elevations: string -> Result<seq<real>>, show: real -> string, i: int)
    requires Search(a, text, key, geocode, elevations, show).Ok?
    requires |text| > 0 && geocode(SearchUrl(text, key)).Ok?
    requires 0 <= i < |geocode(SearchUrl(text, key)).value|
    ensures var hit := geocode(SearchUrl(text, key)).value[i];
            var alts := elevations(ElevationUrlFor(show, ItemsOf(geocode(SearchUrl(text, key)).value), key));
            && alts.Ok? && i < |alts.value|
            && SelectionChanged(Search(a, text, key, geocode, elevations, show).value, i, show)
               == Ok(a.(queryResult := Search(a, text, key, geocode, elevations, show).value.queryResult,
                        coords := App.Coords(show(hit.lat), show(hit.lon), show(alts.value[i]))))
  {
  }

  // ---------------------------------------------------------------------
  // Teleporting

  /** tele_Button_Click: only while walking is stopped, and only when all
      three boxes convert to numbers; the teleport pin is placed at the
      location read and that location, formatted again, is sent to every
      device. */
  function TeleButton(a: App.App, parse: string -> Option<real>, native: string -> DeviceConn.Native,
                      show: real -> string): (r: App.Effect)
    ensures a.walking != App.Stopped ==> r == App.Effect(a, [])
    ensures parse(a.coords.lat).None? || parse(a.coords.lon).None? || parse(a.coords.alt).None? ==>
              r == App.Effect(a, [])
    ensures r.sends != [] ==> a.walking == App.Stopped
    ensures a.walking == App.Stopped && parse(a.coords.lat).Some? && parse(a.coords.lon).Some?
            && parse(a.coords.alt).Some? ==>
              var tele := Location(parse(a.coords.lat).value, parse(a.coords.lon).value, parse(a.coords.alt).value);
              && r.app == a.(teleportPin := Some(tele))
              && |r.sends| == 5 * |DeviceConn.ServedDevices(a.registry.devices, native)|
              && forall k :: 0 <= k < |DeviceConn.ServedDevices(a.registry.devices, native)| ==>
                   r.sends[5 * k..5 * k + 5]
                     == DeviceConn.LocationFrame(DeviceConn.ServedDevices(a.registry.devices, native)[k].udid,
                                                 show(tele.lat), show(tele.lon))
  {
    if a.walking != App.Stopped then App.Effect(a, [])
    else
      match (parse(a.coords.lat), parse(a.coords.lon), parse(a.coords.alt))
      case (Some(la), Some(lo), Some(al)) =>
        var tele := Location(la, lo, al);
        App.Effect(a.(teleportPin := Some(tele)),
                   DeviceConn.UpdateLocation(a.registry.devices, native, show(la), show(lo)))
      case _ => App.Effect(a, [])
  }

  /** teleport_click: refused only while walking is active (a paused walk
      may teleport).  The clicked point gets the elevation the service
      reports for it, the teleport pin and the three boxes show it, and it is
      sent to every device. */
  function TeleportClick(a: App.App, loc: Location, elevations: string -> Result<seq<real>>, key: string,
                         native: string -> DeviceConn.Native, show: real -> string): (r: Result<App.Effect>)
    ensures a.walking == App.Active ==> r == Ok(App.Effect(a, []))
    ensures a.walking != App.Active ==>
              && (r.Err? <==> Elevate(loc, elevations, show, key).Err?)
              && (r.Ok? ==>
                    var here := Elevate(loc, elevations, show, key).value;
                    && r.value.app == a.(teleportPin := Some(here),
                                         coords := App.Coords(show(here.lat), show(here.lon), show(here.alt)))
                    && r.value.sends
                       == DeviceConn.UpdateLocation(a.registry.devices, native, show(loc.lat), show(loc.lon)))
  {
    if a.walking == App.Active then Ok(App.Effect(a, []))
    else
      match Elevate(loc, elevations, show, key)
      case Err(f) => Err(f)
      case Ok(here) =>
        Ok(App.Effect(a.(teleportPin := Some(here),
                         coords := App.Coords(show(here.lat), show(here.lon), show(here.alt))),
                      DeviceConn.UpdateLocation(a.registry.devices, native, show(here.lat), show(here.lon))))
  }

  /** The boxes a teleport by double-click fills in teleport to the same
      place: when converting a formatted number gives the number back, the
      teleport button afterwards changes nothing and sends the devices the
      very frames the double-click sent. */
  lemma TeleportThenButton(a: App.App, loc: Location, elevations: string -> Result<seq<real>>, key: string,
                           native: string -> DeviceConn.Native, show: real -> string,
                           parse: string -> Option<real>)
    requires a.walking == App.Stopped
    requires forall x :: parse(show(x)) == Some(x)
    requires TeleportClick(a, loc, elevations, key, native, show).Ok?
    ensures var e := TeleportClick(a, loc, elevations, key, native, show).value;
            TeleButton(e.app, parse, native, show) == e
  {
    var here := Elevate(loc, elevations, show, key).value;
    assert parse(show(here.lat)) == Some(here.lat);
    assert parse(show(here.lon)) == Some(here.lon);
    assert parse(show(here.alt)) == Some(here.alt);
  }
}
