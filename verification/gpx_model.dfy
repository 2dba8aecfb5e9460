/** The GPX 1.1 object model the program reads and writes (the generated
    gpxType classes, reduced to the fields the program touches), the GPX 1.0
    root, and the append helpers of GPX1_1/Extensions.cs.  Every collection
    field of the generated classes is a reference that may be null, so it is an
    `Option` of a sequence. */
module GpxModel {
  import opened Base

  /** wptType: a waypoint or track point.  The decimal coordinates are modelled
      as reals. */
  datatype Wpt = Wpt(lat: real, lon: real, ele: real, eleSpecified: bool)

  datatype Trkseg = Trkseg(trkpt: Option<seq<Wpt>>)

  datatype Trk = Trk(name: Option<string>, trkseg: Option<seq<Trkseg>>)

  datatype Rte = Rte(name: Option<string>, rtept: Option<seq<Wpt>>)

  datatype Link = Link(href: string)

  datatype Pt = Pt(lat: real, lon: real, ele: real)

  /** gpxType, the GPX 1.1 root.  Metadata and extensions are carried as
      opaque text: the program only ever copies them. */
  datatype Gpx = Gpx(
    creator: Option<string>,
    version: Option<string>,
    metadata: Option<string>,
    extensions: Option<string>,
    rte: Option<seq<Rte>>,
    trk: Option<seq<Trk>>,
    wpt: Option<seq<Wpt>>)

  /** The GPX 1.0 root as ToGpx1_0 fills it. */
  datatype Gpx10 = Gpx10(creator: Option<string>, version: Option<string>)

  /** AddItem: List.Add on the collection, which is then returned.  A null
      collection makes the Add throw. */
  function AddItem<T>(collection: Option<seq<T>>, item: T): (r: Result<seq<T>>)
    ensures r.Ok? <==> collection.Some?
    ensures r.Ok? ==> |r.value| == |collection.value| + 1
                      && r.value[..|collection.value|] == collection.value
                      && r.value[|collection.value|] == item
  {
    match collection
    case None => Err(NullReference)
    case Some(s) => Ok(s + [item])
  }

  /** The typed helpers (Addwpt, Addrte, Addtrk, AddLink, Addtrkseg, Addpt)
      have AddItem's body on their own collection types. */
  function Addwpt(collection: Option<seq<Wpt>>, item: Wpt): Result<seq<Wpt>> { AddItem(collection, item) }

  function Addrte(collection: Option<seq<Rte>>, item: Rte): Result<seq<Rte>> { AddItem(collection, item) }

  function Addtrk(collection: Option<seq<Trk>>, item: Trk): Result<seq<Trk>> { AddItem(collection, item) }

  function AddLink(collection: Option<seq<Link>>, item: Link): Result<seq<Link>> { AddItem(collection, item) }

  function Addtrkseg(collection: Option<seq<Trkseg>>, item: Trkseg): Result<seq<Trkseg>> { AddItem(collection, item) }

  function Addpt(collection: Option<seq<Pt>>, item: Pt): Result<seq<Pt>> { AddItem(collection, item) }

  /** Appending items one by one keeps them in order after what was there. */
  lemma {:induction false} AddItemsInOrder<T>(s: seq<T>, items: seq<T>)
    ensures AppendAll(s, items) == s + items
    decreases |items|
  {
    if |items| > 0 {
      assert AddItem(Some(s), items[0]) == Ok(s + [items[0]]);
      AddItemsInOrder(s + [items[0]], items[1..]);
      assert s + [items[0]] + items[1..] == s + items;
    }
  }

  /** A sequence of AddItem calls on a non-null collection. */
  function AppendAll<T>(s: seq<T>, items: seq<T>): seq<T>
    decreases |items|
  {
    if |items| == 0 then s
    else
      var next := AddItem(Some(s), items[0]);
      AppendAll(next.value, items[1..])
  }
}
