/** GpxClass of SharpGpx/GpxClass.cs: loading a GPX document of either
    version into the 1.1 object model, normalising it for output, and saving
    it as 1.1 or 1.0 text.  XmlDocument loading, the XSLT version transforms
    and XmlSerializer's parsing and writing are foreign code: they are the
    fields of an `XmlRuntime` value. */
module GpxClass {
  import opened Base
  import opened GpxModel
  import Serializer

  const Gpx10Namespace: string := "http://www.topografix.com/GPX/1/0"
  const Gpx11Namespace: string := "http://www.topografix.com/GPX/1/1"

  /** typeof(GPX1_1.gpxType), the type every (de)serialisation here names. */
  const GpxTypeName: Serializer.TypeName := "SharpGpx.GPX1_1.gpxType"

  /** GpxVersion. */
  datatype GpxVersion = Gpx_1_0 | Gpx_1_1

  /** What XmlDocument.Load/LoadXml makes of a text: it throws on malformed
      XML, and otherwise yields a document whose root element (if any) has a
      namespace URI. */
  datatype XmlLoad = Malformed | Loaded(rootNamespace: Option<string>)

  /** The foreign operations: XML loading, the two XSLT transforms, and
      XmlSerializer's reading (`parse`, the outcome of deserialising a text
      as gpxType) and writing of a gpxType. */
  datatype XmlRuntime = XmlRuntime(
    load: string -> XmlLoad,
    transform10to11: string -> string,
    transform11to10: string -> string,
    parse: string -> Result<Option<Gpx>>,
    write: Gpx -> Serializer.WriteOutcome)

  /** The copy constructor GpxClass(gpxType): the scalar fields are copied and
      each collection is copied element for element by the List copy
      constructor, which throws on a null source. */
  function Copy(g: Option<Gpx>): (r: Result<Gpx>)
    ensures g.None? ==> r == Err(NullReference)
    ensures g.Some? ==> (r.Ok? <==> g.value.rte.Some? && g.value.trk.Some? && g.value.wpt.Some?)
    ensures r.Err? && g.Some? ==> r.fault == ArgumentNull
    ensures r.Ok? ==> r.value == g.value
  {
    match g
    case None => Err(NullReference)
    case Some(src) =>
      if src.rte.None? || src.trk.None? || src.wpt.None? then Err(ArgumentNull)
      else Ok(Gpx(src.creator, src.version, src.metadata, src.extensions,
                  Some(src.rte.value), Some(src.trk.value), Some(src.wpt.value)))
  }

  /** FromXml: the text is loaded (malformed XML throws), transformed from
      GPX 1.0 to 1.1 exactly when its root element is in the GPX 1.0
      namespace, deserialised as gpxType, and copied.  A parse that
      ExceptionManager swallowed yields null, which the copy constructor then
      dereferences. */
  function FromXml(rt: XmlRuntime, st: Serializer.State, xml: string): (r: Serializer.Outcome<Gpx>)
    ensures rt.load(xml) == Malformed ==> r == Serializer.Outcome(st, Err(Xml))
    ensures rt.load(xml).Loaded? ==>
              var text := if rt.load(xml).rootNamespace == Some(Gpx10Namespace)
                          then rt.transform10to11(xml) else xml;
              var d := Serializer.Deserialize(st, GpxTypeName, text, rt.parse(text));
              r.state == d.state
              && (d.result.Err? ==> r.result == Err(d.result.fault))
              && (d.result.Ok? ==> r.result == Copy(d.result.value))
  {
    match rt.load(xml)
    case Malformed => Serializer.Outcome(st, Err(Xml))
    case Loaded(ns) =>
      var text := if ns == Some(Gpx10Namespace) then rt.transform10to11(xml) else xml;
      var d := Serializer.Deserialize(st, GpxTypeName, text, rt.parse(text));
      match d.result
      case Err(f) => Serializer.Outcome(d.state, Err(f))
      case Ok(g) => Serializer.Outcome(d.state, Copy(g))
  }

  /** A GPX 1.1 document goes to the serializer untransformed; only a
      document rooted in the 1.0 namespace is transformed. */
  lemma FromXmlTransformsOnlyGpx10(rt: XmlRuntime, st: Serializer.State, xml: string)
    requires rt.load(xml).Loaded?
    ensures rt.load(xml).rootNamespace != Some(Gpx10Namespace) ==>
              FromXml(rt, st, xml)
                == (var d := Serializer.Deserialize(st, GpxTypeName, xml, rt.parse(xml));
                    if d.result.Err? then Serializer.Outcome(d.state, Err(d.result.fault))
                    else Serializer.Outcome(d.state, Copy(d.result.value)))
  {
  }

  /** No collection of the normalised object is null. */
  predicate Normalized(g: Gpx)
  {
    g.rte.Some? && g.trk.Some? && g.wpt.Some?
  }

  /** ToGpx1_1: the scalar fields are kept, a null collection becomes empty and
      any other is copied in order. */
  function ToGpx1_1(g: Gpx): (r: Gpx)
    ensures Normalized(r)
    ensures r.creator == g.creator && r.version == g.version
            && r.metadata == g.metadata && r.extensions == g.extensions
    ensures r.rte.value == (if g.rte.Some? then g.rte.value else [])
    ensures r.trk.value == (if g.trk.Some? then g.trk.value else [])
    ensures r.wpt.value == (if g.wpt.Some? then g.wpt.value else [])
  {
    Gpx(g.creator, g.version, g.metadata, g.extensions,
        Some(if g.rte.Some? then g.rte.value else []),
        Some(if g.trk.Some? then g.trk.value else []),
        Some(if g.wpt.Some? then g.wpt.value else []))
  }

  /** On an object that is already normalised, ToGpx1_1 is the identity, so
      normalising twice is normalising once. */
  lemma ToGpx1_1Idempotent(g: Gpx)
    ensures Normalized(g) ==> ToGpx1_1(g) == g
    ensures ToGpx1_1(ToGpx1_1(g)) == ToGpx1_1(g)
  {
  }

  /** ToGpx1_0: only the creator and the version are carried over. */
  function ToGpx1_0(g: Gpx): (r: Gpx10)
    ensures r.creator == g.creator && r.version == g.version
  {
    Gpx10(g.creator, g.version)
  }

  /** ToXml(version): the normalised object is serialised as 1.1 text, which is
      transformed to 1.0 only when 1.0 is asked for. */
  function ToXml(rt: XmlRuntime, st: Serializer.State, g: Gpx, version: GpxVersion): (r: Serializer.Outcome<string>)
    ensures var s := Serializer.Serialize(st, GpxTypeName, Some(ToGpx1_1(g)), rt.write(ToGpx1_1(g)));
            && r.state == s.state
            && (s.result.Err? ==> r.result == s.result)
            && (s.result.Ok? && version == Gpx_1_1 ==> r.result == s.result)
            && (s.result.Ok? && version == Gpx_1_0 ==> r.result == Ok(rt.transform11to10(s.result.value)))
  {
    var n := ToGpx1_1(g);
    var s := Serializer.Serialize(st, GpxTypeName, Some(n), rt.write(n));
    match s.result
    case Err(f) => s
    case Ok(text) =>
      if version == Gpx_1_0 then Serializer.Outcome(s.state, Ok(rt.transform11to10(text)))
      else s
  }

  /** ToXml(): the most recent version. */
  function ToXmlLatest(rt: XmlRuntime, st: Serializer.State, g: Gpx): (r: Serializer.Outcome<string>)
  {
    ToXml(rt, st, g, Gpx_1_1)
  }

  /** ToFile: the text written to the file by ToStream(stream, GPX_1_1), which
      hands the normalised object to the stream variant of the private
      Serialize<T> (the same null guard and exception handling as the text
      variant). */
  function ToFile(rt: XmlRuntime, st: Serializer.State, g: Gpx): (r: Serializer.Outcome<string>)
  {
    var n := ToGpx1_1(g);
    Serializer.Serialize(st, GpxTypeName, Some(n), rt.write(n))
  }

  /** The file ToFile leaves behind, as written: File.OpenWrite opens an
      existing file without truncating it, so when the old contents were
      longer than the new text their tail stays after it.  The file is
      modelled as text; the writer's UTF-16 encoding has two bytes per
      character either way. */
  function FileAfterOpenWrite(existing: Option<string>, text: string): (r: string)
    ensures |r| == if existing.Some? && |existing.value| > |text| then |existing.value| else |text|
    ensures r[..|text|] == text
    ensures existing.Some? && |existing.value| > |text| ==> r[|text|..] == existing.value[|text|..]
  {
    if existing.Some? && |existing.value| > |text| then text + existing.value[|text|..] else text
  }

  /** Saving over a longer file leaves a file that is not the document: the
      new text is followed by the rest of the old one, so the file no longer
      ends where the serializer's output ends. */
  lemma OpenWriteKeepsTail(existing: string, text: string)
    requires |existing| > |text|
    ensures FileAfterOpenWrite(Some(existing), text) != text
    ensures FileAfterOpenWrite(Some(existing), text)
            == text + existing[|text|..]
  {
  }

  /** With nothing to overwrite, or an old file no longer than the new text,
      the file holds exactly the text written, which is what the rest of this
      model takes a saved file to hold. */
  lemma OpenWriteExact(existing: Option<string>, text: string)
    requires existing.None? || |existing.value| <= |text|
    ensures FileAfterOpenWrite(existing, text) == text
  {
  }

  /** A file is always written in GPX 1.1: its text is what ToXml produces for
      version 1.1, which is also what ToXml() produces. */
  lemma ToFileWritesGpx11(rt: XmlRuntime, st: Serializer.State, g: Gpx)
    ensures ToFile(rt, st, g) == ToXml(rt, st, g, Gpx_1_1)
    ensures ToXmlLatest(rt, st, g) == ToXml(rt, st, g, Gpx_1_1)
  {
  }

  /** CheckVersion: true exactly when the file loads and its root element is in
      the GPX 1.0 or 1.1 namespace; any load failure gives false. */
  function CheckVersion(rt: XmlRuntime, content: string): (r: bool)
    ensures r <==> rt.load(content).Loaded?
                   && (rt.load(content).rootNamespace == Some(Gpx10Namespace)
                       || rt.load(content).rootNamespace == Some(Gpx11Namespace))
  {
    match rt.load(content)
    case Malformed => false
    case Loaded(ns) => ns == Some(Gpx10Namespace) || ns == Some(Gpx11Namespace)
  }

  /** What the round trip needs of the foreign code for one normalised object:
      the serializer writes a 1.1 document that starts with `<`, and parsing
      that text gives the object back. */
  ghost predicate RoundTrips(rt: XmlRuntime, g: Gpx)
  {
    match rt.write(g)
    case Written(text) =>
      && |text| > 0 && text[0] == '<'
      && rt.load(text) == Loaded(Some(Gpx11Namespace))
      && rt.parse(text) == Ok(Some(g))
    case Failed(_, _) => false
  }

  /** Saving and loading again gives the normalised object back, the file
      passes CheckVersion, and the serializer cache ends up holding the
      gpxType serializer (caching being on). */
  lemma SaveLoadRoundTrip(rt: XmlRuntime, st: Serializer.State, g: Gpx)
    requires RoundTrips(rt, ToGpx1_1(g))
    requires st.cacheSerializers
    ensures var saved := ToFile(rt, st, g);
            && saved.result.Ok?
            && CheckVersion(rt, saved.result.value)
            && FromXml(rt, saved.state, saved.result.value).result == Ok(ToGpx1_1(g))
            && GpxTypeName in FromXml(rt, saved.state, saved.result.value).state.cache
  {
    var n := ToGpx1_1(g);
    var text := rt.write(n).text;
    var saved := ToFile(rt, st, g);
    assert saved.result == Ok(text);
    assert !Serializer.RejectedAsNotXml(text);
    var d := Serializer.Deserialize(saved.state, GpxTypeName, text, rt.parse(text));
    assert d.result == Ok(Some(n));
    assert Copy(Some(n)) == Ok(n);
  }
}
