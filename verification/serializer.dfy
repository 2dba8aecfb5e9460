/** The XmlSerializer wrapper of SharpGpx/Serializer.cs: a process-wide cache
    of serializers keyed by type, the textual pre-check on XML input, the
    null guard on serialisation, and ExceptionManager, which decides whether a
    caught exception is re-thrown or swallowed.  The serializer's own parsing
    and writing are not modelled: their outcomes are parameters. */
module Serializer {
  import opened Base

  /** A .NET type, by its full name. */
  type TypeName = string

  /** A serializer, identified by the type and the extra types it was built for
      (`new XmlSerializer(type)` has no extra types). */
  datatype XmlSerializer = XmlSerializer(forType: TypeName, extraTypes: seq<TypeName>)

  /** The static state: the cache `m_serializers`, the CacheSerializers flag and
      ExceptionManager.Throw. */
  datatype State = State(cache: map<TypeName, XmlSerializer>, cacheSerializers: bool, throwOnError: bool)

  /** A state together with the outcome of a call made in it. */
  datatype Outcome<+T> = Outcome(state: State, result: Result<T>)

  /** What XmlSerializer.Serialize did: wrote the whole document, or threw
      after writing `partial`. */
  datatype WriteOutcome = Written(text: string) | Failed(fault: Fault, partial: string)

  /** The static constructor turns caching on; ExceptionManager.Throw keeps its
      default, false. */
  const Initial: State := State(map[], true, false)

  /** Dictionary.Add: throws on a key that is already present. */
  function DictAdd<K, V>(m: map<K, V>, k: K, v: V): (r: Result<map<K, V>>)
    ensures r.Ok? <==> k !in m
    ensures r.Ok? ==> r.value.Keys == m.Keys + {k} && r.value[k] == v
                      && forall j :: j in m ==> r.value[j] == m[j]
  {
    if k in m then Err(Argument) else Ok(m[k := v])
  }

  /** CreateSerializer(type, types): a cached serializer is returned as it is,
      whatever extra types are asked for; otherwise a new one is built and,
      when caching is on, added to the cache (the lookup just made guarantees
      that the Add never meets a duplicate key). */
  function CreateSerializer(st: State, t: TypeName, types: Option<seq<TypeName>>): (r: (State, XmlSerializer))
    ensures t in st.cache ==> r == (st, st.cache[t])
    ensures t !in st.cache ==>
              && r.1.forType == t
              && r.1.extraTypes == (if types.Some? then types.value else [])
    ensures r.0.cacheSerializers == st.cacheSerializers && r.0.throwOnError == st.throwOnError
    ensures st.cache.Keys <= r.0.cache.Keys
    ensures forall k :: k in st.cache ==> r.0.cache[k] == st.cache[k]
    ensures r.0.cache.Keys <= st.cache.Keys + {t}
    ensures t in r.0.cache <==> t in st.cache || st.cacheSerializers
    ensures t in r.0.cache ==> r.0.cache[t] == r.1
  {
    if t in st.cache then (st, st.cache[t])
    else
      var ser := XmlSerializer(t, if types.Some? then types.value else []);
      if st.cacheSerializers then
        var added := DictAdd(st.cache, t, ser);
        (st.(cache := added.value), ser)
      else (st, ser)
  }

  /** Once a serializer for `t` was created with caching on, every later
      request for `t` returns that same serializer and changes nothing,
      whatever extra types it names. */
  lemma CreateSerializerStable(st: State, t: TypeName, types1: Option<seq<TypeName>>,
                               types2: Option<seq<TypeName>>)
    requires st.cacheSerializers
    ensures var (st1, ser1) := CreateSerializer(st, t, types1);
            CreateSerializer(st1, t, types2) == (st1, ser1)
  {
  }

  /** The test `!StartsWith("<") && !EndsWith(">")` of CheckXML. */
  predicate RejectedAsNotXml(s: string)
  {
    !(|s| > 0 && s[0] == '<') && !(|s| > 0 && s[|s| - 1] == '>')
  }

  /** CheckXML: throws ArgumentException exactly when the text neither starts
      with `<` nor ends with `>`. */
  function CheckXml(s: string): (r: Result<()>)
    ensures r.Err? ==> r.fault == Argument
    ensures r.Err? <==> (|s| == 0 || (s[0] != '<' && s[|s| - 1] != '>'))
  {
    if RejectedAsNotXml(s) then Err(Argument) else Ok(())
  }

  /** The check is weak: one angle bracket at either end is enough, and only
      the empty string and bracket-free ends are refused. */
  lemma CheckXmlExamples()
    ensures CheckXml("abc>").Ok?
    ensures CheckXml("<abc").Ok?
    ensures CheckXml("").Err?
    ensures CheckXml("abc").Err?
  {
  }

  /** ExceptionManager.CriticalException: re-throws when Throw is set,
      otherwise reports that the exception is not to be re-thrown. */
  function CriticalException(st: State, fault: Fault): (r: Result<bool>)
    ensures r.Err? <==> st.throwOnError
    ensures r.Err? ==> r.fault == fault
    ensures r.Ok? ==> !r.value
  {
    if st.throwOnError then Err(fault) else Ok(false)
  }

  /** Deserialize<T>(string): the text is checked (outside any catch), a
      serializer is obtained, and the parse outcome `parsed` (the result of
      `ser.Deserialize(reader) as T`, or the exception it threw) is passed
      through ExceptionManager, so that with Throw off a failed parse yields
      null. */
  function Deserialize<T>(st: State, t: TypeName, xml: string, parsed: Result<Option<T>>): (r: Outcome<Option<T>>)
    ensures RejectedAsNotXml(xml) ==> r == Outcome(st, Err(Argument))
    ensures !RejectedAsNotXml(xml) ==> r.state == CreateSerializer(st, t, None).0
    ensures !RejectedAsNotXml(xml) && parsed.Ok? ==> r.result == parsed
    ensures !RejectedAsNotXml(xml) && parsed.Err? ==>
              r.result == (if st.throwOnError then Err(parsed.fault) else Ok(None))
  {
    match CheckXml(xml)
    case Err(f) => Outcome(st, Err(f))
    case Ok(_) =>
      var (st1, _) := CreateSerializer(st, t, None);
      match parsed
      case Ok(v) => Outcome(st1, Ok(v))
      case Err(f) =>
        match CriticalException(st1, f)
        case Err(g) => Outcome(st1, Err(g))
        case Ok(_) => Outcome(st1, Ok(None))
  }

  /** The private Serialize<T>(obj, types, settings, ns): a null object is
      refused before anything else, whatever ExceptionManager says; otherwise
      the serializer's output is returned, and when it throws with Throw off
      the text written so far is returned instead. */
  function Serialize<T>(st: State, t: TypeName, obj: Option<T>, written: WriteOutcome): (r: Outcome<string>)
    ensures obj.None? ==> r == Outcome(st, Err(ArgumentNull))
    ensures obj.Some? ==> r.state == CreateSerializer(st, t, None).0
    ensures obj.Some? && written.Written? ==> r.result == Ok(written.text)
    ensures obj.Some? && written.Failed? ==>
              r.result == (if st.throwOnError then Err(written.fault) else Ok(written.partial))
  {
    if obj.None? then Outcome(st, Err(ArgumentNull))
    else
      var (st1, _) := CreateSerializer(st, t, None);
      match written
      case Written(text) => Outcome(st1, Ok(text))
      case Failed(f, partial) =>
        match CriticalException(st1, f)
        case Err(g) => Outcome(st1, Err(g))
        case Ok(_) => Outcome(st1, Ok(partial))
  }

  /** With the default ExceptionManager setting, deserialising text that passes
      the pre-check never throws, and serialising a non-null object never
      throws. */
  lemma DefaultsSwallowFailures<T>(st: State, t: TypeName, xml: string, parsed: Result<Option<T>>,
                                   obj: T, written: WriteOutcome)
    requires !st.throwOnError
    ensures !RejectedAsNotXml(xml) ==> Deserialize(st, t, xml, parsed).result.Ok?
    ensures Serialize(st, t, Some(obj), written).result.Ok?
  {
  }
}
