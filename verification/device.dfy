/** The device side of device_conn.cs: the DeviceModel record and its version
    strings, the disk-image URL, the list of connected devices kept by
    location_service, the bytes sent to the location-simulation service of
    each device, and one round of the polling loop that discovers new
    devices.  Every call into libimobiledevice is replaced by its outcome,
    given as a parameter per device. */
module DeviceConn {
  import opened Base
  import opened Text

  newtype byte = x: int | 0 <= x < 256

  /** device_utils.ddi_repo_url. */
  const DdiRepoUrl: string := "https://github.com/intothedarkness/iOSDDIRepo/raw/master/"

  /** The text appended to the name of a device that is not in developer mode. */
  const Unprovisioned: string := " (UNPROVISIONED)"

  datatype DeviceModel = DeviceModel(
    udid: string,
    version: string,
    name: string,
    buildVersion: string,
    isDevMode: bool,
    fullVersion: string,
    shortVersion: string)

  /** The short iOS version: the first two dot-separated pieces of the
      version, joined by a dot. */
  function ShortVersionOf(version: string): string
  {
    Join(Take(Split(version, '.'), 2), ".")
  }

  /** The short version of a version with fewer than two dots is the whole
      version. */
  lemma ShortVersionFewDots(v: string)
    requires var i := IndexOf(v, '.'); i < 0 || IndexOf(v[i + 1..], '.') < 0
    ensures ShortVersionOf(v) == v
  {
    var i := IndexOf(v, '.');
    if 0 <= i {
      ShortVersionTwoPieces(v, i);
      SplitHead(v[i + 1..], '.');
      DotSplit(v, i);
    }
  }

  /** The short version of a version with two or more dots is the version up
      to, not including, its second dot. */
  lemma ShortVersionUpToSecondDot(v: string, i: int, j: int)
    requires 0 <= i && i == IndexOf(v, '.')
    requires 0 <= j && j == IndexOf(v[i + 1..], '.')
    ensures ShortVersionOf(v) == v[..i + 1 + j] && v[i + 1 + j] == '.'
  {
    var rest := v[i + 1..];
    ShortVersionTwoPieces(v, i);
    SplitHead(rest, '.');
    SliceAtDots(v, i, j);
  }

  /** With dots at `i` and `i + 1 + j`, the text before the second dot is the
      text before the first, a dot, and the `j` characters after it. */
  lemma SliceAtDots(v: string, i: int, j: int)
    requires 0 <= i < |v| && v[i] == '.'
    requires 0 <= j < |v| - (i + 1) && v[i + 1..][j] == '.'
    ensures v[..i + 1 + j] == v[..i] + "." + v[i + 1..][..j]
    ensures v[i + 1 + j] == '.'
  {
    assert v[..i + 1 + j] == v[..i] + [v[i]] + v[i + 1..i + 1 + j];
  }

  lemma DotSplit(v: string, i: int)
    requires 0 <= i < |v| && v[i] == '.'
    ensures v == v[..i] + "." + v[i + 1..]
  {
    assert v == v[..i] + [v[i]] + v[i + 1..];
  }

  /** With a dot at `i`, the short version joins the piece before it and the
      first piece after it. */
  lemma ShortVersionTwoPieces(v: string, i: int)
    requires 0 <= i && i == IndexOf(v, '.')
    ensures ShortVersionOf(v) == v[..i] + "." + Split(v[i + 1..], '.')[0]
  {
    var tail := Split(v[i + 1..], '.');
    var head := tail[0];
    var parts := Split(v, '.');
    assert parts == [v[..i]] + tail;
    var two := [v[..i], head];
    assert Take(parts, 2) == two;
    assert two[1..] == [head];
    assert Join([head], ".") == head;
    assert Join(two, ".") == two[0] + "." + Join(two[1..], ".");
  }

  /** The example in the source's comments: 13.3.1 becomes 13.3. */
  lemma ShortVersionExample()
    ensures ShortVersionOf("13.3.1") == "13.3"
  {
    assert IndexOf("13.3.1", '.') == 2;
    assert "13.3.1"[3..] == "3.1";
    assert IndexOf("3.1", '.') == 1;
    ShortVersionUpToSecondDot("13.3.1", 2, 1);
  }

  /** The record built for a newly found device: the short version and the
      full version "short(build)" are derived from the product version. */
  function MakeDevice(udid: string, name: string, version: string, build: string, devMode: bool): (d: DeviceModel)
    ensures d.udid == udid && d.name == name && d.version == version
            && d.buildVersion == build && d.isDevMode == devMode
    ensures d.shortVersion == ShortVersionOf(version)
    ensures d.fullVersion == d.shortVersion + "(" + build + ")"
  {
    var short := ShortVersionOf(version);
    DeviceModel(udid, version, name, build, devMode, short + "(" + build + ")", short)
  }

  /** get_ddi_image_url. */
  function DdiImageUrl(d: DeviceModel): (url: string)
    ensures |url| == |DdiRepoUrl| + |d.fullVersion| + 4
    ensures url[..|DdiRepoUrl|] == DdiRepoUrl
    ensures url[|DdiRepoUrl|..|DdiRepoUrl| + |d.fullVersion|] == d.fullVersion
    ensures url[|url| - 4..] == ".zip"
  {
    DdiRepoUrl + d.fullVersion + ".zip"
  }

  // ---------------------------------------------------------------------
  // The list of connected devices

  datatype DevOp = AddDevice | RemoveDevice | ClearAll

  /** location_service.Devices, and whether the provisioning button is enabled. */
  datatype Registry = Registry(devices: seq<DeviceModel>, provEnabled: bool)

  /** List.Remove: removes the first element equal to `x`, if any.  DeviceModel
      does not override Equals, so in the program "equal" means "the same
      object"; here devices are values. */
  function RemoveFirst<T(==)>(s: seq<T>, x: T): (r: seq<T>)
    ensures x !in s ==> r == s
    ensures x in s ==> var i := IndexOf(s, x);
                       |r| == |s| - 1 && r[..i] == s[..i] && r[i..] == s[i + 1..]
  {
    var i := IndexOf(s, x);
    if i < 0 then s else s[..i] + s[i + 1..]
  }

  /** device_add_remove: adding appends the device (its name marked
      unprovisioned when it is not in developer mode), removing takes out the
      first equal device, clearing empties the list; afterwards provisioning is
      enabled exactly when a device is connected. */
  function DeviceAddRemove(reg: Registry, d: DeviceModel, op: DevOp): (r: Registry)
    ensures r.provEnabled <==> |r.devices| >= 1
    ensures op == AddDevice ==>
              r.devices == reg.devices + [d.(name := if d.isDevMode then d.name else d.name + Unprovisioned)]
    ensures op == RemoveDevice ==> r.devices == RemoveFirst(reg.devices, d)
    ensures op == ClearAll ==> r.devices == []
  {
    var devices :=
      match op
      case AddDevice =>
        var added := if d.isDevMode then d else d.(name := d.name + Unprovisioned);
        reg.devices + [added]
      case RemoveDevice => RemoveFirst(reg.devices, d)
      case ClearAll => [];
    Registry(devices, |devices| >= 1)
  }

  /** Adding and then removing the device as it was added leaves the list as it
      was (the device is found at the end, or earlier if an equal one was
      already there, and only one copy goes). */
  lemma AddThenRemove(reg: Registry, d: DeviceModel)
    ensures var stored := d.(name := if d.isDevMode then d.name else d.name + Unprovisioned);
            var r := DeviceAddRemove(DeviceAddRemove(reg, d, AddDevice), stored, RemoveDevice);
            multiset(r.devices) == multiset(reg.devices)
            && (r.provEnabled <==> |reg.devices| >= 1)
  {
    var stored := d.(name := if d.isDevMode then d.name else d.name + Unprovisioned);
    RemoveAppended(reg.devices, stored);
  }

  lemma RemoveAppended<T>(s: seq<T>, x: T)
    ensures multiset(RemoveFirst(s + [x], x)) == multiset(s)
  {
    var t := s + [x];
    assert t[|s|] == x;
    var i := IndexOf(t, x);
    var a, b := t[..i], t[i + 1..];
    assert t == a + [x] + b;
    assert RemoveFirst(t, x) == a + b;
    assert multiset(s) + multiset{x} == multiset(a + b) + multiset{x} by {
      assert multiset(t) == multiset(s) + multiset{x};
      assert multiset(t) == multiset(a) + multiset{x} + multiset(b);
    }
    MultisetCancel(multiset(s), multiset(a + b), x);
  }

  lemma MultisetCancel<T>(m1: multiset<T>, m2: multiset<T>, x: T)
    requires m1 + multiset{x} == m2 + multiset{x}
    ensures m1 == m2
  {
    assert m1 == (m1 + multiset{x}) - multiset{x};
    assert m2 == (m2 + multiset{x}) - multiset{x};
  }

  // ---------------------------------------------------------------------
  // Byte encodings

  const TwoTo32: int := 0x1_0000_0000

  /** `BitConverter.GetBytes((uint)n)` followed by Array.Reverse: the four bytes
      of `n` taken modulo 2^32 (the uint cast), most significant first. */
  function BE32(n: int): (b: seq<byte>)
    ensures |b| == 4
  {
    var m := n % TwoTo32;
    [(m / 0x100_0000) as byte, (m / 0x1_0000 % 0x100) as byte,
     (m / 0x100 % 0x100) as byte, (m % 0x100) as byte]
  }

  /** Reading four bytes as a big-endian unsigned number. */
  function DecodeBE32(b: seq<byte>): (n: int)
    requires |b| == 4
    ensures 0 <= n < TwoTo32
  {
    ((b[0] as int * 0x100 + b[1] as int) * 0x100 + b[2] as int) * 0x100 + b[3] as int
  }

  /** Decoding the encoding gives the number back modulo 2^32, and encoding a
      decoded quadruple gives the same bytes back. */
  lemma BE32RoundTrip(n: int, b: seq<byte>)
    requires |b| == 4
    ensures DecodeBE32(BE32(n)) == n % TwoTo32
    ensures BE32(DecodeBE32(b)) == b
  {
    var m := n % TwoTo32;
    var q3, r3 := m / 0x100, m % 0x100;
    var q2, r2 := q3 / 0x100, q3 % 0x100;
    var q1, r1 := q2 / 0x100, q2 % 0x100;
    assert m == q3 * 0x100 + r3;
    assert q3 == q2 * 0x100 + r2;
    assert q2 == q1 * 0x100 + r1;
    assert q1 < 0x100;
    DivDiv(m);
    assert m / 0x1_0000 == q2;
    assert m / 0x100_0000 == q1;
    assert BE32(n) == [q1 as byte, r1 as byte, r2 as byte, r3 as byte];
    var k := DecodeBE32(b);
    var a0, a1, a2, a3 := b[0] as int, b[1] as int, b[2] as int, b[3] as int;
    assert k == ((a0 * 0x100 + a1) * 0x100 + a2) * 0x100 + a3;
    assert k % TwoTo32 == k;
    DigitsUnique(k, (a0 * 0x100 + a1) * 0x100 + a2, a3);
    DigitsUnique((a0 * 0x100 + a1) * 0x100 + a2, a0 * 0x100 + a1, a2);
    DigitsUnique(a0 * 0x100 + a1, a0, a1);
    DivDiv(k);
  }

  /** Dividing by 2^8 twice is dividing by 2^16, and once more by 2^24. */
  lemma DivDiv(m: int)
    requires m >= 0
    ensures m / 0x100 / 0x100 == m / 0x1_0000
    ensures m / 0x1_0000 / 0x100 == m / 0x100_0000
  {
    var q := m / 0x100;
    var p := q / 0x100;
    assert m == 0x1_0000 * p + (0x100 * (q % 0x100) + m % 0x100);
    var q2 := m / 0x1_0000;
    var p2 := q2 / 0x100;
    assert m == 0x100_0000 * p2 + (0x1_0000 * (q2 % 0x100) + m % 0x1_0000);
  }

  lemma DigitsUnique(n: int, q: int, r: int)
    requires 0 <= r < 0x100 && q >= 0 && n == q * 0x100 + r
    ensures n / 0x100 == q && n % 0x100 == r
  {
  }

  /** Encoding.ASCII.GetBytes: each character below 128 is its own code, any
      other becomes `?`. */
  function Ascii(s: string): (b: seq<byte>)
    ensures |b| == |s|
    ensures forall i :: 0 <= i < |s| ==>
              b[i] as int == (if s[i] as int < 128 then s[i] as int else '?' as int)
  {
    if |s| == 0 then [] else [AsciiByte(s[0])] + Ascii(s[1..])
  }

  function AsciiByte(c: char): byte
  {
    if c as int < 128 then c as int as byte else '?' as int as byte
  }

  /** Reading bytes back as ASCII characters. */
  function AsciiDecode(b: seq<byte>): (s: string)
    ensures |s| == |b|
    ensures forall i :: 0 <= i < |b| ==> s[i] as int == b[i] as int
  {
    if |b| == 0 then "" else [b[0] as int as char] + AsciiDecode(b[1..])
  }

  predicate IsAscii(s: string)
  {
    forall i :: 0 <= i < |s| ==> s[i] as int < 128
  }

  /** ASCII text survives the encoding; any other text does not. */
  lemma AsciiRoundTrip(s: string)
    ensures AsciiDecode(Ascii(s)) == s <==> IsAscii(s)
  {
    var t := AsciiDecode(Ascii(s));
    if IsAscii(s) {
      assert forall i :: 0 <= i < |s| ==> t[i] == s[i];
    } else {
      var i :| 0 <= i < |s| && s[i] as int >= 128;
      assert t[i] == '?';
    }
  }

  // ---------------------------------------------------------------------
  // Location updates

  /** The outcome of the native calls for one device: the lockdown handshake,
      starting the simulate-location service, creating the service client,
      and the first send. */
  datatype Native = Native(handshake: bool, startService: bool, clientNew: bool, firstSendOk: bool)

  /** One `service_send` call: the device it went to and the bytes. */
  datatype Send = Send(udid: string, bytes: seq<byte>)

  /** The sends after the message header for one device: the latitude text and
      the longitude text, each preceded by its length. */
  function CoordinateSends(udid: string, lat: string, lon: string): (r: seq<Send>)
    ensures |r| == 4
  {
    [Send(udid, BE32(|lat|)), Send(udid, Ascii(lat)), Send(udid, BE32(|lon|)), Send(udid, Ascii(lon))]
  }

  /** Whether UpdateLocation gets as far as sending to a device: the handshake
      succeeded, the device is in developer mode and the service started. */
  predicate Served(d: DeviceModel, native: string -> Native)
  {
    native(d.udid).handshake && d.isDevMode && native(d.udid).startService
  }

  /** The loop of UpdateLocation AS WRITTEN: the four-byte header sent first to
      a device is the variable `size`, which starts as BE32(0) but is then
      reused for the length prefixes, so every device after the first served
      one receives the previous device's longitude-length prefix as its
      header. */
  function UpdateLoopAsWritten(devs: seq<DeviceModel>, native: string -> Native,
                               lat: string, lon: string, size: seq<byte>): (r: seq<Send>)
    ensures |r| == 5 * |ServedDevices(devs, native)|
    ensures forall k :: 0 <= k < |ServedDevices(devs, native)| ==>
              r[5 * k..5 * k + 5]
              == [Send(ServedDevices(devs, native)[k].udid, if k == 0 then size else BE32(|lon|))]
                 + CoordinateSends(ServedDevices(devs, native)[k].udid, lat, lon)
  {
    if |devs| == 0 then []
    else if !Served(devs[0], native) then UpdateLoopAsWritten(devs[1..], native, lat, lon, size)
    else
      var rest := UpdateLoopAsWritten(devs[1..], native, lat, lon, BE32(|lon|));
      var f := [Send(devs[0].udid, size)] + CoordinateSends(devs[0].udid, lat, lon);
      assert ServedDevices(devs, native) == [devs[0]] + ServedDevices(devs[1..], native);
      FramesShift(f, rest);
      f + rest
  }

  /** UpdateLocation as written: the first served device receives its
      location frame, every later served device the same coordinate sends
      behind the longitude-length header, and no other device receives
      anything. */
  function UpdateLocationAsWritten(devs: seq<DeviceModel>, native: string -> Native,
                                   lat: string, lon: string): (r: seq<Send>)
    ensures |r| == 5 * |ServedDevices(devs, native)|
    ensures 0 < |ServedDevices(devs, native)| ==>
              r[..5] == LocationFrame(ServedDevices(devs, native)[0].udid, lat, lon)
    ensures forall k :: 1 <= k < |ServedDevices(devs, native)| ==>
              r[5 * k..5 * k + 5]
              == [Send(ServedDevices(devs, native)[k].udid, BE32(|lon|))]
                 + CoordinateSends(ServedDevices(devs, native)[k].udid, lat, lon)
  {
    if |devs| == 0 then [] else UpdateLoopAsWritten(devs, native, lat, lon, BE32(0))
  }

  /** The frame a served device is evidently meant to receive: message type 0
      (set location), then the two length-prefixed coordinates. */
  function LocationFrame(udid: string, lat: string, lon: string): (r: seq<Send>)
    ensures |r| == 5 && r[0] == Send(udid, BE32(0))
  {
    [Send(udid, BE32(0))] + CoordinateSends(udid, lat, lon)
  }

  /** UpdateLocation with the header reset for every device: each served
      device, in list order, receives its own location frame, and no other
      device receives anything. */
  function UpdateLocation(devs: seq<DeviceModel>, native: string -> Native, lat: string, lon: string): (r: seq<Send>)
    ensures |r| == 5 * |ServedDevices(devs, native)|
    ensures forall k :: 0 <= k < |ServedDevices(devs, native)| ==>
              r[5 * k..5 * k + 5] == LocationFrame(ServedDevices(devs, native)[k].udid, lat, lon)
  {
    if |devs| == 0 then []
    else
      var rest := UpdateLocation(devs[1..], native, lat, lon);
      if !Served(devs[0], native) then rest
      else
        var f := LocationFrame(devs[0].udid, lat, lon);
        assert ServedDevices(devs, native) == [devs[0]] + ServedDevices(devs[1..], native);
        FramesShift(f, rest);
        f + rest
  }

  /** Behind a first frame of five sends, the k-th block of five is the
      (k-1)-th block of the rest. */
  lemma FramesShift(f: seq<Send>, rest: seq<Send>)
    requires |f| == 5
    ensures forall k :: 1 <= k && 5 * k + 5 <= |f| + |rest| ==>
              (f + rest)[5 * k..5 * k + 5] == rest[5 * (k - 1)..5 * (k - 1) + 5]
  {
    forall k | 1 <= k && 5 * k + 5 <= |f| + |rest|
      ensures (f + rest)[5 * k..5 * k + 5] == rest[5 * (k - 1)..5 * (k - 1) + 5]
    {
      var j := 5 * (k - 1);
      assert 5 * k == j + 5;
      SliceRight(f, rest, j + 5, j + 10);
    }
  }

  /** A slice inside the right part of a concatenation is a slice of that
      part. */
  lemma SliceRight<T>(x: seq<T>, y: seq<T>, i: int, j: int)
    requires |x| <= i <= j <= |x| + |y|
    ensures (x + y)[i..j] == y[i - |x|..j - |x|]
  {
  }

  /** The devices UpdateLocation sends to, in list order. */
  function ServedDevices(devs: seq<DeviceModel>, native: string -> Native): (r: seq<DeviceModel>)
    ensures forall k :: 0 <= k < |r| ==> r[k] in devs && Served(r[k], native)
    ensures forall d :: d in devs && Served(d, native) ==> d in r
  {
    if |devs| == 0 then []
    else if Served(devs[0], native) then [devs[0]] + ServedDevices(devs[1..], native)
    else ServedDevices(devs[1..], native)
  }

  /** The two loops agree on the first served device, and differ as soon as a
      second device is served and the longitude text is not empty: that
      device's header is the longitude length instead of message type 0. */
  lemma UpdateLocationHeaderReuse(d1: DeviceModel, d2: DeviceModel, native: string -> Native,
                                  lat: string, lon: string)
    requires Served(d1, native) && Served(d2, native)
    requires 0 < |lon| < TwoTo32
    ensures var w := UpdateLocationAsWritten([d1, d2], native, lat, lon);
            |w| == 10 && w[5] == Send(d2.udid, BE32(|lon|))
    ensures var c := UpdateLocation([d1, d2], native, lat, lon);
            |c| == 10 && c[5] == Send(d2.udid, BE32(0))
    ensures UpdateLocationAsWritten([d1, d2], native, lat, lon)[..5]
            == UpdateLocation([d1, d2], native, lat, lon)[..5]
    ensures UpdateLocationAsWritten([d1, d2], native, lat, lon) != UpdateLocation([d1, d2], native, lat, lon)
  {
    AsWrittenTwoDevices(d1, d2, native, lat, lon);
    CorrectedTwoDevices(d1, d2, native, lat, lon);
    LengthHeaderNotZero(|lon|);
    var w := UpdateLocationAsWritten([d1, d2], native, lat, lon);
    var c := UpdateLocation([d1, d2], native, lat, lon);
    assert w[5] != c[5];
  }

  /** For any device list, the two loops send the same number of messages to
      the same devices; they agree on the whole first frame and on every
      coordinate send, and differ exactly in the header of every later served
      device when the longitude text is not empty. */
  lemma AsWrittenDiffersOnlyInHeaders(devs: seq<DeviceModel>, native: string -> Native,
                                      lat: string, lon: string)
    ensures var w := UpdateLocationAsWritten(devs, native, lat, lon);
            var c := UpdateLocation(devs, native, lat, lon);
            && |w| == |c|
            && (0 < |w| ==> w[..5] == c[..5])
            && (forall k :: 0 <= k < |ServedDevices(devs, native)| ==>
                  w[5 * k + 1..5 * k + 5] == c[5 * k + 1..5 * k + 5])
    ensures var w := UpdateLocationAsWritten(devs, native, lat, lon);
            var c := UpdateLocation(devs, native, lat, lon);
            0 < |lon| < TwoTo32 ==>
              forall k :: 1 <= k < |ServedDevices(devs, native)| ==> w[5 * k] != c[5 * k]
  {
    var w := UpdateLocationAsWritten(devs, native, lat, lon);
    var c := UpdateLocation(devs, native, lat, lon);
    var sd := ServedDevices(devs, native);
    forall k | 0 <= k < |sd|
      ensures w[5 * k + 1..5 * k + 5] == c[5 * k + 1..5 * k + 5]
      ensures 1 <= k && 0 < |lon| < TwoTo32 ==> w[5 * k] != c[5 * k]
    {
      var wb := w[5 * k..5 * k + 5];
      var cb := c[5 * k..5 * k + 5];
      assert wb[1..] == CoordinateSends(sd[k].udid, lat, lon) == cb[1..];
      assert w[5 * k + 1..5 * k + 5] == wb[1..];
      assert c[5 * k + 1..5 * k + 5] == cb[1..];
      if 1 <= k && 0 < |lon| < TwoTo32 {
        LengthHeaderNotZero(|lon|);
        assert w[5 * k] == wb[0] == Send(sd[k].udid, BE32(|lon|));
        assert c[5 * k] == cb[0] == Send(sd[k].udid, BE32(0));
      }
    }
  }

  lemma AsWrittenTwoDevices(d1: DeviceModel, d2: DeviceModel, native: string -> Native, lat: string, lon: string)
    requires Served(d1, native) && Served(d2, native)
    ensures UpdateLocationAsWritten([d1, d2], native, lat, lon)
            == LocationFrame(d1.udid, lat, lon)
               + ([Send(d2.udid, BE32(|lon|))] + CoordinateSends(d2.udid, lat, lon))
  {
    assert [d1, d2][1..] == [d2];
    assert [d2][1..] == [];
    assert UpdateLoopAsWritten([], native, lat, lon, BE32(|lon|)) == [];
    var tail := UpdateLoopAsWritten([d2], native, lat, lon, BE32(|lon|));
    assert tail == [Send(d2.udid, BE32(|lon|))] + CoordinateSends(d2.udid, lat, lon) + [];
    assert UpdateLoopAsWritten([d1, d2], native, lat, lon, BE32(0))
           == [Send(d1.udid, BE32(0))] + CoordinateSends(d1.udid, lat, lon) + tail;
  }

  lemma CorrectedTwoDevices(d1: DeviceModel, d2: DeviceModel, native: string -> Native, lat: string, lon: string)
    requires Served(d1, native) && Served(d2, native)
    ensures UpdateLocation([d1, d2], native, lat, lon)
            == LocationFrame(d1.udid, lat, lon) + LocationFrame(d2.udid, lat, lon)
  {
    assert [d1, d2][1..] == [d2];
    assert [d2][1..] == [];
    assert UpdateLocation([d2], native, lat, lon) == LocationFrame(d2.udid, lat, lon) + [];
  }

  /** A non-zero length below 2^32 is not encoded as message type 0. */
  lemma LengthHeaderNotZero(n: int)
    requires 0 < n < TwoTo32
    ensures BE32(n) != BE32(0)
  {
    DecodeLength(0);
    DecodeLength(n);
  }

  /** A frame as a byte stream: the message type, then each coordinate as a
      big-endian length and that many ASCII bytes. */
  function Flatten(sends: seq<Send>): seq<byte>
  {
    if |sends| == 0 then [] else sends[0].bytes + Flatten(sends[1..])
  }

  /** How the receiving side reads a location frame: type, latitude text,
      longitude text. */
  function ParseLocationFrame(b: seq<byte>): Option<(int, string, string)>
  {
    if |b| < 8 then None
    else
      var kind := DecodeBE32(b[..4]);
      var n := DecodeBE32(b[4..8]);
      if |b| < 12 + n then None
      else
        var m := DecodeBE32(b[8 + n..12 + n]);
        if |b| != 12 + n + m then None
        else Some((kind, AsciiDecode(b[8..8 + n]), AsciiDecode(b[12 + n..])))
  }

  /** The byte stream of a location frame. */
  lemma FlattenLocationFrame(udid: string, lat: string, lon: string)
    ensures Flatten(LocationFrame(udid, lat, lon))
            == BE32(0) + BE32(|lat|) + Ascii(lat) + BE32(|lon|) + Ascii(lon)
  {
    FlattenFive(Send(udid, BE32(0)), Send(udid, BE32(|lat|)), Send(udid, Ascii(lat)),
                Send(udid, BE32(|lon|)), Send(udid, Ascii(lon)));
  }

  lemma FlattenFive(s0: Send, s1: Send, s2: Send, s3: Send, s4: Send)
    ensures Flatten([s0, s1, s2, s3, s4]) == s0.bytes + s1.bytes + s2.bytes + s3.bytes + s4.bytes
  {
    var t4 := [s4];
    var t3 := [s3] + t4;
    var t2 := [s2] + t3;
    var t1 := [s1] + t2;
    assert [s0, s1, s2, s3, s4] == [s0] + t1;
    FlattenCons(s4, []);
    FlattenCons(s3, t4);
    FlattenCons(s2, t3);
    FlattenCons(s1, t2);
    FlattenCons(s0, t1);
  }

  lemma FlattenCons(s: Send, rest: seq<Send>)
    ensures Flatten([s] + rest) == s.bytes + Flatten(rest)
  {
    assert ([s] + rest)[1..] == rest;
  }

  /** Decoding an encoded length below 2^32 gives the length back. */
  lemma DecodeLength(n: int)
    requires 0 <= n < TwoTo32
    ensures DecodeBE32(BE32(n)) == n
  {
    BE32RoundTrip(n, BE32(0));
  }

  /** A location frame sent to a device parses back as message type 0 with the
      two coordinate texts, provided they are ASCII (as number formatting
      produces). */
  lemma LocationFrameParses(udid: string, lat: string, lon: string)
    requires IsAscii(lat) && IsAscii(lon)
    requires |lat| < TwoTo32 && |lon| < TwoTo32
    ensures ParseLocationFrame(Flatten(LocationFrame(udid, lat, lon))) == Some((0, lat, lon))
  {
    FlattenLocationFrame(udid, lat, lon);
    DecodeLength(0);
    DecodeLength(|lat|);
    DecodeLength(|lon|);
    ParseFields(BE32(0), BE32(|lat|), Ascii(lat), BE32(|lon|), Ascii(lon));
    AsciiRoundTrip(lat);
    AsciiRoundTrip(lon);
  }

  /** A type, a length-prefixed text and another length-prefixed text parse
      back into the type and the two texts. */
  lemma ParseFields(h: seq<byte>, l1: seq<byte>, a: seq<byte>, l2: seq<byte>, b: seq<byte>)
    requires |h| == 4 && |l1| == 4 && |l2| == 4
    requires DecodeBE32(l1) == |a| && DecodeBE32(l2) == |b|
    ensures ParseLocationFrame(h + l1 + a + l2 + b) == Some((DecodeBE32(h), AsciiDecode(a), AsciiDecode(b)))
  {
    FrameParts(h, l1, a, l2, b);
  }

  /** Where the five parts of a frame sit in its byte stream. */
  lemma FrameParts(h: seq<byte>, l1: seq<byte>, a: seq<byte>, l2: seq<byte>, b: seq<byte>)
    requires |h| == 4 && |l1| == 4 && |l2| == 4
    ensures var bytes, n := h + l1 + a + l2 + b, |a|;
            && |bytes| == 12 + n + |b|
            && bytes[..4] == h && bytes[4..8] == l1 && bytes[8..8 + n] == a
            && bytes[8 + n..12 + n] == l2 && bytes[12 + n..] == b
  {
    var bytes := h + l1 + a + l2 + b;
    var n := |a|;
    assert bytes[..4] == h;
    assert bytes[4..8] == l1;
    assert bytes[8..8 + n] == a;
    assert bytes[8 + n..12 + n] == l2;
    assert bytes[12 + n..] == b;
  }

  /** The two four-byte messages ClearLocation sends. */
  const ClearFirst: seq<byte> := [0, 0, 0, 0]
  const ClearSecond: seq<byte> := [0, 0, 0, 1]

  /** Whether ClearLocation gets as far as sending to a device: the
      handshake, the service start and the service client creation succeed.
      Unlike UpdateLocation, the developer-mode flag is not consulted. */
  predicate Clearable(d: DeviceModel, native: string -> Native)
  {
    native(d.udid).handshake && native(d.udid).startService && native(d.udid).clientNew
  }

  /** The sends ClearLocation makes to one device: [0,0,0,0] once the checks
      pass, then [0,0,0,1] only if the first send succeeded. */
  function ClearSends(d: DeviceModel, native: string -> Native): (r: seq<Send>)
    ensures !Clearable(d, native) ==> r == []
    ensures Clearable(d, native) ==> 1 <= |r| && r[0] == Send(d.udid, ClearFirst)
    ensures |r| == 2 <==> Clearable(d, native) && native(d.udid).firstSendOk
    ensures |r| <= 2 && (|r| == 2 ==> r[1] == Send(d.udid, ClearSecond))
  {
    if !Clearable(d, native) then []
    else if !native(d.udid).firstSendOk then [Send(d.udid, ClearFirst)]
    else [Send(d.udid, ClearFirst), Send(d.udid, ClearSecond)]
  }

  /** ClearLocation: every device is visited in list order.  Each clearable
      device receives [0,0,0,0], and then [0,0,0,1] when the first send
      succeeded; every message goes to a clearable device of the list, and a
      [0,0,0,1] always directly follows a [0,0,0,0] to the same device. */
  function ClearLocation(devs: seq<DeviceModel>, native: string -> Native): (r: seq<Send>)
    ensures |devs| == 0 ==> r == []
    ensures forall k :: 0 <= k < |r| ==> r[k].bytes == ClearFirst || r[k].bytes == ClearSecond
    ensures forall k :: 0 <= k < |r| && r[k].bytes == ClearSecond ==>
              0 < k && r[k - 1] == Send(r[k].udid, ClearFirst)
    ensures forall d :: d in devs && Clearable(d, native) ==> Send(d.udid, ClearFirst) in r
    ensures forall d :: d in devs && Clearable(d, native) && native(d.udid).firstSendOk ==>
              Send(d.udid, ClearSecond) in r
    ensures forall k :: 0 <= k < |r| ==> exists d :: d in devs && r[k] in ClearSends(d, native)
  {
    if |devs| == 0 then []
    else
      var rest := ClearLocation(devs[1..], native);
      ClearConsShape(devs[0], native, rest);
      ClearConsCovers(devs, native, rest);
      ClearSends(devs[0], native) + rest
  }

  /** Putting one device's sends in front of a well-shaped send list keeps
      it well shaped: only the two clear messages, and each [0,0,0,1] right
      after a [0,0,0,0] to the same device. */
  lemma ClearConsShape(d: DeviceModel, native: string -> Native, rest: seq<Send>)
    requires forall k :: 0 <= k < |rest| ==> rest[k].bytes == ClearFirst || rest[k].bytes == ClearSecond
    requires forall k :: 0 <= k < |rest| && rest[k].bytes == ClearSecond ==>
               0 < k && rest[k - 1] == Send(rest[k].udid, ClearFirst)
    ensures var r := ClearSends(d, native) + rest;
            forall k :: 0 <= k < |r| ==> r[k].bytes == ClearFirst || r[k].bytes == ClearSecond
    ensures var r := ClearSends(d, native) + rest;
            forall k :: 0 <= k < |r| && r[k].bytes == ClearSecond ==>
              0 < k && r[k - 1] == Send(r[k].udid, ClearFirst)
  {
    var mine := ClearSends(d, native);
    var r := mine + rest;
    assert ClearFirst != ClearSecond by { assert ClearFirst[3] != ClearSecond[3]; }
    forall k | 0 <= k < |r|
      ensures r[k].bytes == ClearFirst || r[k].bytes == ClearSecond
      ensures r[k].bytes == ClearSecond ==> 0 < k && r[k - 1] == Send(r[k].udid, ClearFirst)
    {
      if k < |mine| {
        assert r[k] == mine[k];
        if k == 1 {
          assert r[0] == mine[0];
        }
      } else {
        var j := k - |mine|;
        assert r[k] == rest[j];
        if rest[j].bytes == ClearSecond {
          assert r[k - 1] == rest[j - 1];
        }
      }
    }
  }

  /** Putting the first device's sends in front of the sends for the rest of
      the list covers every clearable device of the whole list, and sends to
      no device outside it. */
  lemma ClearConsCovers(devs: seq<DeviceModel>, native: string -> Native, rest: seq<Send>)
    requires |devs| > 0
    requires forall d :: d in devs[1..] && Clearable(d, native) ==> Send(d.udid, ClearFirst) in rest
    requires forall d :: d in devs[1..] && Clearable(d, native) && native(d.udid).firstSendOk ==>
               Send(d.udid, ClearSecond) in rest
    requires forall k :: 0 <= k < |rest| ==> exists d :: d in devs[1..] && rest[k] in ClearSends(d, native)
    ensures var r := ClearSends(devs[0], native) + rest;
            forall d :: d in devs && Clearable(d, native) ==> Send(d.udid, ClearFirst) in r
    ensures var r := ClearSends(devs[0], native) + rest;
            forall d :: d in devs && Clearable(d, native) && native(d.udid).firstSendOk ==>
              Send(d.udid, ClearSecond) in r
    ensures var r := ClearSends(devs[0], native) + rest;
            forall k :: 0 <= k < |r| ==> exists d :: d in devs && r[k] in ClearSends(d, native)
  {
    var mine := ClearSends(devs[0], native);
    var r := mine + rest;
    forall d | d in devs
      ensures Clearable(d, native) ==> Send(d.udid, ClearFirst) in r
      ensures Clearable(d, native) && native(d.udid).firstSendOk ==> Send(d.udid, ClearSecond) in r
    {
      if d != devs[0] {
        assert d in devs[1..];
      }
    }
    forall k | 0 <= k < |r|
      ensures exists d :: d in devs && r[k] in ClearSends(d, native)
    {
      if k < |mine| {
        assert r[k] == mine[k] && devs[0] in devs;
      } else {
        assert r[k] == rest[k - |mine|];
        var d :| d in devs[1..] && rest[k - |mine|] in ClearSends(d, native);
        assert d in devs;
      }
    }
  }

  /** ClearLocation is the per-device sends of the devices, concatenated in
      list order. */
  lemma {:induction false} ClearLocationPerDevice(devs: seq<DeviceModel>, native: string -> Native)
    ensures ClearLocation(devs, native)
            == Concat(seq(|devs|, k requires 0 <= k < |devs| => ClearSends(devs[k], native)))
  {
    ClearLocationConcat(devs, native);
    var per := PerDeviceSends(devs, native);
    var all := seq(|devs|, k requires 0 <= k < |devs| => ClearSends(devs[k], native));
    forall k | 0 <= k < |devs|
      ensures per[k] == all[k]
    {
    }
    assert per == all;
  }

  /** The sends for each device of the list, in list order. */
  function PerDeviceSends(devs: seq<DeviceModel>, native: string -> Native): (r: seq<seq<Send>>)
    ensures |r| == |devs| && forall k :: 0 <= k < |devs| ==> r[k] == ClearSends(devs[k], native)
  {
    if |devs| == 0 then [] else [ClearSends(devs[0], native)] + PerDeviceSends(devs[1..], native)
  }

  lemma {:induction false} ClearLocationConcat(devs: seq<DeviceModel>, native: string -> Native)
    ensures ClearLocation(devs, native) == Concat(PerDeviceSends(devs, native))
  {
    if |devs| > 0 {
      var all := PerDeviceSends(devs, native);
      assert all[1..] == PerDeviceSends(devs[1..], native);
      ClearLocationConcat(devs[1..], native);
    }
  }

  /** The clear messages are BE32(0) and BE32(1). */
  lemma ClearMessagesAreBE32()
    ensures ClearFirst == BE32(0) && ClearSecond == BE32(1)
  {
  }

  // ---------------------------------------------------------------------
  // One round of the polling loop

  /** The outcome of probing a newly reported device: the first handshake,
      the device name (None when lockdownd_get_device_name fails), the second
      handshake, the ProductVersion and BuildVersion values (None when
      lockdownd_get_value fails, leaving a null node), and developer mode. */
  datatype Probe = Probe(handshake1: bool, name: Option<string>, handshake2: bool,
                         productVersion: Option<string>, buildVersion: Option<string>, devMode: bool)

  /** LINQ `xs.Except(ys)`: the distinct elements of `xs` that are not in
      `ys`, in the order of their first occurrence. */
  function Except<T(==)>(xs: seq<T>, ys: seq<T>): (r: seq<T>)
    ensures forall k :: 0 <= k < |r| ==> r[k] in xs && r[k] !in ys
    ensures forall x :: x in xs && x !in ys ==> x in r
    ensures forall i, j :: 0 <= i < j < |r| ==> r[i] != r[j]
    ensures forall i, j :: 0 <= i < j < |r| ==> IndexOf(xs, r[i]) < IndexOf(xs, r[j])
    decreases |xs|
  {
    if |xs| == 0 then []
    else
      var rest := Except(xs[1..], ys + [xs[0]]);
      assert forall k :: 0 <= k < |rest| ==> rest[k] != xs[0];
      IndexOfTail(xs, rest);
      if xs[0] in ys then rest
      else [xs[0]] + rest
  }

  /** Behind the head, the first index of a value in `xs` is one more than its
      first index in the tail. */
  lemma IndexOfTail<T>(xs: seq<T>, rest: seq<T>)
    requires |xs| > 0
    requires forall k :: 0 <= k < |rest| ==> rest[k] in xs[1..] && rest[k] != xs[0]
    ensures forall k :: 0 <= k < |rest| ==> IndexOf(xs, rest[k]) == IndexOf(xs[1..], rest[k]) + 1 > 0
  {
  }

  function Udids(devs: seq<DeviceModel>): (r: seq<string>)
    ensures |r| == |devs| && forall k :: 0 <= k < |devs| ==> r[k] == devs[k].udid
  {
    if |devs| == 0 then [] else [devs[0].udid] + Udids(devs[1..])
  }

  /** The device-adding loop AS WRITTEN: after the version lookups the code
      tests the name lookup's status again instead of the value lookup's, so a
      failed ProductVersion lookup is not skipped and `version.Split` is
      called on null. */
  function AddNewAsWritten(reg: Registry, udids: seq<string>, probe: string -> Probe): (r: Result<Registry>)
    ensures r.Err? ==> r.fault == NullReference
    ensures r.Err? <==> exists k :: 0 <= k < |udids| && PassesChecks(probe(udids[k]))
                                    && probe(udids[k]).productVersion.None?
    ensures r.Ok? && (forall k :: 0 <= k < |udids| ==> probe(udids[k]).buildVersion.Some?) ==>
              r.value == AddNew(reg, udids, probe)
    decreases |udids|
  {
    if |udids| == 0 then Ok(reg)
    else
      var p := probe(udids[0]);
      assert forall k :: 1 <= k < |udids| ==> udids[k] == udids[1..][k - 1];
      if !PassesChecks(p) then AddNewAsWritten(reg, udids[1..], probe)
      else if p.productVersion.None? then Err(NullReference)
      else
        var build := if p.buildVersion.Some? then p.buildVersion.value else "";
        var d := MakeDevice(udids[0], p.name.value, p.productVersion.value, build, p.devMode);
        AddNewAsWritten(DeviceAddRemove(reg, d, AddDevice), udids[1..], probe)
  }

  /** The lookups the code as written does check: both handshakes and the
      device name. */
  predicate PassesChecks(p: Probe)
  {
    p.handshake1 && p.name.Some? && p.handshake2
  }

  /** Whether a probed device is added once the value lookups are checked. */
  predicate Accepted(p: Probe)
  {
    p.handshake1 && p.name.Some? && p.handshake2 && p.productVersion.Some? && p.buildVersion.Some?
  }

  /** The device-adding loop with the value lookups checked: every accepted
      device is appended, in order, and nothing already known is touched. */
  function AddNew(reg: Registry, udids: seq<string>, probe: string -> Probe): (r: Registry)
    ensures |reg.devices| <= |r.devices| && r.devices[..|reg.devices|] == reg.devices
    ensures |r.devices| == |reg.devices| ==> r == reg
    ensures |r.devices| > |reg.devices| ==> r.provEnabled
    decreases |udids|
  {
    if |udids| == 0 then reg
    else
      var p := probe(udids[0]);
      if !Accepted(p) then AddNew(reg, udids[1..], probe)
      else
        var d := MakeDevice(udids[0], p.name.value, p.productVersion.value, p.buildVersion.value, p.devMode);
        AddNew(DeviceAddRemove(reg, d, AddDevice), udids[1..], probe)
  }

  /** The UDIDs of the accepted devices, in order. */
  function AcceptedUdids(udids: seq<string>, probe: string -> Probe): (r: seq<string>)
    ensures forall k :: 0 <= k < |r| ==> r[k] in udids && Accepted(probe(r[k]))
    ensures forall u :: u in udids && Accepted(probe(u)) ==> u in r
    ensures Distinct(udids) ==> Distinct(r)
  {
    if |udids| == 0 then []
    else if Accepted(probe(udids[0])) then [udids[0]] + AcceptedUdids(udids[1..], probe)
    else AcceptedUdids(udids[1..], probe)
  }

  /** The devices added are exactly the accepted ones, in the order probed. */
  lemma {:induction false} AddNewAddsAccepted(reg: Registry, udids: seq<string>, probe: string -> Probe)
    ensures Udids(AddNew(reg, udids, probe).devices) == Udids(reg.devices) + AcceptedUdids(udids, probe)
    decreases |udids|
  {
    if |udids| > 0 {
      var p := probe(udids[0]);
      if !Accepted(p) {
        AddNewAddsAccepted(reg, udids[1..], probe);
        assert AddNew(reg, udids, probe) == AddNew(reg, udids[1..], probe);
        assert AcceptedUdids(udids, probe) == AcceptedUdids(udids[1..], probe);
      } else {
        var d := MakeDevice(udids[0], p.name.value, p.productVersion.value, p.buildVersion.value, p.devMode);
        var reg1 := DeviceAddRemove(reg, d, AddDevice);
        AddNewAddsAccepted(reg1, udids[1..], probe);
        assert AddNew(reg, udids, probe) == AddNew(reg1, udids[1..], probe);
        assert AcceptedUdids(udids, probe) == [udids[0]] + AcceptedUdids(udids[1..], probe);
        UdidsSnoc(reg.devices, reg1.devices[|reg.devices|]);
        assert reg1.devices == reg.devices + [reg1.devices[|reg.devices|]];
        assert Udids(reg1.devices) == Udids(reg.devices) + [udids[0]];
      }
    }
  }

  /** The UDIDs of a list with one more device end with its UDID. */
  lemma UdidsSnoc(devs: seq<DeviceModel>, d: DeviceModel)
    ensures Udids(devs + [d]) == Udids(devs) + [d.udid]
  {
  }

  /** One round of the polling loop as written: when the device list reported
      by the system is empty, the whole registry is cleared; otherwise every
      reported device not yet known is probed and added.  Devices that
      vanished are never removed one by one. */
  function ListenStepAsWritten(reg: Registry, reported: seq<string>, probe: string -> Probe): (r: Result<Registry>)
    ensures |reported| == 0 ==> r == Ok(ListenStep(reg, reported, probe))
    ensures r.Err? ==> r.fault == NullReference
    ensures r.Ok? && (forall u :: u in reported ==> probe(u).buildVersion.Some?) ==>
              r.value == ListenStep(reg, reported, probe)
  {
    if |reported| == 0 then Ok(DeviceAddRemove(reg, DeviceModel("", "", "", "", false, "", ""), ClearAll))
    else AddNewAsWritten(reg, Except(reported, Udids(reg.devices)), probe)
  }

  /** One round of the polling loop with the value lookups checked. */
  function ListenStep(reg: Registry, reported: seq<string>, probe: string -> Probe): (r: Registry)
    ensures |reported| == 0 ==> r == Registry([], false)
    ensures |reported| > 0 ==> |reg.devices| <= |r.devices| && r.devices[..|reg.devices|] == reg.devices
  {
    if |reported| == 0 then DeviceAddRemove(reg, DeviceModel("", "", "", "", false, "", ""), ClearAll)
    else AddNew(reg, Except(reported, Udids(reg.devices)), probe)
  }

  predicate Distinct<T(==)>(s: seq<T>)
  {
    forall i, j :: 0 <= i < j < |s| ==> s[i] != s[j]
  }

  /** A polling round never registers a device twice: if the known devices
      have distinct UDIDs, so do the devices afterwards, and the new ones are
      exactly the accepted devices among those reported and not yet known. */
  lemma ListenStepKeepsUdidsDistinct(reg: Registry, reported: seq<string>, probe: string -> Probe)
    requires Distinct(Udids(reg.devices))
    ensures Distinct(Udids(ListenStep(reg, reported, probe).devices))
    ensures |reported| > 0 ==>
              Udids(ListenStep(reg, reported, probe).devices)
                == Udids(reg.devices) + AcceptedUdids(Except(reported, Udids(reg.devices)), probe)
  {
    if |reported| > 0 {
      var known := Udids(reg.devices);
      var unknown := Except(reported, known);
      AddNewAddsAccepted(reg, unknown, probe);
      var added := AcceptedUdids(unknown, probe);
      assert forall k :: 0 <= k < |added| ==> added[k] in unknown && added[k] !in known;
      DistinctConcat(known, added);
    }
  }

  lemma DistinctConcat<T>(a: seq<T>, b: seq<T>)
    requires Distinct(a) && Distinct(b)
    requires forall k :: 0 <= k < |b| ==> b[k] !in a
    ensures Distinct(a + b)
  {
    var all := a + b;
    forall i, j | 0 <= i < j < |all| ensures all[i] != all[j] {
      if i < |a| <= j {
        assert all[j] == b[j - |a|];
      }
    }
  }

  /** The two versions of the loop agree unless a device passes the handshakes
      and the name lookup but its ProductVersion lookup fails; then the code as
      written throws where the check would have skipped the device. */
  lemma AddNewGuardFinding(reg: Registry, u: string, probe: string -> Probe)
    requires probe(u) == Probe(true, Some("phone"), true, None, Some("17A"), true)
    ensures AddNewAsWritten(reg, [u], probe) == Err(NullReference)
    ensures AddNew(reg, [u], probe) == reg
  {
    assert [u][1..] == [];
  }
}
