/**
 * `_get_active_config_descriptor`: the configuration descriptor of the active
 * configuration with its interface and endpoint descriptors (sections 9.6.3,
 * 9.6.5 and 9.6.6 of the USB 2.0 specification), serialised into one buffer.
 *
 * Every alternate setting of every interface gets its own 9-byte interface
 * record, followed by one 7-byte record per endpoint, in the order of the
 * WebUSB lists.
 */
module ConfigDescriptor {
  import opened Bits
  import opened Devices
  import opened Outcomes
  import Endpoint

  const CONFIG_DESCRIPTOR_LENGTH: nat := 9
  const INTERFACE_DESCRIPTOR_LENGTH: nat := 9
  const ENDPOINT_DESCRIPTOR_LENGTH: nat := 7
  /** `LIBUSB_DT_CONFIG`, `LIBUSB_DT_INTERFACE`, `LIBUSB_DT_ENDPOINT`. */
  const DT_CONFIG: Byte := 2
  const DT_INTERFACE: Byte := 4
  const DT_ENDPOINT: Byte := 5

  /** The alternate settings of all interfaces, in the order the serialiser visits them. */
  function Alternates(ifaces: seq<UsbInterface>): seq<UsbAlternate> {
    if ifaces == [] then [] else ifaces[0].alternates + Alternates(ifaces[1..])
  }

  /** The number of endpoints over a list of alternate settings. */
  function EndpointCount(alts: seq<UsbAlternate>): nat {
    if alts == [] then 0 else |alts[0].endpoints| + EndpointCount(alts[1..])
  }

  /** `descriptor_length`: one configuration record, then the interface and endpoint records. */
  function TotalLength(c: UsbConfiguration): nat {
    var alts := Alternates(c.interfaces);
    EndpointCount(alts) * ENDPOINT_DESCRIPTOR_LENGTH + |alts| * INTERFACE_DESCRIPTOR_LENGTH + CONFIG_DESCRIPTOR_LENGTH
  }

  /** The 9-byte configuration record for a buffer of `length` bytes holding `alternates` interface records. */
  function Header(c: UsbConfiguration, length: nat, alternates: nat): (h: seq<Byte>)
    ensures |h| == CONFIG_DESCRIPTOR_LENGTH
  {
    [ CONFIG_DESCRIPTOR_LENGTH, DT_CONFIG, JsLow(length), JsHigh(length), ByteOf(alternates),
      c.configurationValue, INDEX_CONFIG, 0, 0 ]
  }

  /** The 9-byte interface record of one alternate setting. */
  function InterfaceRecord(alt: UsbAlternate): (r: seq<Byte>)
    ensures |r| == INTERFACE_DESCRIPTOR_LENGTH
  {
    [ INTERFACE_DESCRIPTOR_LENGTH, DT_INTERFACE, alt.interfaceNumber, alt.alternateSetting,
      ByteOf(|alt.endpoints|), alt.interfaceClass, alt.interfaceSubClass, alt.interfaceProtocol,
      INDEX_INTERFACE ]
  }

  /** The 7-byte endpoint record: the address byte, then the packet size little-endian. */
  function EndpointRecord(ep: UsbEndpoint): (r: seq<Byte>)
    ensures |r| == ENDPOINT_DESCRIPTOR_LENGTH
  {
    [ ENDPOINT_DESCRIPTOR_LENGTH, DT_ENDPOINT, Endpoint.Address(ep.endpointNumber, ep.direction), 0,
      JsLow(ep.packetSize), JsHigh(ep.packetSize), 0 ]
  }

  /** The endpoint records of a list of endpoints, in order. */
  function EndpointRecords(eps: seq<UsbEndpoint>): seq<Byte> {
    if eps == [] then [] else EndpointRecord(eps[0]) + EndpointRecords(eps[1..])
  }

  /** An interface record followed by the records of its endpoints. */
  function AlternateRecords(alt: UsbAlternate): seq<Byte> {
    InterfaceRecord(alt) + EndpointRecords(alt.endpoints)
  }

  /** The records of a list of alternate settings, in order. */
  function BodyBytes(alts: seq<UsbAlternate>): seq<Byte> {
    if alts == [] then [] else AlternateRecords(alts[0]) + BodyBytes(alts[1..])
  }

  /** The whole descriptor as the serialiser lays it out. */
  function ConfigBytes(c: UsbConfiguration): seq<Byte> {
    var alts := Alternates(c.interfaces);
    Header(c, TotalLength(c), |alts|) + BodyBytes(alts)
  }

  lemma {:induction false} AlternatesAppend(a: seq<UsbInterface>, b: seq<UsbInterface>)
    ensures Alternates(a + b) == Alternates(a) + Alternates(b)
  {
    if a != [] {
      assert (a + b)[1..] == a[1..] + b;
      assert (a + b)[0] == a[0];
      AlternatesAppend(a[1..], b);
    } else {
      assert a + b == b;
    }
  }

  lemma {:induction false} EndpointCountAppend(a: seq<UsbAlternate>, b: seq<UsbAlternate>)
    ensures EndpointCount(a + b) == EndpointCount(a) + EndpointCount(b)
  {
    if a != [] {
      assert (a + b)[1..] == a[1..] + b;
      assert (a + b)[0] == a[0];
      EndpointCountAppend(a[1..], b);
    } else {
      assert a + b == b;
    }
  }

  lemma {:induction false} EndpointRecordsAppend(a: seq<UsbEndpoint>, b: seq<UsbEndpoint>)
    ensures EndpointRecords(a + b) == EndpointRecords(a) + EndpointRecords(b)
  {
    if a != [] {
      assert (a + b)[1..] == a[1..] + b;
      assert (a + b)[0] == a[0];
      EndpointRecordsAppend(a[1..], b);
    } else {
      assert a + b == b;
    }
  }

  lemma {:induction false} BodyBytesAppend(a: seq<UsbAlternate>, b: seq<UsbAlternate>)
    ensures BodyBytes(a + b) == BodyBytes(a) + BodyBytes(b)
  {
    if a != [] {
      assert (a + b)[1..] == a[1..] + b;
      assert (a + b)[0] == a[0];
      BodyBytesAppend(a[1..], b);
    } else {
      assert a + b == b;
    }
  }

  lemma {:induction false} EndpointRecordsSize(eps: seq<UsbEndpoint>)
    ensures |EndpointRecords(eps)| == ENDPOINT_DESCRIPTOR_LENGTH * |eps|
  {
    if eps != [] {
      EndpointRecordsSize(eps[1..]);
    }
  }

  lemma {:induction false} BodyBytesSize(alts: seq<UsbAlternate>)
    ensures |BodyBytes(alts)| == INTERFACE_DESCRIPTOR_LENGTH * |alts| + ENDPOINT_DESCRIPTOR_LENGTH * EndpointCount(alts)
  {
    if alts != [] {
      EndpointRecordsSize(alts[0].endpoints);
      BodyBytesSize(alts[1..]);
    }
  }

  /**
   * The precomputed length is exactly the size of the records written, and the
   * header holds that length (modulo 2^16, low byte first) and the number of
   * alternate settings (modulo 256), not the number of interfaces.
   */
  lemma ConfigLayout(c: UsbConfiguration)
    ensures |ConfigBytes(c)| == TotalLength(c)
    ensures ConfigBytes(c)[0] == 9 && ConfigBytes(c)[1] == DT_CONFIG
    ensures TotalLength(c) < 0x8000_0000 ==> WordOf(ConfigBytes(c)[2], ConfigBytes(c)[3]) == TotalLength(c) % 0x1_0000
    ensures ConfigBytes(c)[4] == |Alternates(c.interfaces)| % 256
    ensures ConfigBytes(c)[5] == c.configurationValue
  {
    BodyBytesSize(Alternates(c.interfaces));
    if TotalLength(c) < 0x8000_0000 {
      SplitWord(TotalLength(c));
    }
  }

  function Zeros(n: nat): (z: seq<Byte>)
    ensures |z| == n
  {
    seq(n, _ => 0)
  }

  /** Write `rec` into `data` at `offset`. */
  function Put(data: seq<Byte>, offset: nat, rec: seq<Byte>): (r: seq<Byte>)
    requires offset + |rec| <= |data|
    ensures |r| == |data|
  {
    data[..offset] + rec + data[offset + |rec|..]
  }

  /** Writing a record just after what has been written so far, into the zeroed rest of the buffer. */
  lemma PutNext(written: seq<Byte>, rec: seq<Byte>, n: nat)
    requires |rec| <= n
    ensures Put(written + Zeros(n), |written|, rec) == (written + rec) + Zeros(n - |rec|)
  {
    var data := written + Zeros(n);
    assert data[..|written|] == written;
    assert data[|written| + |rec|..] == Zeros(n - |rec|);
  }

  /** `data` holds `written` followed by zeros. */
  predicate Filled(data: seq<Byte>, written: seq<Byte>) {
    |written| <= |data| && data == written + Zeros(|data| - |written|)
  }

  /** The counting walk over the alternates of one interface. */
  method CountEndpoints(alts: seq<UsbAlternate>) returns (n: nat)
    ensures n == EndpointCount(alts)
  {
    n := 0;
    var j := 0;
    while j < |alts|
      invariant j <= |alts|
      invariant n == EndpointCount(alts[..j])
    {
      EndpointCountStep(alts, j);
      n := n + |alts[j].endpoints|;
      j := j + 1;
    }
    assert alts[..j] == alts;
  }

  /** The counting walk: interface records (one per alternate setting) and endpoints. */
  method CountRecords(ifaces: seq<UsbInterface>) returns (numInterfaces: nat, numEndpoints: nat)
    ensures numInterfaces == |Alternates(ifaces)|
    ensures numEndpoints == EndpointCount(Alternates(ifaces))
  {
    numInterfaces, numEndpoints := 0, 0;
    var i := 0;
    while i < |ifaces|
      invariant i <= |ifaces|
      invariant numInterfaces == |Alternates(ifaces[..i])|
      invariant numEndpoints == EndpointCount(Alternates(ifaces[..i]))
    {
      var alts := ifaces[i].alternates;
      CountStep(ifaces, i);
      EndpointCountAppend(Alternates(ifaces[..i]), alts);
      numInterfaces := numInterfaces + |alts|;
      var n := CountEndpoints(alts);
      numEndpoints := numEndpoints + n;
      i := i + 1;
    }
    assert ifaces[..i] == ifaces;
  }

  /** Write one record at `offset`, just after what has been written. */
  method WriteRecord(data: seq<Byte>, offset: nat, rec: seq<Byte>, ghost written: seq<Byte>)
    returns (data': seq<Byte>, offset': nat)
    requires Filled(data, written) && offset == |written| && |written| + |rec| <= |data|
    ensures Filled(data', written + rec) && offset' == |written + rec| && |data'| == |data|
  {
    PutNext(written, rec, |data| - |written|);
    data' := Put(data, offset, rec);
    offset' := offset + |rec|;
  }

  /** The endpoint walk of one alternate setting. */
  method WriteEndpoints(data: seq<Byte>, offset: nat, eps: seq<UsbEndpoint>, ghost written: seq<Byte>)
    returns (data': seq<Byte>, offset': nat)
    requires Filled(data, written) && offset == |written|
    requires |written| + |EndpointRecords(eps)| <= |data|
    ensures Filled(data', written + EndpointRecords(eps)) && offset' == |written + EndpointRecords(eps)|
    ensures |data'| == |data|
  {
    data', offset' := data, offset;
    var k := 0;
    EndpointRecordsAppend(eps[..0], eps[0..]);
    while k < |eps|
      invariant k <= |eps| && |data'| == |data|
      invariant |written| + |EndpointRecords(eps[..k])| + |EndpointRecords(eps[k..])| <= |data|
      invariant Filled(data', written + EndpointRecords(eps[..k])) && offset' == |written + EndpointRecords(eps[..k])|
    {
      EndpointStep(written, eps, k);
      data', offset' := WriteRecord(data', offset', EndpointRecord(eps[k]), written + EndpointRecords(eps[..k]));
      k := k + 1;
    }
    assert eps[..k] == eps;
  }

  /** The walk over a list of alternate settings: each interface record, then its endpoint records. */
  method WriteAlternates(data: seq<Byte>, offset: nat, alts: seq<UsbAlternate>, ghost written: seq<Byte>)
    returns (data': seq<Byte>, offset': nat)
    requires Filled(data, written) && offset == |written|
    requires |written| + |BodyBytes(alts)| <= |data|
    ensures Filled(data', written + BodyBytes(alts)) && offset' == |written + BodyBytes(alts)|
    ensures |data'| == |data|
  {
    data', offset' := data, offset;
    var j := 0;
    BodyBytesAppend(alts[..0], alts[0..]);
    while j < |alts|
      invariant j <= |alts| && |data'| == |data|
      invariant |written| + |BodyBytes(alts[..j])| + |BodyBytes(alts[j..])| <= |data|
      invariant Filled(data', written + BodyBytes(alts[..j])) && offset' == |written + BodyBytes(alts[..j])|
    {
      var alt := alts[j];
      ghost var before := written + BodyBytes(alts[..j]);
      AlternateStep(written, alts, j);
      data', offset' := WriteRecord(data', offset', InterfaceRecord(alt), before);
      data', offset' := WriteEndpoints(data', offset', alt.endpoints, before + InterfaceRecord(alt));
      j := j + 1;
    }
    assert alts[..j] == alts;
  }

  /**
   * The serialiser's two walks over the interfaces and their alternate settings:
   * one counting interface records and endpoints to size a zeroed buffer, one
   * writing the records at a moving offset. The offset ends exactly at the end of
   * the buffer, and the buffer holds `ConfigBytes(c)`.
   */
  method SerializeConfig(c: UsbConfiguration) returns (data: seq<Byte>, offset: nat)
    ensures data == ConfigBytes(c)
    ensures offset == |data| == TotalLength(c)
  {
    var ifaces := c.interfaces;
    var numInterfaces, numEndpoints := CountRecords(ifaces);
    var length := numEndpoints * ENDPOINT_DESCRIPTOR_LENGTH + numInterfaces * INTERFACE_DESCRIPTOR_LENGTH
                  + CONFIG_DESCRIPTOR_LENGTH;
    ConfigLayout(c);
    var header := Header(c, length, numInterfaces);
    data := Zeros(length);
    assert Filled(data, []);
    data, offset := WriteRecord(data, 0, header, []);
    assert [] + header == header;
    ghost var written := header;
    var i := 0;
    AlternatesAppend(ifaces[..0], ifaces[0..]);
    while i < |ifaces|
      invariant i <= |ifaces| && |data| == length
      invariant |written| + |BodyBytes(Alternates(ifaces[i..]))| <= length
      invariant written == header + BodyBytes(Alternates(ifaces[..i]))
      invariant Filled(data, written) && offset == |written|
    {
      var alts := ifaces[i].alternates;
      InterfaceStep(header, ifaces, i);
      data, offset := WriteAlternates(data, offset, alts, written);
      written := written + BodyBytes(alts);
      i := i + 1;
    }
    assert ifaces[..i] == ifaces;
  }

  /** The alternates of one more interface extend the count. */
  lemma CountStep(ifaces: seq<UsbInterface>, i: nat)
    requires i < |ifaces|
    ensures Alternates(ifaces[..i + 1]) == Alternates(ifaces[..i]) + ifaces[i].alternates
    ensures Alternates(ifaces[i..]) == ifaces[i].alternates + Alternates(ifaces[i + 1..])
  {
    assert ifaces[..i + 1] == ifaces[..i] + [ifaces[i]];
    AlternatesAppend(ifaces[..i], [ifaces[i]]);
    assert Alternates([ifaces[i]]) == ifaces[i].alternates + Alternates([]);
    assert ifaces[i..][1..] == ifaces[i + 1..];
  }

  /** The endpoints of one more alternate setting extend the count. */
  lemma EndpointCountStep(alts: seq<UsbAlternate>, j: nat)
    requires j < |alts|
    ensures EndpointCount(alts[..j + 1]) == EndpointCount(alts[..j]) + |alts[j].endpoints|
  {
    assert alts[..j + 1] == alts[..j] + [alts[j]];
    EndpointCountAppend(alts[..j], [alts[j]]);
  }

  /** The remaining interfaces are the next one's alternates, then the rest. */
  lemma SuffixStep(ifaces: seq<UsbInterface>, i: nat)
    requires i < |ifaces|
    ensures BodyBytes(Alternates(ifaces[i..])) == BodyBytes(ifaces[i].alternates) + BodyBytes(Alternates(ifaces[i + 1..]))
  {
    assert ifaces[i..][1..] == ifaces[i + 1..];
    BodyBytesAppend(ifaces[i].alternates, Alternates(ifaces[i + 1..]));
  }

  /** One more endpoint record written. */
  lemma EndpointStep(written: seq<Byte>, eps: seq<UsbEndpoint>, k: nat)
    requires k < |eps|
    ensures written + EndpointRecords(eps[..k + 1]) == (written + EndpointRecords(eps[..k])) + EndpointRecord(eps[k])
    ensures |EndpointRecords(eps[k..])| == |EndpointRecord(eps[k])| + |EndpointRecords(eps[k + 1..])|
  {
    EndpointPrefixStep(eps, k);
    EndpointSuffixStep(eps, k);
    var a, b, r := written, EndpointRecords(eps[..k]), EndpointRecord(eps[k]);
    assert a + (b + r) == (a + b) + r;
  }

  /** The alternate settings of one more interface written. */
  lemma InterfaceStep(header: seq<Byte>, ifaces: seq<UsbInterface>, i: nat)
    requires i < |ifaces|
    ensures header + BodyBytes(Alternates(ifaces[..i + 1]))
            == (header + BodyBytes(Alternates(ifaces[..i]))) + BodyBytes(ifaces[i].alternates)
    ensures |BodyBytes(Alternates(ifaces[i..]))|
            == |BodyBytes(ifaces[i].alternates)| + |BodyBytes(Alternates(ifaces[i + 1..]))|
  {
    CountStep(ifaces, i);
    SuffixStep(ifaces, i);
    BodyBytesAppend(Alternates(ifaces[..i]), ifaces[i].alternates);
    var a, b, r := header, BodyBytes(Alternates(ifaces[..i])), BodyBytes(ifaces[i].alternates);
    assert a + (b + r) == (a + b) + r;
  }

  /** One more alternate setting written: its interface record, then its endpoint records. */
  lemma AlternateStep(written: seq<Byte>, alts: seq<UsbAlternate>, j: nat)
    requires j < |alts|
    ensures written + BodyBytes(alts[..j + 1])
            == (written + BodyBytes(alts[..j])) + InterfaceRecord(alts[j]) + EndpointRecords(alts[j].endpoints)
    ensures |BodyBytes(alts[..j])| + |BodyBytes(alts[j..])|
            == |BodyBytes(alts[..j])| + |InterfaceRecord(alts[j])| + |EndpointRecords(alts[j].endpoints)| + |BodyBytes(alts[j + 1..])|
  {
    BodyPrefixStep(alts, j);
    BodySuffixStep(alts, j);
    var a, b, i, e := written, BodyBytes(alts[..j]), InterfaceRecord(alts[j]), EndpointRecords(alts[j].endpoints);
    assert a + (b + (i + e)) == (a + b) + i + e;
  }

  lemma BodyPrefixStep(alts: seq<UsbAlternate>, j: nat)
    requires j < |alts|
    ensures BodyBytes(alts[..j + 1]) == BodyBytes(alts[..j]) + AlternateRecords(alts[j])
  {
    assert alts[..j + 1] == alts[..j] + [alts[j]];
    BodyBytesAppend(alts[..j], [alts[j]]);
  }

  lemma EndpointPrefixStep(eps: seq<UsbEndpoint>, k: nat)
    requires k < |eps|
    ensures EndpointRecords(eps[..k + 1]) == EndpointRecords(eps[..k]) + EndpointRecord(eps[k])
  {
    assert eps[..k + 1] == eps[..k] + [eps[k]];
    EndpointRecordsAppend(eps[..k], [eps[k]]);
  }

  lemma BodySuffixStep(alts: seq<UsbAlternate>, j: nat)
    requires j < |alts|
    ensures BodyBytes(alts[j..]) == AlternateRecords(alts[j]) + BodyBytes(alts[j + 1..])
  {
    assert alts[j..][1..] == alts[j + 1..];
  }

  lemma EndpointSuffixStep(eps: seq<UsbEndpoint>, k: nat)
    requires k < |eps|
    ensures EndpointRecords(eps[k..]) == EndpointRecord(eps[k]) + EndpointRecords(eps[k + 1..])
  {
    assert eps[k..][1..] == eps[k + 1..];
  }

  /** An endpoint record as section 9.6.6 reads it. */
  datatype EndpointFields = EndpointFields(bEndpointAddress: Byte, bmAttributes: Byte, wMaxPacketSize: Word, bInterval: Byte)

  /** An interface record as section 9.6.5 reads it, with the endpoint records that follow it. */
  datatype InterfaceFields = InterfaceFields(
    bInterfaceNumber: Byte,
    bAlternateSetting: Byte,
    bInterfaceClass: Byte,
    bInterfaceSubClass: Byte,
    bInterfaceProtocol: Byte,
    iInterface: Byte,
    endpoints: seq<EndpointFields>)

  /**
   * The fields of a configuration record in the serialiser's own layout, with the
   * interface records that follow it. Byte 4 counts interface records, one per
   * alternate setting, not interfaces as section 9.6.3 defines `bNumInterfaces`.
   */
  datatype ConfigFields = ConfigFields(
    wTotalLength: Word,
    bNumInterfaces: Byte,
    bConfigurationValue: Byte,
    iConfiguration: Byte,
    bmAttributes: Byte,
    bMaxPower: Byte,
    interfaces: seq<InterfaceFields>)

  /** Read `n` endpoint records from the front of `data`; the bytes after them are returned too. */
  function ParseEndpoints(data: seq<Byte>, n: nat): Option<(seq<EndpointFields>, seq<Byte>)>
    decreases n
  {
    if n == 0 then Some(([], data))
    else if |data| < ENDPOINT_DESCRIPTOR_LENGTH || data[0] != ENDPOINT_DESCRIPTOR_LENGTH as Byte || data[1] != DT_ENDPOINT then None
    else
      match ParseEndpoints(data[ENDPOINT_DESCRIPTOR_LENGTH..], n - 1)
      case None => None
      case Some((eps, rest)) => Some(([EndpointFields(data[2], data[3], WordOf(data[4], data[5]), data[6])] + eps, rest))
  }

  /** Read `n` interface records, each followed by as many endpoint records as it announces. */
  function ParseInterfaces(data: seq<Byte>, n: nat): Option<(seq<InterfaceFields>, seq<Byte>)>
    decreases n
  {
    if n == 0 then Some(([], data))
    else if |data| < INTERFACE_DESCRIPTOR_LENGTH || data[0] != INTERFACE_DESCRIPTOR_LENGTH as Byte || data[1] != DT_INTERFACE then None
    else
      match ParseEndpoints(data[INTERFACE_DESCRIPTOR_LENGTH..], data[4])
      case None => None
      case Some((eps, afterEndpoints)) =>
        match ParseInterfaces(afterEndpoints, n - 1)
        case None => None
        case Some((ifs, rest)) =>
          Some(([InterfaceFields(data[2], data[3], data[5], data[6], data[7], data[8], eps)] + ifs, rest))
  }

  /**
   * Read a whole configuration descriptor: the header, then as many interface
   * records as it announces, ending exactly at `wTotalLength`.
   */
  function ParseConfig(data: seq<Byte>): Option<ConfigFields> {
    if |data| < CONFIG_DESCRIPTOR_LENGTH || data[0] != CONFIG_DESCRIPTOR_LENGTH as Byte || data[1] != DT_CONFIG then None
    else if WordOf(data[2], data[3]) != |data| then None
    else
      match ParseInterfaces(data[CONFIG_DESCRIPTOR_LENGTH..], data[4])
      case Some((ifs, rest)) =>
        if rest == [] then Some(ConfigFields(WordOf(data[2], data[3]), data[4], data[5], data[6], data[7], data[8], ifs)) else None
      case None => None
  }

  /** What section 9.6.6 should find for each WebUSB endpoint. */
  function DescribeEndpoints(eps: seq<UsbEndpoint>): seq<EndpointFields>
    requires forall k | 0 <= k < |eps| :: eps[k].packetSize < 0x1_0000
  {
    if eps == [] then []
    else [EndpointFields(Endpoint.Address(eps[0].endpointNumber, eps[0].direction), 0, eps[0].packetSize, 0)]
         + DescribeEndpoints(eps[1..])
  }

  /** The WebUSB values fit their descriptor fields: nothing is cut modulo 256 or 2^16. */
  predicate Representable(c: UsbConfiguration) {
    var alts := Alternates(c.interfaces);
    && |alts| < 256 && TotalLength(c) < 0x1_0000
    && (forall j | 0 <= j < |alts| :: Fits(alts[j]))
  }

  predicate Fits(alt: UsbAlternate) {
    |alt.endpoints| < 256 && forall k | 0 <= k < |alt.endpoints| :: alt.endpoints[k].packetSize < 0x1_0000
  }

  /** What sections 9.6.5 and 9.6.6 should find for each alternate setting. */
  function DescribeAlternates(alts: seq<UsbAlternate>): seq<InterfaceFields>
    requires forall j | 0 <= j < |alts| :: Fits(alts[j])
  {
    if alts == [] then []
    else
      var alt := alts[0];
      assert Fits(alt);
      [InterfaceFields(alt.interfaceNumber, alt.alternateSetting, alt.interfaceClass, alt.interfaceSubClass,
                       alt.interfaceProtocol, INDEX_INTERFACE, DescribeEndpoints(alt.endpoints))]
      + DescribeAlternates(alts[1..])
  }

  /** Endpoint records read back as the endpoints they were written from. */
  lemma {:induction false} EndpointsRoundTrip(eps: seq<UsbEndpoint>, rest: seq<Byte>)
    requires forall k | 0 <= k < |eps| :: eps[k].packetSize < 0x1_0000
    ensures ParseEndpoints(EndpointRecords(eps) + rest, |eps|) == Some((DescribeEndpoints(eps), rest))
  {
    if eps != [] {
      var ep := eps[0];
      var later := EndpointRecords(eps[1..]) + rest;
      var data := EndpointRecords(eps) + rest;
      EndpointRecordsCons(eps, rest);
      assert data == EndpointRecord(ep) + later;
      assert data[ENDPOINT_DESCRIPTOR_LENGTH..] == later;
      EndpointsRoundTrip(eps[1..], rest);
      SplitWord(ep.packetSize);
      assert data[0] == ENDPOINT_DESCRIPTOR_LENGTH as Byte && data[1] == DT_ENDPOINT;
      assert WordOf(data[4], data[5]) == ep.packetSize;
      var f := EndpointFields(Endpoint.Address(ep.endpointNumber, ep.direction), 0, ep.packetSize, 0);
      assert EndpointFields(data[2], data[3], WordOf(data[4], data[5]), data[6]) == f;
      assert DescribeEndpoints(eps) == [f] + DescribeEndpoints(eps[1..]);
      assert ParseEndpoints(later, |eps| - 1) == Some((DescribeEndpoints(eps[1..]), rest));
    } else {
      assert EndpointRecords(eps) + rest == rest;
    }
  }

  lemma EndpointRecordsCons(eps: seq<UsbEndpoint>, rest: seq<Byte>)
    requires eps != []
    ensures EndpointRecords(eps) + rest == EndpointRecord(eps[0]) + (EndpointRecords(eps[1..]) + rest)
  {
    assert EndpointRecords(eps) == EndpointRecord(eps[0]) + EndpointRecords(eps[1..]);
  }

  /** Interface records, with their endpoint records, read back as the alternate settings they were written from. */
  lemma {:induction false} AlternatesRoundTrip(alts: seq<UsbAlternate>, rest: seq<Byte>)
    requires forall j | 0 <= j < |alts| :: Fits(alts[j])
    ensures ParseInterfaces(BodyBytes(alts) + rest, |alts|) == Some((DescribeAlternates(alts), rest))
  {
    if alts != [] {
      var alt := alts[0];
      assert Fits(alt);
      var later := BodyBytes(alts[1..]) + rest;
      var data := BodyBytes(alts) + rest;
      BodyBytesCons(alts, rest);
      assert data == InterfaceRecord(alt) + (EndpointRecords(alt.endpoints) + later);
      assert data[INTERFACE_DESCRIPTOR_LENGTH..] == EndpointRecords(alt.endpoints) + later;
      assert data[0] == INTERFACE_DESCRIPTOR_LENGTH as Byte && data[1] == DT_INTERFACE;
      assert data[4] == |alt.endpoints|;
      EndpointsRoundTrip(alt.endpoints, later);
      assert forall j | 0 <= j < |alts[1..]| :: Fits(alts[1..][j]) by {
        forall j | 0 <= j < |alts[1..]| ensures Fits(alts[1..][j]) { assert alts[1..][j] == alts[j + 1]; }
      }
      AlternatesRoundTrip(alts[1..], rest);
    } else {
      assert BodyBytes(alts) + rest == rest;
    }
  }

  lemma BodyBytesCons(alts: seq<UsbAlternate>, rest: seq<Byte>)
    requires alts != []
    ensures BodyBytes(alts) + rest
         == InterfaceRecord(alts[0]) + (EndpointRecords(alts[0].endpoints) + (BodyBytes(alts[1..]) + rest))
  {
    assert BodyBytes(alts) == InterfaceRecord(alts[0]) + EndpointRecords(alts[0].endpoints) + BodyBytes(alts[1..]);
  }

  /**
   * Reading the serialised descriptor back in the serialiser's own layout (the
   * record formats of sections 9.6.3, 9.6.5 and 9.6.6, with byte 4 counting
   * interface records rather than interfaces) gives the active configuration: its length and alternate count, its value,
   * and for every alternate setting, in order, its numbers and its endpoints with
   * their address bytes and packet sizes. This holds whenever the values fit
   * their fields.
   */
  lemma ConfigRoundTrip(c: UsbConfiguration)
    requires Representable(c)
    ensures ParseConfig(ConfigBytes(c))
            == Some(ConfigFields(TotalLength(c), |Alternates(c.interfaces)|, c.configurationValue, INDEX_CONFIG, 0, 0,
                                 DescribeAlternates(Alternates(c.interfaces))))
  {
    var alts := Alternates(c.interfaces);
    var data := ConfigBytes(c);
    ConfigLayout(c);
    assert data[CONFIG_DESCRIPTOR_LENGTH..] == BodyBytes(alts) + [];
    AlternatesRoundTrip(alts, []);
  }
}
