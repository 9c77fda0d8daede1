/**
 * The bridge's control transfer (src/webusb.js:265-331): the timeout guard,
 * the decode of `bmRequestType` into WebUSB's setup fields (section 9.3.1 of
 * the USB 2.0 specification), and the in and out branches. The browser's
 * answer is a parameter: `host` maps the call that is made to its reply.
 */
module Control {
  import opened Bits
  import opened Outcomes
  import Endpoint

  /** The three entries of the request-type lookup table, in table order. */
  datatype RequestType = Standard | Class | Vendor

  /** The four entries of the recipient lookup table, in table order. */
  datatype Recipient = ToDevice | ToInterface | ToEndpoint | ToOther

  /**
   * The setup dictionary handed to WebUSB. A lookup past the end of a table
   * reads JavaScript's `undefined`, modelled as `None`.
   */
  datatype Setup = Setup(requestType: Option<RequestType>, recipient: Option<Recipient>, request: Byte, value: Word, index: Word)

  /** `(bmRequestType & 0x60) >> 5`, the request-type table index. */
  function TypeIndex(b: bv8): bv8 {
    (b & 0x60) >> 5
  }

  /** `bmRequestType & 0x1f`, the recipient table index. */
  function RecipientIndex(b: bv8): bv8 {
    b & 0x1f
  }

  /** `(bmRequestType & 0x80) == 0x80`. */
  predicate DirectionIn(b: bv8) {
    b & 0x80 == 0x80
  }

  /** The request-type lookup: `["standard", "class", "vendor"][k]`. */
  function RequestTypeAt(k: bv8): Option<RequestType> {
    if k == 0 then Some(Standard) else if k == 1 then Some(Class) else if k == 2 then Some(Vendor) else None
  }

  /** The recipient lookup: `["device", "interface", "endpoint", "other"][k]`. */
  function RecipientAt(k: bv8): Option<Recipient> {
    if k == 0 then Some(ToDevice) else if k == 1 then Some(ToInterface)
    else if k == 2 then Some(ToEndpoint) else if k == 3 then Some(ToOther) else None
  }

  function TypeCode(t: RequestType): (k: bv8)
    ensures k < 3 && RequestTypeAt(k) == Some(t)
  {
    match t
    case Standard => 0
    case Class => 1
    case Vendor => 2
  }

  function RecipientCode(r: Recipient): (k: bv8)
    ensures k < 4 && RecipientAt(k) == Some(r)
  {
    match r
    case ToDevice => 0
    case ToInterface => 1
    case ToEndpoint => 2
    case ToOther => 3
  }

  /** The setup fields the bridge builds from the caller's arguments. */
  function SetupOf(bmRequestType: bv8, bRequest: Byte, wValue: Word, wIndex: Word): Setup {
    Setup(RequestTypeAt(TypeIndex(bmRequestType)), RecipientAt(RecipientIndex(bmRequestType)), bRequest, wValue, wIndex)
  }

  /**
   * The JavaScript bit operations pick out the three fields of section 9.3.1:
   * bit 7 is the direction, bits 6..5 the type and bits 4..0 the recipient,
   * and the byte is the sum of the three.
   */
  lemma RequestTypeFields(b: bv8)
    ensures DirectionIn(b) <==> b as int >= 0x80
    ensures TypeIndex(b) as int == (b as int / 32) % 4
    ensures RecipientIndex(b) as int == b as int % 32
    ensures b == (b & 0x80) | (TypeIndex(b) << 5) | RecipientIndex(b)
  {
    DirectionBit(b);
    TypeBits(b);
    RecipientBits(b);
  }

  lemma DirectionBit(b: bv8)
    ensures DirectionIn(b) <==> b as int >= 0x80
  {
    assert DirectionIn(b) <==> b >= 0x80;
  }

  lemma TypeBits(b: bv8)
    ensures TypeIndex(b) as int == (b as int / 32) % 4
  {
    assert TypeIndex(b) == (b / 32) % 4;
  }

  lemma RecipientBits(b: bv8)
    ensures RecipientIndex(b) as int == b as int % 32
  {
    assert RecipientIndex(b) == b % 32;
  }

  /** The request type is `undefined` exactly when bits 6..5 are both set (the reserved value). */
  lemma UndefinedRequestType(b: bv8)
    ensures SetupOf(b, 0, 0, 0).requestType == None <==> b as int / 32 % 4 == 3
  {
    RequestTypeFields(b);
  }

  /** The recipient is `undefined` exactly when bits 4..0 hold 4 or more. */
  lemma UndefinedRecipient(b: bv8)
    ensures SetupOf(b, 0, 0, 0).recipient == None <==> b as int % 32 >= 4
  {
    RequestTypeFields(b);
  }

  /** The `bmRequestType` byte a caller writes for a direction, type and recipient. */
  function RequestTypeByte(dir: Endpoint.Direction, t: RequestType, r: Recipient): bv8 {
    (if dir.In? then 0x80 else 0) | (TypeCode(t) << 5) | RecipientCode(r)
  }

  /** Encoding then decoding gives back the direction, type and recipient. */
  lemma DecodeRequestTypeByte(dir: Endpoint.Direction, t: RequestType, r: Recipient)
    ensures var b := RequestTypeByte(dir, t, r);
            && (DirectionIn(b) <==> dir.In?)
            && RequestTypeAt(TypeIndex(b)) == Some(t)
            && RecipientAt(RecipientIndex(b)) == Some(r)
  {
  }

  /** Every byte whose fields are all defined is the encoding of what it decodes to. */
  lemma EncodeDecodedRequestType(b: bv8)
    requires RequestTypeAt(TypeIndex(b)).Some? && RecipientAt(RecipientIndex(b)).Some?
    ensures RequestTypeByte(if DirectionIn(b) then Endpoint.In else Endpoint.Out,
                            RequestTypeAt(TypeIndex(b)).value, RecipientAt(RecipientIndex(b)).value) == b
  {
  }

  /** The reply the browser gives to a control transfer, or the promise rejecting. */
  datatype HostReply =
    | HostRejects
    | HostReply(status: string, data: seq<Byte>, bytesWritten: nat)

  /** The WebUSB call the bridge makes. */
  datatype ControlCall =
    | ControlIn(setup: Setup, length: Word)
    | ControlOut(setup: Setup, payload: seq<Byte>)

  /** Why the bridge throws. */
  datatype ControlError = TimeoutUnsupported | HostFailed | StatusNotOk

  /**
   * What a control transfer leaves behind: the call it made (if any), its
   * result, and the caller's buffer afterwards.
   */
  datatype ControlOutcome = ControlOutcome(call: Option<ControlCall>, result: Result<nat, ControlError>, buffer: seq<Byte>)

  /** `getValue(data + x, "i8")`: the heap byte read as a signed 8-bit value. */
  function SignedByte(b: Byte): (v: int)
    ensures -128 <= v < 128
  {
    if b >= 0x80 then b as int - 0x100 else b
  }

  /** The out payload: the first `n` signed heap bytes stored into a `Uint8Array`. */
  function Payload(buffer: seq<Byte>, n: nat): seq<Byte>
    requires n <= |buffer|
  {
    seq(n, x requires 0 <= x < n => ByteOf(SignedByte(buffer[x])))
  }

  /** The signed read and the `Uint8Array` store cancel: the payload is the caller's bytes. */
  lemma PayloadCopies(buffer: seq<Byte>, n: nat)
    requires n <= |buffer|
    ensures Payload(buffer, n) == buffer[..n]
  {
    forall x | 0 <= x < n
      ensures Payload(buffer, n)[x] == buffer[x]
    {
      var b := buffer[x];
      if b >= 0x80 {
        assert ByteOf(b as int - 0x100) == b;
      }
    }
  }

  /**
   * `writeArrayToMemory(view, data)`: the received bytes overwrite the front
   * of the caller's buffer. Bytes past its end land outside the modelled region.
   */
  function Overwrite(buffer: seq<Byte>, bytes: seq<Byte>): (r: seq<Byte>)
    ensures |r| == |buffer|
    ensures forall x | 0 <= x < |r| :: r[x] == if x < |bytes| then bytes[x] else buffer[x]
  {
    if |bytes| >= |buffer| then bytes[..|buffer|] else bytes + buffer[|bytes|..]
  }

  /**
   * `_control_transfer`: a nonzero timeout throws before anything else; otherwise
   * the setup is decoded from the request arguments and bit 7 picks
   * `controlTransferIn` (copy the reply into the buffer, return its length) or
   * `controlTransferOut` (send the buffer's first `wLength` bytes, return
   * `bytesWritten`). A reply whose status is not "ok" throws.
   */
  function ControlTransfer(bmRequestType: bv8, bRequest: Byte, wValue: Word, wIndex: Word,
                           buffer: seq<Byte>, wLength: Word, timeout: nat,
                           host: ControlCall -> HostReply): (o: ControlOutcome)
    requires wLength <= |buffer|
    ensures |o.buffer| == |buffer|
    ensures timeout != 0 <==> o.call.None?
    ensures timeout != 0 ==> o.result == Err(TimeoutUnsupported) && o.buffer == buffer
    ensures o.call.Some? ==> o.call.value.setup == SetupOf(bmRequestType, bRequest, wValue, wIndex)
    ensures o.call.Some? ==> (o.call.value.ControlIn? <==> DirectionIn(bmRequestType))
    ensures o.call.Some? && o.call.value.ControlIn? ==> o.call.value.length == wLength
    ensures o.call.Some? && o.call.value.ControlOut? ==> o.call.value.payload == buffer[..wLength] && o.buffer == buffer
    ensures o.result.Ok? ==> o.call.Some? && host(o.call.value).HostReply? && host(o.call.value).status == "ok"
    ensures o.result.Ok? && o.call.value.ControlIn? ==> o.result.value == |host(o.call.value).data|
    ensures o.result.Ok? && o.call.value.ControlOut? ==> o.result.value == host(o.call.value).bytesWritten
  {
    if timeout != 0 then
      ControlOutcome(None, Err(TimeoutUnsupported), buffer)
    else
      var setup := SetupOf(bmRequestType, bRequest, wValue, wIndex);
      if DirectionIn(bmRequestType) then
        var call := ControlIn(setup, wLength);
        match host(call)
        case HostRejects => ControlOutcome(Some(call), Err(HostFailed), buffer)
        case HostReply(status, data, _) =>
          if status != "ok" then ControlOutcome(Some(call), Err(StatusNotOk), buffer)
          else ControlOutcome(Some(call), Ok(|data|), Overwrite(buffer, data))
      else
        PayloadCopies(buffer, wLength);
        var call := ControlOut(setup, Payload(buffer, wLength));
        match host(call)
        case HostRejects => ControlOutcome(Some(call), Err(HostFailed), buffer)
        case HostReply(status, _, written) =>
          if status != "ok" then ControlOutcome(Some(call), Err(StatusNotOk), buffer)
          else ControlOutcome(Some(call), Ok(written), buffer)
  }

  /**
   * A request built from a direction, type and recipient reaches WebUSB with
   * exactly those: the in or out call as the direction says, and setup fields
   * naming the same type and recipient.
   */
  lemma ControlCarriesRequest(dir: Endpoint.Direction, t: RequestType, r: Recipient, bRequest: Byte,
                              wValue: Word, wIndex: Word, buffer: seq<Byte>, wLength: Word,
                              host: ControlCall -> HostReply)
    requires wLength <= |buffer|
    ensures var o := ControlTransfer(RequestTypeByte(dir, t, r), bRequest, wValue, wIndex, buffer, wLength, 0, host);
            && o.call.Some?
            && (o.call.value.ControlIn? <==> dir.In?)
            && o.call.value.setup == Setup(Some(t), Some(r), bRequest, wValue, wIndex)
  {
    DecodeRequestTypeByte(dir, t, r);
  }

  /** A successful in transfer leaves the received bytes at the front of the buffer. */
  lemma ControlInDelivers(bmRequestType: bv8, bRequest: Byte, wValue: Word, wIndex: Word,
                          buffer: seq<Byte>, wLength: Word, host: ControlCall -> HostReply)
    requires wLength <= |buffer| && DirectionIn(bmRequestType)
    ensures var o := ControlTransfer(bmRequestType, bRequest, wValue, wIndex, buffer, wLength, 0, host);
            var reply := host(ControlIn(SetupOf(bmRequestType, bRequest, wValue, wIndex), wLength));
            && (o.result.Ok? <==> reply.HostReply? && reply.status == "ok")
            && (o.result.Ok? && |reply.data| <= |buffer| ==> o.buffer[..|reply.data|] == reply.data && o.buffer[|reply.data|..] == buffer[|reply.data|..])
            && (o.result.Err? ==> o.buffer == buffer)
  {
  }
}
