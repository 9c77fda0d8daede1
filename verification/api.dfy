/**
 * The libusb entry points that sit in front of the bridge (src/libusb.c:84-366).
 * There is one context (the null pointer 0) and one device, whose handle is the
 * same pointer value 1. Every entry point that takes a device or handle checks it
 * against that value and, on a mismatch, returns `LIBUSB_ERROR_INVALID_PARAM`
 * without calling the bridge. Each entry point returns its C result together with
 * the bridge calls it made, in order; what the browser answers is a parameter.
 */
module Api {
  import opened Bits
  import opened Outcomes
  import opened Devices
  import Control
  import DeviceDescriptor
  import ConfigDescriptor
  import StringDescriptor

  /** The fixed context pointer (a null pointer) and the fixed device/handle pointer. */
  const DEFAULT_CONTEXT: int := 0
  const DEFAULT_DEVICE: int := 1
  const NULL: int := 0

  const DEFAULT_BUS_NUMBER: Byte := 0
  const DEFAULT_DEVICE_ADDRESS: Byte := 0

  /** The libusb error codes the shim returns. */
  const SUCCESS: int := 0
  const ERROR_INVALID_PARAM: int := -2
  const ERROR_NO_DEVICE: int := -4
  const ERROR_NOT_SUPPORTED: int := -12

  /** A call from the C side into the bridge (the functions of src/webusb.c). */
  datatype BridgeCall =
    | EnsureNavigatorUsb
    | RequestDeviceAccess
    | OpenDevice
    | OpenDeviceWithVidPid(vid: Word, pid: Word)
    | CloseDevice
    | GetDeviceDescriptor
    | GetStringDescriptor(descriptorIndex: Byte, bufferLength: int)
    | GetConfiguration
    | GetActiveConfigDescriptor
    | ClaimInterface(interfaceNumber: int)
    | ReleaseInterface(interfaceNumber: int)
    | ControlTransfer(requestType: bv8, request: Byte, value: Word, index: Word, length: Word, timeout: nat)

  /** An entry point's C result and the bridge calls it made. */
  datatype Reply<T> = Reply(value: T, calls: seq<BridgeCall>)

  /** A return code together with a value written through an out-pointer, if one was written. */
  datatype Written<T> = Written(rc: int, out: Option<T>)

  /** `libusb_init`: fails with NOT_SUPPORTED when `navigator.usb` is absent, else stores the context if asked to. */
  function Init(ctxRequested: bool, navigatorUsb: bool): (r: Reply<Written<int>>)
    ensures r.calls == [EnsureNavigatorUsb]
    ensures r.value.rc == (if navigatorUsb then SUCCESS else ERROR_NOT_SUPPORTED)
    ensures r.value.out.Some? <==> navigatorUsb && ctxRequested
    ensures r.value.out.Some? ==> r.value.out.value == DEFAULT_CONTEXT
  {
    if !navigatorUsb then Reply(Written(ERROR_NOT_SUPPORTED, None), [EnsureNavigatorUsb])
    else if ctxRequested then Reply(Written(SUCCESS, Some(DEFAULT_CONTEXT)), [EnsureNavigatorUsb])
    else Reply(Written(SUCCESS, None), [EnsureNavigatorUsb])
  }

  /**
   * What `request_device_access` returns: the bridge's `_open_device_by_vid_pid`
   * gives -1 when no device was found or authorised and 1 once it is opened. It
   * never gives 0.
   */
  function AccessCode(granted: bool): (code: int)
    ensures code != 0
    ensures code < 0 <==> !granted
  {
    if granted then 1 else -1
  }

  /** A device count (or error code) and the list written through `list`, if any. */
  type DeviceList = Written<seq<int>>

  /** `libusb_get_device_list` as written: refusal is tested with `== 0`. */
  function GetDeviceListAsWritten(ctx: int, granted: bool): (r: Reply<DeviceList>)
    ensures ctx != DEFAULT_CONTEXT ==> r == Reply(Written(ERROR_INVALID_PARAM, None), [])
    ensures ctx == DEFAULT_CONTEXT ==> r.calls == [RequestDeviceAccess]
  {
    if ctx != DEFAULT_CONTEXT then Reply(Written(ERROR_INVALID_PARAM, None), [])
    else if AccessCode(granted) == 0 then Reply(Written(ERROR_NO_DEVICE, None), [RequestDeviceAccess])
    else Reply(Written(1, Some([DEFAULT_DEVICE, NULL])), [RequestDeviceAccess])
  }

  /**
   * As written, the NO_DEVICE branch is dead: a refused request still yields the
   * one-device list, whatever the context and answer.
   */
  lemma GetDeviceListIgnoresRefusal(ctx: int, granted: bool)
    ensures GetDeviceListAsWritten(ctx, granted).value.rc != ERROR_NO_DEVICE
    ensures GetDeviceListAsWritten(DEFAULT_CONTEXT, false).value == Written(1, Some([DEFAULT_DEVICE, NULL]))
  {
  }

  /**
   * `libusb_get_device_list` with refusal tested as `< 0`, the test
   * `libusb_open_device_with_vid_pid` uses on the same bridge call: NO_DEVICE
   * exactly when access is refused, otherwise the list of the one device followed
   * by a null terminator, and a count of 1.
   */
  function GetDeviceList(ctx: int, granted: bool): (r: Reply<DeviceList>)
    ensures ctx != DEFAULT_CONTEXT ==> r == Reply(Written(ERROR_INVALID_PARAM, None), [])
    ensures ctx == DEFAULT_CONTEXT ==> r.calls == [RequestDeviceAccess]
    ensures ctx == DEFAULT_CONTEXT ==> (r.value.rc == ERROR_NO_DEVICE <==> !granted)
    ensures ctx == DEFAULT_CONTEXT && granted ==> r.value == Written(1, Some([DEFAULT_DEVICE, NULL]))
    ensures r.value.out.Some? ==> |r.value.out.value| == r.value.rc + 1 && r.value.out.value[r.value.rc] == NULL
  {
    if ctx != DEFAULT_CONTEXT then Reply(Written(ERROR_INVALID_PARAM, None), [])
    else if AccessCode(granted) < 0 then Reply(Written(ERROR_NO_DEVICE, None), [RequestDeviceAccess])
    else Reply(Written(1, Some([DEFAULT_DEVICE, NULL])), [RequestDeviceAccess])
  }

  /** `libusb_get_device_descriptor`: the 18 descriptor bytes are written for the one device. */
  function GetDeviceDescriptorOf(dev: int, d: UsbDevice): (r: Reply<Written<seq<Byte>>>)
    ensures r.value.rc == SUCCESS <==> dev == DEFAULT_DEVICE
    ensures r.value.out.Some? <==> dev == DEFAULT_DEVICE
    ensures r.value.out.Some? ==> r.value.out.value == DeviceDescriptor.DeviceDescriptorBytes(d)
  {
    if dev != DEFAULT_DEVICE then Reply(Written(ERROR_INVALID_PARAM, None), [])
    else Reply(Written(SUCCESS, Some(DeviceDescriptor.DeviceDescriptorBytes(d))), [GetDeviceDescriptor])
  }

  /**
   * `libusb_get_bus_number` returns `uint8_t`, so its INVALID_PARAM comes back
   * converted to 254.
   */
  function GetBusNumber(dev: int): (r: Reply<Byte>)
    ensures r.calls == []
    ensures r.value == if dev == DEFAULT_DEVICE then DEFAULT_BUS_NUMBER else ByteOf(ERROR_INVALID_PARAM)
  {
    Reply(if dev != DEFAULT_DEVICE then ByteOf(ERROR_INVALID_PARAM) else DEFAULT_BUS_NUMBER, [])
  }

  /** `libusb_get_device_address`, likewise `uint8_t`. */
  function GetDeviceAddress(dev: int): (r: Reply<Byte>)
    ensures r.calls == []
    ensures r.value == if dev == DEFAULT_DEVICE then DEFAULT_DEVICE_ADDRESS else ByteOf(ERROR_INVALID_PARAM)
  {
    Reply(if dev != DEFAULT_DEVICE then ByteOf(ERROR_INVALID_PARAM) else DEFAULT_DEVICE_ADDRESS, [])
  }

  /** The uint8 conversion makes the two error returns the byte 254. */
  lemma Uint8ErrorIs254()
    ensures GetBusNumber(DEFAULT_DEVICE + 1).value == 254 && GetDeviceAddress(NULL).value == 254
  {
  }

  /** `libusb_get_port_numbers`: no port numbers are reported. */
  function GetPortNumbers(dev: int): (r: Reply<int>)
    ensures r.calls == []
    ensures r.value == if dev == DEFAULT_DEVICE then 0 else ERROR_INVALID_PARAM
  {
    Reply(if dev != DEFAULT_DEVICE then ERROR_INVALID_PARAM else 0, [])
  }

  /** `libusb_open`: opens the active device and hands back the device pointer as the handle. */
  function Open(dev: int): (r: Reply<Written<int>>)
    ensures dev != DEFAULT_DEVICE ==> r == Reply(Written(ERROR_INVALID_PARAM, None), [])
    ensures dev == DEFAULT_DEVICE ==> r == Reply(Written(SUCCESS, Some(dev)), [OpenDevice])
  {
    if dev != DEFAULT_DEVICE then Reply(Written(ERROR_INVALID_PARAM, None), [])
    else Reply(Written(SUCCESS, Some(dev)), [OpenDevice])
  }

  /** `libusb_close`: closes the device for the right handle and silently ignores any other. */
  function Close(handle: int): (r: Reply<()>)
    ensures r.calls == (if handle == DEFAULT_DEVICE then [CloseDevice] else [])
  {
    if handle != DEFAULT_DEVICE then Reply((), []) else Reply((), [CloseDevice])
  }

  /**
   * `libusb_get_string_descriptor_ascii`: the bridge's string lookup for the right
   * handle (which throws for an unannounced index, modelled as `Err`).
   */
  function GetStringDescriptorAscii(handle: int, index: Byte, length: int, d: UsbDevice)
    : (r: Reply<Result<StringDescriptor.StringCopy, StringDescriptor.StringError>>)
    ensures handle != DEFAULT_DEVICE ==> r == Reply(Ok(StringDescriptor.StringCopy(ERROR_INVALID_PARAM, [])), [])
    ensures handle == DEFAULT_DEVICE ==> r.calls == [GetStringDescriptor(index, length)]
    ensures handle == DEFAULT_DEVICE ==> r.value == StringDescriptor.GetStringDescriptor(d, index, length)
    ensures handle == DEFAULT_DEVICE && r.value.Ok? ==> r.value.value.returned <= length
  {
    if handle != DEFAULT_DEVICE then Reply(Ok(StringDescriptor.StringCopy(ERROR_INVALID_PARAM, [])), [])
    else Reply(StringDescriptor.GetStringDescriptor(d, index, length), [GetStringDescriptor(index, length)])
  }

  /** `libusb_get_configuration`: the active configuration's value. */
  function GetConfigurationOf(handle: int, d: UsbDevice): (r: Reply<Written<int>>)
    ensures handle != DEFAULT_DEVICE ==> r == Reply(Written(ERROR_INVALID_PARAM, None), [])
    ensures handle == DEFAULT_DEVICE ==> r.value == Written(SUCCESS, Some(d.configuration.configurationValue))
  {
    if handle != DEFAULT_DEVICE then Reply(Written(ERROR_INVALID_PARAM, None), [])
    else Reply(Written(SUCCESS, Some(d.configuration.configurationValue)), [GetConfiguration])
  }

  /**
   * `libusb_get_device`: the device pointer, equal to the handle. On a bad handle
   * the error code is returned as a pointer value.
   */
  function GetDevice(handle: int): (r: Reply<int>)
    ensures r.calls == []
    ensures r.value == if handle == DEFAULT_DEVICE then handle else ERROR_INVALID_PARAM
  {
    Reply(if handle != DEFAULT_DEVICE then ERROR_INVALID_PARAM else DEFAULT_DEVICE, [])
  }

  /** `libusb_get_active_config_descriptor`: the serialised active configuration. */
  function GetActiveConfigDescriptorOf(dev: int, d: UsbDevice): (r: Reply<Written<seq<Byte>>>)
    ensures dev != DEFAULT_DEVICE ==> r == Reply(Written(ERROR_INVALID_PARAM, None), [])
    ensures dev == DEFAULT_DEVICE ==> r.value == Written(SUCCESS, Some(ConfigDescriptor.ConfigBytes(d.configuration)))
    ensures dev == DEFAULT_DEVICE ==> r.calls == [GetActiveConfigDescriptor]
    ensures r.value.out.Some? ==> |r.value.out.value| == ConfigDescriptor.TotalLength(d.configuration)
  {
    if dev != DEFAULT_DEVICE then Reply(Written(ERROR_INVALID_PARAM, None), [])
    else
      ConfigDescriptor.ConfigLayout(d.configuration);
      Reply(Written(SUCCESS, Some(ConfigDescriptor.ConfigBytes(d.configuration))), [GetActiveConfigDescriptor])
  }

  /**
   * What `libusb_get_active_config_descriptor` hands the caller reads back as the
   * active configuration whenever its values fit their descriptor fields.
   */
  lemma ActiveConfigReadsBack(d: UsbDevice)
    requires ConfigDescriptor.Representable(d.configuration)
    ensures var w := GetActiveConfigDescriptorOf(DEFAULT_DEVICE, d).value;
            var c := d.configuration;
            var alts := ConfigDescriptor.Alternates(c.interfaces);
            && w.rc == SUCCESS && w.out.Some?
            && ConfigDescriptor.ParseConfig(w.out.value)
               == Some(ConfigDescriptor.ConfigFields(ConfigDescriptor.TotalLength(c), |alts|, c.configurationValue,
                                                     INDEX_CONFIG, 0, 0,
                                                     ConfigDescriptor.DescribeAlternates(alts)))
  {
    ConfigDescriptor.ConfigRoundTrip(d.configuration);
  }

  /** `libusb_kernel_driver_active`: a WebUSB device never has a kernel driver attached. */
  function KernelDriverActive(handle: int, interfaceNumber: int): (r: Reply<int>)
    ensures r.calls == []
    ensures r.value == if handle == DEFAULT_DEVICE then 0 else ERROR_INVALID_PARAM
  {
    Reply(if handle != DEFAULT_DEVICE then ERROR_INVALID_PARAM else 0, [])
  }

  /** `libusb_claim_interface`. */
  function Claim(handle: int, interfaceNumber: int): (r: Reply<int>)
    ensures handle != DEFAULT_DEVICE ==> r == Reply(ERROR_INVALID_PARAM, [])
    ensures handle == DEFAULT_DEVICE ==> r == Reply(SUCCESS, [ClaimInterface(interfaceNumber)])
  {
    if handle != DEFAULT_DEVICE then Reply(ERROR_INVALID_PARAM, [])
    else Reply(SUCCESS, [ClaimInterface(interfaceNumber)])
  }

  /** `libusb_release_interface`. */
  function Release(handle: int, interfaceNumber: int): (r: Reply<int>)
    ensures handle != DEFAULT_DEVICE ==> r == Reply(ERROR_INVALID_PARAM, [])
    ensures handle == DEFAULT_DEVICE ==> r == Reply(SUCCESS, [ReleaseInterface(interfaceNumber)])
  {
    if handle != DEFAULT_DEVICE then Reply(ERROR_INVALID_PARAM, [])
    else Reply(SUCCESS, [ReleaseInterface(interfaceNumber)])
  }

  /**
   * `libusb_control_transfer`: the bridge's control transfer for the right handle.
   * The value is the byte count, or the bridge's exception; the buffer is the
   * caller's buffer afterwards.
   */
  function ControlTransferOf(handle: int, bmRequestType: bv8, bRequest: Byte, wValue: Word, wIndex: Word,
                             buffer: seq<Byte>, wLength: Word, timeout: nat,
                             host: Control.ControlCall -> Control.HostReply)
    : (r: Reply<(Result<int, Control.ControlError>, seq<Byte>)>)
    requires wLength <= |buffer|
    ensures handle != DEFAULT_DEVICE ==> r == Reply((Ok(ERROR_INVALID_PARAM), buffer), [])
    ensures handle == DEFAULT_DEVICE ==> r.calls == [ControlTransfer(bmRequestType, bRequest, wValue, wIndex, wLength, timeout)]
    ensures handle == DEFAULT_DEVICE && timeout != 0 ==> r.value == (Err(Control.TimeoutUnsupported), buffer)
    ensures handle == DEFAULT_DEVICE ==>
              var o := Control.ControlTransfer(bmRequestType, bRequest, wValue, wIndex, buffer, wLength, timeout, host);
              && r.value.1 == o.buffer
              && (o.result.Ok? <==> r.value.0.Ok?)
              && (o.result.Ok? ==> r.value.0.value == o.result.value)
              && (o.result.Err? ==> r.value.0.error == o.result.error)
  {
    if handle != DEFAULT_DEVICE then Reply((Ok(ERROR_INVALID_PARAM), buffer), [])
    else
      var o := Control.ControlTransfer(bmRequestType, bRequest, wValue, wIndex, buffer, wLength, timeout, host);
      var value: Result<int, Control.ControlError> := match o.result
        case Ok(n) => Ok(n)
        case Err(e) => Err(e);
      Reply((value, o.buffer), [ControlTransfer(bmRequestType, bRequest, wValue, wIndex, wLength, timeout)])
  }

  /**
   * `libusb_open_device_with_vid_pid`: a handle when the bridge opens a device,
   * NO_DEVICE (as a pointer value) when it does not.
   */
  function OpenDeviceWithVidPidOf(ctx: int, vid: Word, pid: Word, granted: bool): (r: Reply<int>)
    ensures ctx != DEFAULT_CONTEXT ==> r == Reply(ERROR_INVALID_PARAM, [])
    ensures ctx == DEFAULT_CONTEXT ==> r.calls == [OpenDeviceWithVidPid(vid, pid)]
    ensures ctx == DEFAULT_CONTEXT ==> r.value == if granted then DEFAULT_DEVICE else ERROR_NO_DEVICE
  {
    if ctx != DEFAULT_CONTEXT then Reply(ERROR_INVALID_PARAM, [])
    else if AccessCode(granted) < 0 then Reply(ERROR_NO_DEVICE, [OpenDeviceWithVidPid(vid, pid)])
    else Reply(DEFAULT_DEVICE, [OpenDeviceWithVidPid(vid, pid)])
  }

  /**
   * The singleton guard: any device or handle other than the one device is
   * refused by every entry point that takes one, before the bridge is reached.
   */
  lemma ForeignHandleRejected(h: int, n: int, index: Byte, length: int, d: UsbDevice,
                              bmRequestType: bv8, bRequest: Byte, wValue: Word, wIndex: Word,
                              buffer: seq<Byte>, wLength: Word, timeout: nat,
                              host: Control.ControlCall -> Control.HostReply)
    requires h != DEFAULT_DEVICE && wLength <= |buffer|
    ensures GetDeviceDescriptorOf(h, d) == Reply(Written(ERROR_INVALID_PARAM, None), [])
    ensures GetPortNumbers(h) == Reply(ERROR_INVALID_PARAM, [])
    ensures GetBusNumber(h) == Reply(254, []) && GetDeviceAddress(h) == Reply(254, [])
    ensures Open(h) == Reply(Written(ERROR_INVALID_PARAM, None), [])
    ensures Close(h).calls == []
    ensures GetStringDescriptorAscii(h, index, length, d).value == Ok(StringDescriptor.StringCopy(ERROR_INVALID_PARAM, []))
    ensures GetConfigurationOf(h, d) == Reply(Written(ERROR_INVALID_PARAM, None), [])
    ensures GetDevice(h) == Reply(ERROR_INVALID_PARAM, [])
    ensures GetActiveConfigDescriptorOf(h, d) == Reply(Written(ERROR_INVALID_PARAM, None), [])
    ensures KernelDriverActive(h, n) == Reply(ERROR_INVALID_PARAM, [])
    ensures Claim(h, n) == Reply(ERROR_INVALID_PARAM, []) && Release(h, n) == Reply(ERROR_INVALID_PARAM, [])
    ensures ControlTransferOf(h, bmRequestType, bRequest, wValue, wIndex, buffer, wLength, timeout, host).calls == []
  {
  }

  /**
   * The handle `libusb_open` hands back, and the one `libusb_open_device_with_vid_pid`
   * returns on success, pass every guard: the device is the handle, and the
   * interface calls, configuration lookup and close reach the bridge.
   */
  lemma OpenedHandleAccepted(vid: Word, pid: Word, n: int, d: UsbDevice)
    ensures var w := Open(DEFAULT_DEVICE).value;
            && w.rc == SUCCESS && w.out.Some?
            && var h := w.out.value;
               && h == OpenDeviceWithVidPidOf(DEFAULT_CONTEXT, vid, pid, true).value
               && GetDevice(h).value == h
               && GetDeviceDescriptorOf(GetDevice(h).value, d).value.rc == SUCCESS
               && Claim(h, n).calls == [ClaimInterface(n)] && Release(h, n).calls == [ReleaseInterface(n)]
               && GetConfigurationOf(h, d).value.rc == SUCCESS
               && KernelDriverActive(h, n).value == 0
               && Close(h).calls == [CloseDevice]
  {
  }
}
