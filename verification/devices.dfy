/**
 * The WebUSB objects the shim reads: the active device, its active configuration,
 * and that configuration's interfaces, alternate settings and endpoints. Each
 * record holds the properties the shim reads, under the names it reads them.
 */
module Devices {
  import opened Bits
  import opened Outcomes
  import Endpoint

  /** The string-descriptor indices the shim announces. */
  const INDEX_MANUFACTURER: Byte := 1
  const INDEX_PRODUCT: Byte := 2
  const INDEX_SERIAL_NUMBER: Byte := 3
  const INDEX_CONFIG: Byte := 4
  const INDEX_INTERFACE: Byte := 5

  /** A `USBEndpoint`: its number, its direction ("in" or "out") and its packet size. */
  datatype UsbEndpoint = UsbEndpoint(endpointNumber: Byte, direction: Endpoint.Direction, packetSize: nat)

  /** A `USBAlternateInterface`, with the properties the configuration serialiser reads from it. */
  datatype UsbAlternate = UsbAlternate(
    interfaceNumber: Byte,
    alternateSetting: Byte,
    interfaceClass: Byte,
    interfaceSubClass: Byte,
    interfaceProtocol: Byte,
    endpoints: seq<UsbEndpoint>)

  /** A `USBInterface`: its alternate settings. */
  datatype UsbInterface = UsbInterface(alternates: seq<UsbAlternate>)

  /** A `USBConfiguration`: its value and its interfaces. */
  datatype UsbConfiguration = UsbConfiguration(configurationValue: Byte, interfaces: seq<UsbInterface>)

  /**
   * A `USBDevice`: version and class numbers, ids, the three optional names, the
   * number of configurations, and the active configuration.
   */
  datatype UsbDevice = UsbDevice(
    usbVersionMajor: Byte,
    usbVersionMinor: Byte,
    deviceClass: Byte,
    deviceSubClass: Byte,
    deviceProtocol: Byte,
    vendorId: Word,
    productId: Word,
    deviceVersionMajor: Byte,
    deviceVersionMinor: Byte,
    deviceVersionSubminor: Byte,
    manufacturerName: Option<string>,
    productName: Option<string>,
    serialNumber: Option<string>,
    configurationCount: nat,
    configuration: UsbConfiguration)
}
