/**
 * `_get_device_descriptor`: the 18-byte standard device descriptor of section
 * 9.6.1 of the USB 2.0 specification, built from the active WebUSB device and
 * written over the caller's `struct libusb_device_descriptor`.
 */
module DeviceDescriptor {
  import opened Bits
  import opened Devices

  const DEVICE_DESCRIPTOR_LENGTH: Byte := 18
  /** `LIBUSB_DT_DEVICE`. */
  const DT_DEVICE: Byte := 1
  /** The shim always announces a 64-byte control endpoint. */
  const MAX_PACKET_SIZE_0: Byte := 64

  /** The bytes the shim writes, in order. */
  function DeviceDescriptorBytes(d: UsbDevice): (data: seq<Byte>)
    ensures |data| == DEVICE_DESCRIPTOR_LENGTH as int
  {
    [ DEVICE_DESCRIPTOR_LENGTH, DT_DEVICE,
      d.usbVersionMajor, d.usbVersionMinor,
      d.deviceClass, d.deviceSubClass, d.deviceProtocol,
      MAX_PACKET_SIZE_0,
      JsLow(d.vendorId), JsHigh(d.vendorId),
      JsLow(d.productId), JsHigh(d.productId),
      d.deviceVersionMajor, ByteOf(BitOr(d.deviceVersionMinor * 16, d.deviceVersionSubminor)),
      INDEX_MANUFACTURER, INDEX_PRODUCT, INDEX_SERIAL_NUMBER,
      ByteOf(d.configurationCount) ]
  }

  /** `struct libusb_device_descriptor`: byte fields and little-endian 16-bit fields. */
  datatype Descriptor = Descriptor(
    bLength: Byte,
    bDescriptorType: Byte,
    bcdUSB: Word,
    bDeviceClass: Byte,
    bDeviceSubClass: Byte,
    bDeviceProtocol: Byte,
    bMaxPacketSize0: Byte,
    idVendor: Word,
    idProduct: Word,
    bcdDevice: Word,
    iManufacturer: Byte,
    iProduct: Byte,
    iSerialNumber: Byte,
    bNumConfigurations: Byte)

  /** How the caller reads the 18 bytes: the field layout of section 9.6.1, words little-endian. */
  function Read(data: seq<Byte>): Descriptor
    requires |data| == DEVICE_DESCRIPTOR_LENGTH as int
  {
    Descriptor(
      data[0], data[1], WordOf(data[2], data[3]),
      data[4], data[5], data[6], data[7],
      WordOf(data[8], data[9]), WordOf(data[10], data[11]), WordOf(data[12], data[13]),
      data[14], data[15], data[16], data[17])
  }

  /**
   * What the caller finds in each field: the fixed length, type, packet size and
   * string indices; the device's class numbers; its vendor and product ids intact;
   * the USB version with the major number in the low byte of `bcdUSB`; the device
   * version with the major number in the low byte and minor and subminor packed
   * as nibbles in the high byte; and the number of configurations modulo 256.
   */
  lemma DescriptorFields(d: UsbDevice)
    ensures var r := Read(DeviceDescriptorBytes(d));
      && r.bLength == 18 && r.bDescriptorType == 1 && r.bMaxPacketSize0 == 64
      && r.bcdUSB == d.usbVersionMajor + 256 * d.usbVersionMinor
      && r.bDeviceClass == d.deviceClass && r.bDeviceSubClass == d.deviceSubClass
      && r.bDeviceProtocol == d.deviceProtocol
      && r.idVendor == d.vendorId && r.idProduct == d.productId
      && r.bcdDevice % 256 == d.deviceVersionMajor
      && (d.deviceVersionMinor < 16 && d.deviceVersionSubminor < 16 ==>
            r.bcdDevice / 256 == 16 * d.deviceVersionMinor + d.deviceVersionSubminor)
      && r.iManufacturer == INDEX_MANUFACTURER && r.iProduct == INDEX_PRODUCT
      && r.iSerialNumber == INDEX_SERIAL_NUMBER
      && r.bNumConfigurations == d.configurationCount % 256
  {
    var data := DeviceDescriptorBytes(d);
    var r := Read(data);
    IdsIntact(d);
    assert r.idVendor == WordOf(data[8], data[9]) && r.idProduct == WordOf(data[10], data[11]);
    VersionPacked(d);
    assert r.bcdDevice == WordOf(data[12], data[13]);
  }

  /** The vendor and product ids are written low byte first and read back intact. */
  lemma IdsIntact(d: UsbDevice)
    ensures var data := DeviceDescriptorBytes(d);
            WordOf(data[8], data[9]) == d.vendorId && WordOf(data[10], data[11]) == d.productId
  {
    SplitWord(d.vendorId);
    SplitWord(d.productId);
  }

  /** Byte 12 is the major number; byte 13 packs minor and subminor as nibbles when they fit. */
  lemma VersionPacked(d: UsbDevice)
    ensures var data := DeviceDescriptorBytes(d);
            && WordOf(data[12], data[13]) % 256 == d.deviceVersionMajor
            && (d.deviceVersionMinor < 16 && d.deviceVersionSubminor < 16 ==>
                  WordOf(data[12], data[13]) / 256 == 16 * d.deviceVersionMinor + d.deviceVersionSubminor)
  {
    var data := DeviceDescriptorBytes(d);
    var w := WordOf(data[12], data[13]);
    assert w == data[12] as int + 256 * data[13] as int;
    assert w % 256 == data[12] && w / 256 == data[13];
    if d.deviceVersionMinor < 16 && d.deviceVersionSubminor < 16 {
      BitOrNibbles(d.deviceVersionMinor, d.deviceVersionSubminor);
      assert data[13] == ByteOf(d.deviceVersionMinor * 16 + d.deviceVersionSubminor);
    }
  }

  /**
   * A device version with minor and subminor numbers below 16 can be read back
   * from `bcdDevice`: the minor number is its high nibble, the subminor its low one.
   */
  lemma DeviceVersionRoundTrip(d: UsbDevice)
    requires d.deviceVersionMinor < 16 && d.deviceVersionSubminor < 16
    ensures var bcd := Read(DeviceDescriptorBytes(d)).bcdDevice;
      && bcd % 256 == d.deviceVersionMajor
      && (bcd / 256) / 16 == d.deviceVersionMinor
      && (bcd / 256) % 16 == d.deviceVersionSubminor
  {
    DescriptorFields(d);
  }
}
