/**
 * `_get_string_descriptor`: look up one of the device's three names by its
 * string-descriptor index and copy it, UTF-8 encoded and NUL-terminated, into a
 * caller buffer of `length` bytes. The length arithmetic is `lengthBytesUTF8`,
 * the copy is Emscripten's `stringToUTF8`, which writes whole characters only.
 */
module StringDescriptor {
  import opened Bits
  import opened Outcomes
  import opened Devices

  /** Why the lookup throws: an index other than 1, 2 or 3, or a name the device does not have. */
  datatype StringError = UnhandledIndex(index: Byte) | NullName

  /** The value returned and the bytes written into the caller's buffer. */
  datatype StringCopy = StringCopy(returned: int, written: seq<Byte>)

  /** The number of UTF-8 bytes of one character. */
  function CharLength(c: char): (n: nat)
    ensures 1 <= n <= 4
  {
    var u := c as int;
    if u < 0x80 then 1 else if u < 0x800 then 2 else if u < 0x1_0000 then 3 else 4
  }

  /** The UTF-8 encoding of one character. */
  function EncodeChar(c: char): (bs: seq<Byte>)
    ensures |bs| == CharLength(c)
    ensures bs[0] != 0 || c == 0 as char
  {
    var u := c as int;
    if u < 0x80 then [u]
    else if u < 0x800 then [0xC0 + u / 0x40, 0x80 + u % 0x40]
    else if u < 0x1_0000 then [0xE0 + u / 0x1000, 0x80 + (u / 0x40) % 0x40, 0x80 + u % 0x40]
    else [0xF0 + u / 0x4_0000, 0x80 + (u / 0x1000) % 0x40, 0x80 + (u / 0x40) % 0x40, 0x80 + u % 0x40]
  }

  /** `lengthBytesUTF8`: the length of the UTF-8 encoding, without a terminator. */
  function Utf8Length(s: string): nat {
    if s == [] then 0 else CharLength(s[0]) + Utf8Length(s[1..])
  }

  /** The UTF-8 encoding of a string. */
  function Utf8(s: string): seq<Byte> {
    if s == [] then [] else EncodeChar(s[0]) + Utf8(s[1..])
  }

  /** `lengthBytesUTF8` counts exactly the bytes of the encoding. */
  lemma {:induction false} Utf8LengthCounts(s: string)
    ensures |Utf8(s)| == Utf8Length(s)
  {
    if s != [] {
      Utf8LengthCounts(s[1..]);
    }
  }

  /** The encodings of the longest run of leading characters that fits in `room` bytes. */
  function FittingPrefix(s: string, room: int): seq<Byte> {
    if s == [] || CharLength(s[0]) > room then []
    else EncodeChar(s[0]) + FittingPrefix(s[1..], room - CharLength(s[0]))
  }

  /**
   * The fitting prefix never exceeds the room, is a prefix of the full encoding,
   * and is the full encoding when that fits.
   */
  lemma {:induction false} FittingPrefixFits(s: string, room: int)
    ensures |FittingPrefix(s, room)| <= (if room < 0 then 0 else room)
    ensures FittingPrefix(s, room) <= Utf8(s)
    ensures Utf8Length(s) <= room ==> FittingPrefix(s, room) == Utf8(s)
  {
    if s != [] && CharLength(s[0]) <= room {
      FittingPrefixFits(s[1..], room - CharLength(s[0]));
    }
  }

  /** `stringToUTF8(s, buffer, maxBytes)`: the bytes it writes. */
  function StringToUtf8(s: string, maxBytes: int): seq<Byte> {
    if maxBytes <= 0 then [] else FittingPrefix(s, maxBytes - 1) + [0]
  }

  /** The name a string-descriptor index selects; any other index throws. */
  function NameAt(d: UsbDevice, index: Byte): Result<Outcomes.Option<string>, StringError> {
    if index == INDEX_SERIAL_NUMBER then Ok(d.serialNumber)
    else if index == INDEX_PRODUCT then Ok(d.productName)
    else if index == INDEX_MANUFACTURER then Ok(d.manufacturerName)
    else Err(UnhandledIndex(index))
  }

  function Min(a: int, b: int): int {
    if a <= b then a else b
  }

  /**
   * The lookup, then `len = min(lengthBytesUTF8(name) + 1, length)`, the copy of at
   * most `len` bytes, and `len` returned.
   */
  function GetStringDescriptor(d: UsbDevice, index: Byte, length: int): (r: Result<StringCopy, StringError>)
    ensures index !in {INDEX_MANUFACTURER, INDEX_PRODUCT, INDEX_SERIAL_NUMBER} <==> r == Err(UnhandledIndex(index))
    ensures r.Ok? ==> r.value.returned <= length && |r.value.written| <= (if length < 0 then 0 else length)
  {
    match NameAt(d, index)
    case Err(e) => Err(e)
    case Ok(None) => Err(NullName)
    case Ok(Some(name)) =>
      var len := Min(Utf8Length(name) + 1, length);
      FittingPrefixFits(name, len - 1);
      Ok(StringCopy(len, StringToUtf8(name, len)))
  }

  /**
   * For each announced index the matching name is copied: the result is an error
   * exactly when the device lacks that name; otherwise the returned length is
   * `min(utf8 length + 1, length)`, the bytes written are a NUL-terminated prefix
   * of the encoding, and the whole encoding when the buffer is larger than it.
   */
  lemma StringDescriptorCopies(d: UsbDevice, index: Byte, length: int)
    requires index in {INDEX_MANUFACTURER, INDEX_PRODUCT, INDEX_SERIAL_NUMBER}
    ensures var name := if index == INDEX_MANUFACTURER then d.manufacturerName
                        else if index == INDEX_PRODUCT then d.productName
                        else d.serialNumber;
            var r := GetStringDescriptor(d, index, length);
            && (r.Err? <==> name.None?)
            && (r.Err? ==> r.error == NullName)
            && (r.Ok? ==>
                  && r.value.returned == Min(Utf8Length(name.value) + 1, length)
                  && (length > 0 ==> r.value.written[..|r.value.written| - 1] <= Utf8(name.value)
                                     && r.value.written[|r.value.written| - 1] == 0)
                  && (length <= 0 ==> r.value.written == [])
                  && (length > Utf8Length(name.value) ==> r.value.written == Utf8(name.value) + [0]))
  {
    match NameAt(d, index)
    case Ok(Some(name)) =>
      var len := Min(Utf8Length(name) + 1, length);
      FittingPrefixFits(name, len - 1);
      var w := StringToUtf8(name, len);
      if len > 0 {
        assert w[..|w| - 1] == FittingPrefix(name, len - 1);
      }
    case _ =>
  }
}
