# webusb-libusb-shim in Dafny

The shim puts part of libusb's C API on top of the browser's WebUSB API. A
program compiled with Emscripten calls libusb functions. They are implemented
in `src/libusb.c`, and for anything that needs the device they call through a
thin C layer (`src/webusb.c`) into JavaScript functions in `src/webusb.js`,
which talk to the active `USBDevice`.

This project models two parts of it.

1. **The asynchronous transfer lifecycle**
   - The pending-transfer list: a linked list with a lazily allocated sentinel
     head, appended to on every submit and never shrunk (`Registry`).
   - `libusb_submit_transfer`, `libusb_cancel_transfer`, and the bridge's rule
     for finishing a bulk transfer (`Transfers`).
   - The completion dispatcher `process_completed_transfers`. It walks the list
     in order, fires the callback of every transfer whose status is COMPLETED
     (0) or CANCELLED (3), and resets that status to -1 (`Dispatch`).
   - Interleavings of all these as a caller sees them (`Lifecycle`).
   - The singleton guards of the entry points: context 0, and device or handle
     1 (`Api`).
2. **The byte-level encoders and decoders of the bridge**
   - The 18-byte device descriptor (`DeviceDescriptor`).
   - The configuration descriptor with its interface and endpoint records
     (`ConfigDescriptor`).
   - The endpoint address byte (`Endpoint`).
   - The string descriptor lookup and copy (`StringDescriptor`).
   - The `bmRequestType` decode and the timeout guard of the control transfer
     (`Control`).

State is immutable and every operation is a function from state to state.

- **Transfer records.** A transfer is its index in a sequence of caller-owned
  records (`Transfers.Records`). The two fields the core writes, `status` and
  `actual_length`, live in the library state.
- **Callbacks.** A completion callback is a fixed list of steps, each a submit
  or a cancel of some transfer.
- **The bridge.** The bridge runs asynchronously. A bulk submission queues a
  `BulkCall`, and the environment later resolves any queued call with
  `Transfers.BridgeStep`, choosing the WebUSB outcome.
- **Browser values.** The device record (`Devices.UsbDevice`) and the replies
  of WebUSB are parameters.
- **JavaScript number semantics** are written out:
  - a `Uint8Array` store keeps a value modulo 256 (`Bits.ByteOf`);
  - `n >> 8` acts on the signed 32-bit value of `n` (`Bits.JsHigh`);
  - `|` is a bitwise or (`Bits.BitOr`);
  - a heap `i32` write wraps (`Bits.Int32`);
  - `getValue(.., "i8")` reads a signed byte (`Control.SignedByte`).

Some behaviour of the code differs from what one might expect. The model
follows the code in each case:

- **Cancelling a never-submitted transfer.** Such a transfer is not on the
  pending list, so no poll ever calls it back (`Lifecycle.CancelUnsubmittedNeverFires`).
- **`libusb_open` cannot fail.** Its only error is INVALID_PARAM for a foreign
  device. Only `libusb_open_device_with_vid_pid` reports NO_DEVICE.
- **`bcdUSB` byte order.** The device descriptor writes `usbVersionMajor` at
  byte 2 and the minor number at byte 3, so `bcdUSB` carries the major number
  in its low byte.
- **Byte 4 of the configuration descriptor** counts alternate settings, not
  interfaces. There is one interface record per alternate setting.
- **Cancel, then complete.** When a cancelled transfer's bulk call completes
  after a poll has already dispatched the cancellation, the callback runs a
  second time. The completion write overwrites the -1 with COMPLETED
  (`Lifecycle.CancelThenCompleteFiresTwice`).

## Model

| member | source | states |
|---|---|---|
| Registry.Register | src/libusb.c:42-58 | registering appends exactly the new transfer at the tail, keeping the earlier entries in order, and leaves the head allocated |
| Registry.RegisterAllAppends | src/libusb.c:42-58 | a run of registrations appends exactly that run after the existing entries: nothing is removed, reordered or de-duplicated |
| Registry.RegisterTimesCounts | src/libusb.c:42-58 | k registrations of one transfer leave k more entries for it and every other transfer's count unchanged |
| Endpoint.NumberOf | src/libusb.c:373-374 | the decoded endpoint number is below 128, and number plus 0x80-if-"in" rebuilds the address byte |
| Endpoint.Address | src/webusb.js:240-242 | the encoded address keeps the number's low seven bits, reads as "in" for an "in" endpoint, and equals the number for "out" |
| Endpoint.DecodeAddress | src/webusb.js:240-242 | decoding an encoded address gives back the direction and number, for every number below 128 |
| Endpoint.EncodeDecoded | src/libusb.c:373-374 | every address byte is the encoding of its decoded number and direction |
| Endpoint.LargeNumberReadsAsIn | src/webusb.js:240-242 | an "out" endpoint numbered 128 or more is encoded as an address that decodes as "in" |
| Transfers.BulkCallFor | src/libusb.c:373-394 | the bridge call for a bulk transfer is "in" exactly when bit 7 of the endpoint is set, carries the number (below 128) that re-encodes to the endpoint byte, and carries the transfer's length |
| Transfers.Submit | src/libusb.c:369-397 | submit appends the transfer to the list and writes status -1, which is not dispatchable, for every transfer type; it leaves `actual_length` and the callback log alone and queues exactly one bridge call for BULK and none otherwise |
| Transfers.SubmitTransfer | src/libusb.c:381-394 | a BULK submit returns what the bridge call returned; every other type returns 0 |
| Transfers.Cancel | src/libusb.c:406-410 | cancel makes the status CANCELLED whatever it was and changes nothing else |
| Transfers.RecordCompletion | src/webusb.js:359-363 | the completion write stores the count as a 32-bit word into `actual_length`, keeps CANCELLED, and otherwise sets COMPLETED, so the transfer is always dispatchable afterwards |
| Transfers.FinishBulkIn | src/webusb.js:335-367 | without a device, or when `transferIn` throws, the bridge resolves to false and leaves the transfer's fields alone; otherwise it records the received length and resolves to success |
| Transfers.FinishBulkOut | src/webusb.js:370-402 | the same for "out", recording `bytesWritten` |
| Transfers.BridgeStep | src/webusb.js:355-363 | resolving a queued call removes it from the queue and changes that transfer's fields as the completion rule says and no other transfer's |
| Dispatch.RunCallback | src/libusb.c:68 | a callback keeps the state valid, only extends the list and never creates a callback log entry |
| Dispatch.Visit | src/libusb.c:65-70 | a visit fires the callback exactly when the status is COMPLETED or CANCELLED, logs it once and leaves that status -1; otherwise it changes nothing |
| Dispatch.DrainKeeps | src/libusb.c:63-72 | a pass only extends the list and the log, makes at most `fuel` visits, and stops early only at the tail of the list as it then is, so nodes appended during the pass are visited in it |
| Dispatch.DrainInOrder | src/libusb.c:63-72 | callbacks fire in list order: the fired positions are strictly increasing |
| Dispatch.DrainLogs | src/libusb.c:63-72 | the callback log grows by exactly the transfers at the fired positions, in order |
| Dispatch.DrainQuiet | src/libusb.c:63-72 | with callbacks that only submit, no node in a quiet tail ever fires during the pass |
| Dispatch.AppendedNeverFire | src/libusb.c:63-71 | with callbacks that only submit, nodes appended during a pass are visited but never fire in it, because submit leaves them at -1 |
| Dispatch.DrainAvoids | src/libusb.c:60-73 | a transfer that is not listed and that no callback submits is never called back |
| Dispatch.DrainIdle | src/libusb.c:60-73 | a pass over nodes none of which is COMPLETED or CANCELLED changes nothing and fires nothing |
| Dispatch.FiringsSound | src/libusb.c:63-72 | the positions listed as firings are first occurrences of dispatchable transfers |
| Dispatch.FiringsComplete | src/libusb.c:63-72 | every first occurrence of a dispatchable transfer is listed as a firing |
| Dispatch.DrainSilent | src/libusb.c:63-72 | with empty callbacks and enough visits, a pass fires exactly the first occurrences of dispatchable transfers among the remaining nodes |
| Dispatch.SilentPoll | src/libusb.c:60-73 | with empty callbacks and enough visits, a poll fires position j exactly when it is the first occurrence of a COMPLETED or CANCELLED transfer, reaches the tail, and afterwards a transfer is dispatchable exactly when it was and is not listed |
| Dispatch.SilentPollResets | src/libusb.c:63-72 | with empty callbacks and enough visits, a poll writes -1 into the status of exactly the listed transfers that were COMPLETED or CANCELLED and leaves every other status as it was |
| Dispatch.PollPass | src/libusb.c:60-73 | after a poll from the head, the fired positions increase, the log grows by exactly the transfers at those positions, the list and log only grow, the pass stops at the tail or when the visits run out, and with empty callbacks and enough visits the firings are exactly the first occurrences of dispatchable listed transfers |
| Dispatch.ProcessCompletedTransfers | src/libusb.c:60-73 | the C loop returns SUCCESS and its pass fires in list order, logs each firing once, only extends the list, stops at the tail (or when the visits run out), and with empty callbacks and enough visits fires exactly the first occurrences of dispatchable listed transfers |
| Lifecycle.HandleEventsTimeout | src/libusb.c:400-404 | handling events runs one poll from the head, whatever the context, and makes at most `fuel` visits |
| Lifecycle.SubmitTimesAppends | src/libusb.c:369-378 | submitting a transfer k times appends k entries for it after the existing ones |
| Lifecycle.SubmitTimesDuplicates | src/libusb.c:369-378 | resubmission adds k duplicate entries for the transfer and none for any other |
| Lifecycle.SilentPollFires | src/libusb.c:60-73 | with empty callbacks and enough visits, every listed transfer that is COMPLETED or CANCELLED is called back |
| Lifecycle.CancelThenCompleteFiresTwice | src/webusb.js:359-363 | submit, cancel and poll call a bulk-in transfer back and reset its status to exactly -1; when its bridge call then succeeds, the status becomes COMPLETED and the next poll calls it back again |
| Lifecycle.SecondPollIdle | src/libusb.c:65-70 | with empty callbacks, a second poll after a full one changes nothing and fires nothing |
| Lifecycle.CancelUnsubmittedNeverFires | src/libusb.c:406-410 | cancelling a transfer that was never submitted, and that no callback submits, never produces a callback for it |
| DeviceDescriptor.DeviceDescriptorBytes | src/webusb.js:124-154 | the device descriptor is exactly 18 bytes |
| DeviceDescriptor.DescriptorFields | src/webusb.js:133-150 | read per section 9.6.1 of USB 2.0, the descriptor holds length 18, type 1, packet size 64, the class numbers, the vendor and product ids intact, `bcdUSB` with the major number low, the device version as major low byte and minor/subminor nibbles, string indices 1, 2, 3 and the configuration count modulo 256 |
| DeviceDescriptor.DeviceVersionRoundTrip | src/webusb.js:145-146 | the device version is recoverable from `bcdDevice` when minor and subminor are below 16 |
| StringDescriptor.Utf8LengthCounts | src/webusb.js:177 | the UTF-8 length used for the clamp is the length of the UTF-8 encoding |
| StringDescriptor.FittingPrefixFits | src/webusb.js:178 | the bytes written before the terminator fit the room, are a prefix of the encoding cut at a character boundary, and are all of it when it fits |
| StringDescriptor.GetStringDescriptor | src/webusb.js:158-182 | an index other than 1, 2, 3 throws; otherwise the returned length never exceeds the caller's length and no more bytes than that are written |
| StringDescriptor.StringDescriptorCopies | src/webusb.js:158-182 | index 1, 2, 3 picks manufacturer, product, serial; the result is an error exactly when that name is absent; otherwise it returns `min(utf8 length + 1, length)` and writes a NUL-terminated prefix of the encoding, the whole encoding when the buffer is larger |
| ConfigDescriptor.CountRecords | src/webusb.js:197-205 | the counting loop yields the number of alternate settings and the number of endpoints over all of them |
| ConfigDescriptor.CountEndpoints | src/webusb.js:202-204 | the inner counting loop yields the endpoints of one interface's alternates |
| ConfigDescriptor.ConfigLayout | src/webusb.js:198-222 | the descriptor length is 9 + 9 per alternate + 7 per endpoint, and the header holds 9, type 2, that length low byte first (modulo 2^16), the alternate count modulo 256 and the configuration value |
| ConfigDescriptor.WriteEndpoints | src/webusb.js:239-251 | the endpoint loop writes each endpoint's 7-byte record at the moving offset, in order, and the offset advances by exactly what was written |
| ConfigDescriptor.WriteAlternates | src/webusb.js:227-252 | the alternate loop writes each interface record followed by its endpoint records, in order |
| ConfigDescriptor.SerializeConfig | src/webusb.js:186-261 | the serialiser fills a buffer sized by the counting pass with exactly the header and the records, and the final offset equals the buffer length |
| ConfigDescriptor.EndpointsRoundTrip | src/webusb.js:239-251 | endpoint records read back per section 9.6.6 give each endpoint's address byte and packet size |
| ConfigDescriptor.AlternatesRoundTrip | src/webusb.js:227-252 | interface records read back per section 9.6.5 give each alternate's numbers and then its endpoints |
| ConfigDescriptor.ConfigRoundTrip | src/webusb.js:186-261 | when every value fits its field, parsing the serialised descriptor per sections 9.6.3, 9.6.5 and 9.6.6 gives back the length, alternate count, configuration value and every alternate with its endpoints, in order |
| Control.RequestTypeFields | src/webusb.js:278-284 | the bit operations select bit 7 as the direction, bits 6..5 as the type index and bits 4..0 as the recipient index, and the three rebuild the byte |
| Control.UndefinedRequestType | src/webusb.js:273-278 | the request type is undefined exactly when bits 6..5 hold 3 |
| Control.UndefinedRecipient | src/webusb.js:274-281 | the recipient is undefined exactly when bits 4..0 hold 4 or more |
| Control.DecodeRequestTypeByte | src/webusb.js:278-284 | decoding the byte built from a direction, type and recipient gives them back |
| Control.EncodeDecodedRequestType | src/webusb.js:278-284 | every byte whose type and recipient are defined is the encoding of what it decodes to |
| Control.PayloadCopies | src/webusb.js:315-319 | reading heap bytes as signed and storing them into a `Uint8Array` sends the caller's bytes unchanged |
| Control.ControlTransfer | src/webusb.js:265-331 | a nonzero timeout throws before any WebUSB call; otherwise one call is made with the decoded setup, "in" exactly when bit 7 is set, "out" sending the first `wLength` buffer bytes; success needs status "ok" and returns the received length or `bytesWritten` |
| Control.ControlCarriesRequest | src/webusb.js:286-300 | a request built from a direction, type and recipient reaches WebUSB as that direction with exactly that type and recipient |
| Control.ControlInDelivers | src/webusb.js:299-311 | an "in" transfer succeeds exactly when the reply is "ok", then leaves the received bytes at the front of the buffer and the rest unchanged; a failure leaves the buffer alone |
| Api.Init | src/libusb.c:90-96 | init fails with NOT_SUPPORTED without `navigator.usb`, and otherwise succeeds and stores context 0 when asked |
| Api.AccessCode | src/webusb.js:34-42 | the bridge's device request never answers 0: it answers negative exactly on refusal |
| Api.GetDeviceListAsWritten | src/libusb.c:99-122 | a foreign context is rejected with no bridge call; context 0 asks the bridge for access |
| Api.GetDeviceListIgnoresRefusal | src/libusb.c:107-110 | as written, NO_DEVICE is never returned, and a refused request yields the one-device list |
| Api.GetDeviceList | src/libusb.c:99-122 | with the refusal test corrected, context 0 gives NO_DEVICE exactly on refusal, and otherwise count 1 with the list [device 1, NULL] |
| Api.GetDeviceDescriptorOf | src/libusb.c:125-136 | the one device gets SUCCESS and the 18 descriptor bytes; any other gets neither |
| Api.GetBusNumber | src/libusb.c:153-161 | no bridge call; bus 0 for the one device, and INVALID_PARAM converted to the byte 254 for any other |
| Api.GetDeviceAddress | src/libusb.c:164-172 | no bridge call; address 0 for the one device, 254 for any other |
| Api.GetPortNumbers | src/libusb.c:175-184 | no bridge call; no port numbers for the one device, INVALID_PARAM for any other |
| Api.Open | src/libusb.c:187-201 | a foreign device is rejected with no bridge call; the one device is opened and its pointer becomes the handle, with SUCCESS |
| Api.Close | src/libusb.c:204-213 | the device is closed for handle 1 and nothing happens for any other handle |
| Api.GetStringDescriptorAscii | src/libusb.c:217-227 | a foreign handle gets INVALID_PARAM and nothing written; handle 1 makes one string-descriptor bridge call and gets exactly the bridge's string copy for that index and length (see `StringDescriptor.StringDescriptorCopies`), never longer than the caller's length |
| Api.GetConfigurationOf | src/libusb.c:230-241 | a foreign handle gets INVALID_PARAM with no bridge call; handle 1 gets SUCCESS and the active configuration value |
| Api.GetDevice | src/libusb.c:244-253 | no bridge call; the device is the handle itself, and INVALID_PARAM as a pointer value for any other handle |
| Api.GetActiveConfigDescriptorOf | src/libusb.c:256-267 | a foreign device is rejected with no bridge call; the one device makes one bridge call and gets SUCCESS and exactly the serialised active configuration, of the computed total length |
| Api.ActiveConfigReadsBack | src/libusb.c:256-267 | the bytes handed to the caller read back as the active configuration (length, alternate count, value, and every alternate with its endpoints) whenever its values fit their fields |
| Api.KernelDriverActive | src/libusb.c:277-287 | no bridge call; never active for handle 1, INVALID_PARAM for any other |
| Api.Claim | src/libusb.c:290-301 | a foreign handle is rejected with no bridge call; handle 1 claims that interface and gets SUCCESS |
| Api.Release | src/libusb.c:304-315 | a foreign handle is rejected with no bridge call; handle 1 releases that interface and gets SUCCESS |
| Api.ControlTransferOf | src/libusb.c:332-343 | a foreign handle is rejected with the buffer untouched and no bridge call; handle 1 makes exactly one bridge call, which throws for a nonzero timeout, and returns the bridge control transfer's result and leaves its buffer (see `Control.ControlInDelivers`) |
| Api.OpenDeviceWithVidPidOf | src/libusb.c:353-366 | a foreign context is rejected with no bridge call; context 0 asks the bridge to open that device and returns handle 1, or NO_DEVICE on refusal |
| Api.ForeignHandleRejected | src/libusb.c:84-85 | every device- or handle-taking entry point refuses any value other than 1 before reaching the bridge: the int- and pointer-returning ones with INVALID_PARAM, the bus number and device address with 254 (INVALID_PARAM cut to a uint8), and close ignores it |
| Api.OpenedHandleAccepted | src/libusb.c:187-201 | the handle `libusb_open` returns, which is also what a successful `libusb_open_device_with_vid_pid` returns, passes every guard and reaches the bridge |

## Left out

- WebUSB, `navigator` and Asyncify are not modelled. The browser's answers are parameters:
  - the device record (`Devices.UsbDevice`);
  - the host result of a queued bulk call (`Transfers.HostResult`);
  - the control-transfer reply (`Control.HostReply`);
  - whether device access is granted.
- Open, close, claim and release on the device are recorded as bridge calls (`Api.BridgeCall`) with no effect on the model.
- Concurrency and timing are not modelled. The bridge runs between polls as explicit environment steps (`Transfers.BridgeStep`), one resolved call at a time.
- The C poll loop need not terminate, because callbacks can keep cancelling each other. A pass is bounded by `fuel` visits (`Dispatch.Drain`). A pass that runs out of fuel before reaching the tail stops early, which the C loop would not.
- Polling before any submit dereferences a NULL head in C. The poll operations require the head to be allocated instead of modelling a crash.
- `libusb_handle_events_timeout` and `libusb_cancel_transfer` fall off the end without returning a value. That is undefined behaviour in C, so the model gives them no result.
- Raw memory is not modelled:
  - the `transfer+12` and `transfer+20` offsets, `setValue` and `getValue`;
  - `malloc` and `free` (`libusb_free_device_list`, `libusb_free_config_descriptor`, `libusb_free_transfer`);
  - the size arithmetic of `libusb_alloc_transfer`;
  - the copy of received bulk-in data into the transfer buffer.

  Heap writes the caller reads appear as returned byte sequences.
- The configuration descriptor reaches C typed as `struct libusb_config_descriptor *`, but it holds raw descriptor bytes. Only the bytes are modelled. How C code would read them through that struct is not.
- The entry points that reach the device assume an active, configured device. These are open, close, claim and release (`src/webusb.js:26-65`), the configuration value (line 71), the device descriptor (line 129), the string descriptor (lines 164-170), the configuration descriptor (line 195) and the control transfer (lines 299 and 322). Each dereferences `active_device` unchecked. Before a device is set, or with a null `configuration`, the JavaScript throws a TypeError into the C call. The model takes the device record as given and does not model that error. Only the bulk bridges (lines 341 and 376) check for an absent device, and they are modelled.
- A callback is a fixed list of submit and cancel steps over a fixed set of transfer records. Left out: a callback that calls `libusb_handle_events_timeout` again (a nested pass, which would break the in-order guarantee of `Dispatch.DrainInOrder`), one that changes a transfer's `length` or `endpoint` before resubmitting it, and one that frees a listed transfer.
- `libusb_exit` does nothing and is not modelled.
- The roughly 50 "not implemented" stubs after `src/libusb.c:417` are left out.
- `debug_log`, printing and the `sleep` override are left out.
- `src/webusb.c` is a set of forwarders. It defines `submit_bulk_in_transfer` but no `submit_bulk_out_transfer`, which `libusb_submit_transfer` calls anyway. Bulk-out is modelled as an abstract bridge call.
- Device selection in `_request_usb_device_async` (`src/webusb.js:84-120`) is modelled only as granted or refused. Its `vendor_id` reassignment at line 86 is not modelled.
- WebUSB's `USBAlternateInterface` has no `interfaceNumber`, and it spells the subclass attribute `interfaceSubclass`. The serialiser's reads of `alt.interfaceNumber` and `alt.interfaceSubClass` therefore give `undefined` in a browser, which a `Uint8Array` stores as 0. The device's `deviceSubClass` read has the same spelling problem. `Devices.UsbAlternate` and `Devices.UsbDevice` carry the properties under the names the code reads, and the browser's attribute set is not modelled.
- `stringToUTF8` is modelled as Emscripten defines it: it writes at most `max - 1` bytes of whole UTF-8 characters and then a NUL. UTF-16 surrogate handling is not modelled. A `char` is a Unicode scalar value.
- Control.ControlTransfer: the bridge writes a reply longer than the caller's buffer past its end. The model keeps only the bytes that land inside the buffer. The caller's buffer is required to hold `wLength` bytes, as libusb's API demands.
- Transfers.FinishBulkIn: the received data is represented by its length only. The copy into the transfer buffer is a raw heap write.
- ConfigDescriptor.ConfigRoundTrip: stated only for configurations whose counts, total length and packet sizes fit their descriptor fields. Larger values are cut modulo 256 or 2^16 in the header and records (see `ConfigDescriptor.ConfigLayout`).

## Findings

| source | as written | input that shows it | evidently intended | confidence | as-written member | corrected member |
|---|---|---|---|---|---|---|
| src/libusb.c:107 | `libusb_get_device_list` treats access as refused when `request_device_access()` returns 0. The bridge returns -1 on refusal and 1 on success (`src/webusb.js:34-42`), so the NO_DEVICE branch is dead | context 0, with the user refusing the device request: the call returns count 1 and the list [device 1, NULL] for a device that was never opened | test `< 0`, as `libusb_open_device_with_vid_pid` does on the same bridge call (`src/libusb.c:361`) | high (not executed) | Api.GetDeviceListAsWritten, Api.GetDeviceListIgnoresRefusal | Api.GetDeviceList |
