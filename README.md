# Midea air conditioner LAN protocol core, in Dafny

This project models the protocol core of a Home Assistant integration for Midea air
conditioners on the local network. It covers two source files.

- `aiomart.py` holds the per-device TCP exchange and the device state machine.
  The model covers:
  - which bytes of a raw reply are decrypted: bytes 40..72 of an 88-byte reply, bytes 40..88 of any other reply;
  - the operational-mode and swing-mode enums, which fall back to a default for unknown codes;
  - the fan speed, which wraps any integer;
  - `refresh` and `apply`, which update the flags `online`, `support`, `deferUpdate` and `updating`, and merge the device's reported state only for a full-state frame (frame type `0xC0` at offset `0xA`).
- `discover.py` holds UDP discovery. The model covers:
  - `device_id2int`, a little-endian decode;
  - `bytes2port`, a loop that ORs four bytes into place;
  - `datagram_received`, which checks a reply's length and magic, strips the version-3 envelope, decrypts the body, checks the embedded IP against the sender, extracts port, serial, network name and appliance kind, and appends one record to `found_devices`.

Modules:

- `Bytes` (`bytes.dfy`): byte strings and Python `int` arithmetic, meaning `|`, `<<`, `int.from_bytes`, `reversed` and Python's clamping slice `s[lo:hi]`.
- `Text` (`text.dfy`): `str(int)`, `join` and `split`, with the parsing and joining that undo them.
- `Aiomart` (`aiomart.dfy`): the exchange, the enums and the `AC` class.
- `Discover` (`discover.dfy`): the byte helpers, the datagram parse and the `DiscoverProtocol` class.
- `Wrappers` (`wrappers.dfy`): `Option`.

Each vendor (`msmart`) primitive is passed in as a function value the model knows nothing about. This covers AES decryption, the frame decoder, and the response parser together with the device's `update`. No round trip of the cipher is assumed.

Three kinds of I/O become parameters:

- the socket reply is `Reply`: `Answered(raw)`, or `TransportRaised` when the exchange raised;
- the UDP datagram and its source address are the arguments of `DatagramReceived`;
- the initial field values set by the `msmart` base class are constructor arguments.

`refresh` and `apply` are each modelled twice. The class methods `AC.Refresh` and `AC.Apply` update the fields step by step. Each is proved equal to a pure transition, `RefreshStep` or `ApplyStep`, on the whole device state. The properties are proved about those transitions. In the same way, `DiscoverProtocol.DatagramReceived` is proved equal to the pure `Classify`, and `Bytes2Port` is proved equal to `PortValue`.

Behaviour of the code worth knowing:

- **No deduplication.** Discovery does not deduplicate replies by source address. The guard at `discover.py:68` tests whether a string is in a list of dict records, so it never fires (`Listed`). The same reply received twice is recorded twice (`ReceiveTwice`).
- **Exceptions propagate.** Transport exceptions are not turned into `online = false`. `refresh` lets them escape with the state untouched. `apply` lets them escape after its `finally` clause (outcome `Raised`).
- **Short replies raise.** A decoded reply that is non-empty but at most 10 bytes long raises `IndexError` at `data[0xa]`. In `refresh` this happens after `online`, `support` and `deferUpdate` have been set. In `apply` it does not happen when `deferUpdate` was already set on entry, because that skips the frame-type test.
- **`apply` keeps an inherited `deferUpdate`.** `apply` does not clear `deferUpdate` before the exchange. A `deferUpdate` set on entry therefore skips the merge, and `finally` then clears it.
- **Missing version tag.** The version tag is absent when the first two bytes are neither `5A5A` nor `8370`, even though the magic was found at offset 8.
- **One set of fields.** The source has one set of device fields: `apply` reads them and `update` overwrites them. There is no separate desired and reported state, and `Settings` models that single set.

## Model

| member | source | states |
|---|---|---|
| `Aiomart.CipherRegion` | custom_components/midea_ac_lan/aiomart/aiomart.py:19-23 | an 88-byte reply yields exactly its bytes 40..72 (32 bytes); any other reply yields bytes from offset 40 on, min(len, 88) − 40 of them, none when the reply has at most 40 bytes |
| `Aiomart.DecryptInput` | custom_components/midea_ac_lan/aiomart/aiomart.py:18-26 | something is decrypted exactly when the reply is non-empty, and it is the cipher region |
| `Aiomart.Lan.TransparentSend` | custom_components/midea_ac_lan/aiomart/aiomart.py:17-26 | an empty reply gives an empty result; a non-empty one the decoded decryption of its cipher region |
| `Aiomart.OperationalModeGet` | custom_components/midea_ac_lan/aiomart/aiomart.py:70-86 | total; the member has the given code exactly when the code is in 1..5, otherwise it is `fan_only`; the result's code is always in 1..5 |
| `Aiomart.OperationalModeGetOfCode` | custom_components/midea_ac_lan/aiomart/aiomart.py:81-84 | looking up a member's own code gives the member back |
| `Aiomart.OperationalModeGetIdempotent` | custom_components/midea_ac_lan/aiomart/aiomart.py:81-86 | looking up the result's code again changes nothing |
| `Aiomart.SwingModeGet` | custom_components/midea_ac_lan/aiomart/aiomart.py:88-103 | total; the member has the given code exactly when the code is one of 0x0, 0x3, 0xC, 0xF, otherwise it is `Off` |
| `Aiomart.SwingModeGetOfCode` | custom_components/midea_ac_lan/aiomart/aiomart.py:98-101 | looking up a member's own code gives the member back |
| `Aiomart.SwingModeGetIdempotent` | custom_components/midea_ac_lan/aiomart/aiomart.py:98-103 | looking up the result's code again changes nothing |
| `Aiomart.UnknownCodesFallBack` | custom_components/midea_ac_lan/aiomart/aiomart.py:81-103 | mode code 99 (and 0) resolves to `fan_only`; swing code 0x5 (and −1) resolves to `Off` |
| `Aiomart.FanSpeedReflectsValue` | custom_components/midea_ac_lan/aiomart/aiomart.py:52-68 | any integer is accepted; `value` and `int()` are that integer, `str()` reads back as it, `key` is `"Any"` |
| `Text.IntToString` | custom_components/midea_ac_lan/aiomart/aiomart.py:56-57 | `str()` of an integer reads back as that integer |
| `Aiomart.Receive` | custom_components/midea_ac_lan/aiomart/aiomart.py:115 | nothing is received exactly when the exchange raised; an empty reply gives an empty payload; a non-empty one the decoded decryption of its cipher region (the same exchange `apply` awaits at line 150) |
| `Aiomart.SetCommandFor` | custom_components/midea_ac_lan/aiomart/aiomart.py:135-146 | every field of the set command is the current value of the matching device field |
| `Aiomart.Merged` | custom_components/midea_ac_lan/aiomart/aiomart.py:121-127 | the reported state is merged exactly when the frame-type byte is `0xC0`; for any other tag the settings stay as they were |
| `Aiomart.RefreshStep` | custom_components/midea_ac_lan/aiomart/aiomart.py:109-130 | an exchange that raised leaves everything unchanged; an empty payload only clears `online`; a non-empty one sets `online` and `support`, clears `deferUpdate`, keeps `updating`; with a frame-type byte the settings become the merge for `0xC0` and stay as they were for any other tag; without one (≤ 10 bytes) it raises with the settings unchanged |
| `Aiomart.ApplyStep` | custom_components/midea_ac_lan/aiomart/aiomart.py:132-166 | on every path `updating` and `deferUpdate` end false; an exchange that raised changes nothing else; an empty payload clears `online` and keeps the settings; a non-empty one sets `online` and `support`; a `deferUpdate` set on entry skips the merge; otherwise the merge rule of `refresh`, raising on a payload of ≤ 10 bytes |
| `Aiomart.FrameTypeDecidesMerge` | custom_components/midea_ac_lan/aiomart/aiomart.py:121-127 | two payloads that differ only in the frame-type byte: the `0xC0` one is merged by `refresh`, and by `apply` when `deferUpdate` is clear on entry; the `0xA0`/`0xA1` one leaves the settings unchanged in both |
| `Aiomart.ExchangesKeepSupport` | custom_components/midea_ac_lan/aiomart/aiomart.py:116-163 | `support` is never cleared: once the device has answered, it stays supported after either operation, on every path |
| `Aiomart.ExchangesPreserveOnlineImpliesSupport` | custom_components/midea_ac_lan/aiomart/aiomart.py:116-163 | if an online device was supported before, it still is after either operation |
| `Aiomart.ExchangesLeaveDeviceAtRest` | custom_components/midea_ac_lan/aiomart/aiomart.py:133-165 | a device with `updating` false still has it false after `refresh` or `apply` |
| `Aiomart.AC.constructor` | custom_components/midea_ac_lan/aiomart/aiomart.py:105-107 | the device starts from the given state and primitives |
| `Aiomart.AC.Refresh` | custom_components/midea_ac_lan/aiomart/aiomart.py:109-130 | sends a query; the new fields and the outcome are exactly `RefreshStep` of the old fields |
| `Aiomart.AC.Apply` | custom_components/midea_ac_lan/aiomart/aiomart.py:132-166 | sends a set command carrying exactly the current prompt tone, power, target temperature, mode, fan speed, swing, eco, turbo and Fahrenheit flag; `updating` is true when it is sent; the new fields and the outcome are exactly `ApplyStep` of the old ones, so `updating` and `deferUpdate` end false |
| `Bytes.BigEndian` | custom_components/midea_lan/aiomart/discover.py:33 | `int.from_bytes(s, "big")` is below 256^len |
| `Bytes.ShiftLeft` | custom_components/midea_lan/aiomart/discover.py:43 | shifting left by a whole number `k` of bytes multiplies by 256^k |
| `Bytes.BitOr` | custom_components/midea_lan/aiomart/discover.py:43 | the bitwise OR of `a` and `b` is at least each operand and at most their sum |
| `Bytes.PySlice` | custom_components/midea_lan/aiomart/discover.py:76-87 | `s[lo:hi]` with Python's bounds (negative counts from the end, clamped to the sequence): its length is the clamped `hi − lo`, or 0, and its `k`-th element is `s[lo' + k]` for the clamped start `lo'` |
| `Bytes.Reverse` | custom_components/midea_lan/aiomart/discover.py:33 | `reversed(s)` has the same length, and its `i`-th element is `s[len − 1 − i]` |
| `Discover.DeviceId2Int` | custom_components/midea_lan/aiomart/discover.py:32-33 | reversing the bytes and decoding big-endian is the little-endian value (sum of `b[i]·256^i`), below 256^len |
| `Discover.SixByteIdBound` | custom_components/midea_lan/aiomart/discover.py:78 | a 6-byte id is below 2^48 |
| `Discover.PortValue` | custom_components/midea_lan/aiomart/discover.py:36-44 | the little-endian value of the first (up to) four bytes is below 2^32 |
| `Discover.PortValueOfPadded` | custom_components/midea_lan/aiomart/discover.py:38-42 | missing bytes count as 0 (padding to four zero bytes does not change the value) and bytes past index 3 are ignored |
| `Discover.PortValueAgreesWithDeviceId` | custom_components/midea_lan/aiomart/discover.py:32-44 | on at most four bytes the port and the device-id decodings agree |
| `Discover.Bytes2PortRound` | custom_components/midea_lan/aiomart/discover.py:39-43 | one loop round, OR-ing byte `b` shifted by `8b`, extends the little-endian value by that byte (or by 0 past the end) |
| `Discover.Bytes2Port` | custom_components/midea_lan/aiomart/discover.py:36-44 | the loop computes `PortValue` of its input |
| `Discover.ReversedHead` | custom_components/midea_lan/aiomart/discover.py:80 | `reply[3::-1]` is the first min(4, len) bytes, last first |
| `Discover.Decimals` | custom_components/midea_lan/aiomart/discover.py:80 | `[str(i) for i in xs]` has one string per byte, and the `k`-th is `str(xs[k])` |
| `Text.NatToString` | custom_components/midea_lan/aiomart/discover.py:80 | `str(n)`: at least one character, only digits, no leading zero unless `n` is 0, and read back as `n` |
| `Text.Join` | custom_components/midea_lan/aiomart/discover.py:80 | `sep.join(parts)` starts with the first piece, followed by the separator when there is a second |
| `Discover.DottedIp` | custom_components/midea_lan/aiomart/discover.py:80 | empty exactly for an empty reply; for a reply of at least four bytes it is `str(r[3]) + "." + str(r[2]) + "." + str(r[1]) + "." + str(r[0])` |
| `Discover.DottedIpDeterminesBytes` | custom_components/midea_lan/aiomart/discover.py:80-81 | two replies with the same dotted IP string have the same first four bytes |
| `Discover.Framed` | custom_components/midea_lan/aiomart/discover.py:71 | a datagram is processed exactly when it has at least 104 bytes and bytes 0..1 or bytes 8..9 are both `0x5A` |
| `Discover.VersionOf` | custom_components/midea_lan/aiomart/discover.py:72-75 | the tag is `v2` exactly when bytes 0..1 are `5A5A`, `v3` exactly when they are `8370`, and absent otherwise |
| `Discover.Body` | custom_components/midea_lan/aiomart/discover.py:76-77 | with `5A5A` at offset 8 the body is `data[8:-16]`, otherwise the datagram itself; at least 80 bytes either way |
| `Discover.DeviceIdOf` | custom_components/midea_lan/aiomart/discover.py:78 | the id read from body bytes 20..25 is below 2^48 |
| `Discover.DecryptedReply` | custom_components/midea_lan/aiomart/discover.py:79 | the decrypted input is the body without its first 40 and last 16 bytes, which is at least 24 bytes, so the slice is never clamped |
| `Discover.ParseReply` | custom_components/midea_lan/aiomart/discover.py:80-88 | rejected without exception exactly when the dotted IP differs from the source; for a matching IP it raises for want of an SSID length exactly when the reply has ≤ 40 bytes (an SSID without `_` raises too); a matching-IP reply of more than 40 bytes is accepted exactly when its SSID slice holds `_`; an accepted record carries the source IP, the given version and id, a port below 2^32, at most 32 serial bytes, at most 255 SSID bytes, and as kind the second `_`-separated piece of the SSID |
| `Discover.Classify` | custom_components/midea_lan/aiomart/discover.py:71-88 | malformed exactly when shorter than 104 bytes or without `5A5A` at offset 0 or 8; an accepted reply was framed, carries the sender's address, the version tag, an id below 2^48 and a port below 2^32; a framed datagram is a mismatch exactly when the dotted IP of its decrypted reply differs from the sender's, and the mismatch names that IP; with a matching IP it raises for want of an SSID length on a reply of ≤ 40 bytes, and a longer one is accepted exactly when its SSID slice holds `_` |
| `Discover.AcceptedDeviceId` | custom_components/midea_lan/aiomart/discover.py:76-78 | an accepted record's id is the little-endian value of body bytes 20..25 |
| `Discover.AcceptedRecordFields` | custom_components/midea_lan/aiomart/discover.py:85-87 | an accepted reply has more than 40 bytes; port is the little-endian value of bytes 4..7, serial is bytes 8..39, SSID is the next `reply[40]` bytes from 41 as far as the reply goes |
| `Discover.AcceptedKind` | custom_components/midea_lan/aiomart/discover.py:88 | the kind lies between the SSID's first `_` and the next `_` or the end, and neither it nor the first piece holds `_` |
| `Discover.SameSourceSameAddressBytes` | custom_components/midea_lan/aiomart/discover.py:79-84 | two replies accepted from the same host decrypt to the same first four bytes |
| `Text.Split` | custom_components/midea_lan/aiomart/discover.py:88 | `split` gives at least one piece, none holding the separator, and more than one exactly when the separator occurs |
| `Text.JoinSplit` | custom_components/midea_lan/aiomart/discover.py:88 | joining the pieces of a split gives back the original |
| `Text.SplitJoin` | custom_components/midea_lan/aiomart/discover.py:80 | splitting separator-free pieces joined by the separator gives back the pieces |
| `Text.SecondPiece` | custom_components/midea_lan/aiomart/discover.py:88 | `s.split(sep)[1]` is exactly the text between the first separator and the next one or the end |
| `Discover.Listed` | custom_components/midea_lan/aiomart/discover.py:68 | the guard `addr[0] in found_devices` compares the host string with record dicts by equality, and it never holds |
| `Discover.DiscoverProtocol.constructor` | custom_components/midea_lan/aiomart/discover.py:48-55 | a new protocol has found no devices |
| `Discover.DiscoverProtocol.DatagramReceived` | custom_components/midea_lan/aiomart/discover.py:67-89 | the guard, then the verdict is `Classify` of the datagram; exactly one record, the accepted one, is appended at the end and earlier records are unchanged; otherwise `found_devices` is unchanged |
| `Discover.ParseDecrypted` | custom_components/midea_lan/aiomart/discover.py:80-89 | filling the record field by field, `bytes2port` included, gives `ParseReply` of the decrypted reply |
| `Discover.ReceiveTwice` | custom_components/midea_lan/aiomart/discover.py:67-89 | the same datagram twice gets the same verdict both times, and when accepted it is appended twice (no per-address deduplication) |

## Left out

- Socket and event-loop plumbing are not modelled: `Lan.request`, `broadcast`, `connection_made`, `wait`, `scan` and the `Device.setup` factory. This covers the connection, the 512-byte read, the two broadcasts, the timer and the future. The socket reply and the datagram are parameters instead.
- The `msmart` primitives are not modelled. These are `aes_decrypt`, `lan.decode`, `packet_builder` (and `finalize`), `base_command`, `set_command`, `appliance_response` and `update`. Each is a function value with no properties. The bytes of the outgoing frame are not modelled; the model states the command record handed to the packet builder. Exceptions raised inside these primitives are not modelled. The only failure modelled is the whole exchange raising (`TransportRaised`).
- The cipher round trip `decrypt(encrypt(x)) == x` is not modelled, because the cipher's source is not part of this model.
- UTF-8 decoding of `sn` and `ssid` is not modelled: they are kept as raw bytes. A `UnicodeDecodeError` is therefore not a possible outcome. Splitting the raw bytes at `0x5F` gives the same pieces as splitting the decoded string at `_`.
- The `print` on an address mismatch is not modelled (console output).
- The enums' `list()` helpers are not modelled. They list the member names of the base library's enums, for user interface use.
- Aiomart.FanSpeedReflectsValue: it covers integer values only. Python's `int.__new__` would also accept and truncate a float, while `str()` would then show the untruncated float.
- Aiomart.AC.Apply: "`updating` is true during the exchange" is stated only at the moment the command is sent, through a ghost out-parameter. Nothing runs concurrently with the call in this sequential model.
- Concurrency between overlapping `refresh`/`apply` calls on one device is not modelled.
- The Home Assistant entities (`climate.py`) and the integration setup (`__init__.py`) are not modelled: they are host glue outside the protocol core.
- The tables of the base library's `operational_mode_enum` and `swing_mode_enum`, which `get` consults, are not part of this model. They are taken to hold exactly the codes `AC` declares (1..5; 0x0, 0x3, 0xC, 0xF). `OperationalModeGet`, `SwingModeGet`, their lemmas and `UnknownCodesFallBack` rest on that assumption.
- The timer that ends a discovery round (`wait`, with `asyncio.sleep`) is not modelled. `DiscoverProtocol.timeout` is kept because the constructor stores it, but nothing in the model reads it.
