# IQOS BLE telemetry: a Dafny model

This project models the core of a Home Assistant integration for an IQOS
charging case that is reached over Bluetooth Low Energy. The device object
(`IQOSBLE`) keeps a byte buffer of the notifications the case sends. It searches
that buffer for one telemetry frame with a regular expression and decodes the
frame into a frozen `IQOSBLEState` (case battery, pen discharged, lid open). It
then tells its registered state callbacks. The object also keeps
two ordered callback registries, the client handle, the "expected disconnect"
flag that decides whether a link loss leads to a reconnect, and the identity
accessors `name` and `rssi`. Two small address helpers from the config flow
(`format_unique_id`, `short_address`) complete the core.

Files:

- `wrappers.dfy`: `Option`, `Outcome` and `Result`, used for Python's `None` and for raised exceptions.
- `models.dfy`: `IqosBleState` and its defaults.
- `frame.dfy`: the frame grammar. Each regex group is a matcher (`StartAt`, `DotsAt`,
  `OptionalDotAt`), and `FrameAt` is their concatenation. `FrameAt` is proved equal to a
  flat reference predicate `MatchAt`. `Search` is the leftmost match that `re.search`
  reports, and the grammar lemmas are proved on top of it.
- `iqos_ble.dfy`: `Intify` and its inverse, `DecodeState`, `RemoveFirst` (`list.remove`)
  and the class `IqosBle`, which has the source's fields. The file ends with client methods
  that state concrete scenarios, proved through the class contracts.
- `config_flow.dfy`: `FormatUniqueId`, `Split` and `ShortAddress`.

The Bluetooth transport is not modelled. What the code learns from it enters the
methods as parameters: whether the current client reports `is_connected`, and
whether `establish_connection` and `start_notify` return or raise. So every
answer the transport could give is covered. Callbacks are opaque `CallbackId`s.
Firing them returns the list of calls made, in order, each with its argument.

The byte pattern has no flags, so `.` matches any byte except `0x0A`. A match
at offset `i` needs `buf[i]` to be `0x07` or `0x0F`, `buf[i+1] == 0x00`,
`i + 6 <= |buf|`, and no `0x0A` among `buf[i+2..i+6]`. The pen group takes
`buf[i+6]` when that byte exists and is not `0x0A`. `re.search` reports the
smallest such `i`.

## Model

| member | source | states |
|---|---|---|
| `Models.DefaultState` | custom_components/iqos/api/models.py:6-10 | the default state has case battery 0, pen discharged true and the lid closed |
| `Frame.DotsAt` | custom_components/iqos/api/const.py:17-18 | `n` dot atoms match at `i` iff `n` bytes remain and none of them is 0x0A; the match ends at `i + n` |
| `Frame.FrameAt` | custom_components/iqos/api/const.py:16-21 | the four groups in sequence match at `i` iff the flat predicate `MatchAt` holds; the marker is `buf[i]`, the case group is `[buf[i+2]]`, the unknown group is `buf[i+3..i+6]`, the pen group is `[buf[i+6]]` exactly when that byte exists and is not 0x0A (else empty), and the end is `i + 6 + |pen|` |
| `Frame.MatchBeginsWithMarker` | custom_components/iqos/api/const.py:16 | every match starts with 0x07 or 0x0F followed by 0x00 |
| `Frame.FixedGroupWidths` | custom_components/iqos/api/const.py:17-19 | exactly one case-battery byte and three unknown bytes; the pen group has at most one |
| `Frame.SpanIsSixOrSeven` | custom_components/iqos/api/const.py:21 | a matched span is 6 or 7 bytes long and lies inside the buffer |
| `Frame.PenGroupIsGreedy` | custom_components/iqos/api/const.py:19 | a byte after the unknown group is always taken unless it is 0x0A |
| `Frame.NewlineInFixedGroupsBlocks` | custom_components/iqos/api/const.py:17-18 | a 0x0A in a case-battery or unknown position means no match at that offset |
| `Frame.NewlinePenByteIsEmptyGroup` | custom_components/iqos/api/const.py:19 | a 0x0A in the pen position leaves the pen group empty and the span 6 bytes long |
| `Frame.MatchReencodes` | custom_components/iqos/api/const.py:16-21 | a match is a well-formed frame, and its groups re-encode to exactly the bytes it consumed |
| `Frame.EncodedFrameDecodes` | custom_components/iqos/api/const.py:16-21 | every well-formed frame, encoded and followed by any bytes the pen group will not take, decodes back to itself |
| `Frame.SearchFrom` | custom_components/iqos/api/iqos_ble.py:199 | the result is the match at the first offset at or after `i` where the pattern matches, or none when there is no such offset |
| `Frame.Search` | custom_components/iqos/api/iqos_ble.py:199 | no result iff the pattern matches nowhere; otherwise the match at the smallest matching offset |
| `Frame.SearchFindsFrame` | custom_components/iqos/api/iqos_ble.py:199-201 | a found match is a well-formed frame inside the buffer and its groups re-encode to the bytes of its span |
| `Frame.SearchSkipsJunk` | custom_components/iqos/api/iqos_ble.py:199-201 | bytes before a frame that hold no start byte move the match by their length but change none of its groups: the marker, the case-battery, unknown and pen-battery bytes and the span length are those of the frame alone |
| `IqosBle.Intify` | custom_components/iqos/api/iqos_ble.py:191-192 | the value is below 256^length, is 0 for no bytes and is the byte itself for one byte |
| `IqosBle.IntifyToLittleEndian` | custom_components/iqos/api/iqos_ble.py:191-192 | every integer below 256^width is recovered by `Intify` from its little-endian encoding |
| `IqosBle.ToLittleEndianIntify` | custom_components/iqos/api/iqos_ble.py:191-192 | every byte string is recovered by encoding the integer `Intify` gives it |
| `IqosBle.IntifyConcat` | custom_components/iqos/api/iqos_ble.py:191-192 | little-endian order: the later bytes weigh 256^(length of the earlier bytes) more |
| `IqosBle.DecodeState` | custom_components/iqos/api/iqos_ble.py:202-211 | case battery is the byte after the marker, in 0..255; open iff the pen group is empty; pen discharged is none iff open, otherwise it is whether the pen byte is 0 |
| `IqosBle.DefaultStateConsistent` | custom_components/iqos/api/iqos_ble.py:51 | the initial state satisfies the same invariant as every decoded state |
| `IqosBle.FirstIndex` | custom_components/iqos/api/iqos_ble.py:122 | the index of the first entry equal to `x`: that entry is `x` and no earlier one is |
| `IqosBle.RemoveFirstSplices` | custom_components/iqos/api/iqos_ble.py:122 | `list.remove` drops exactly the entry at the first index of `x` and keeps the others in order |
| `IqosBle.RemoveFirstMultiset` | custom_components/iqos/api/iqos_ble.py:122 | `list.remove` takes one copy of `x` out of the entries and shortens the list by one |
| `IqosBle.RemoveFirstAbsent` | custom_components/iqos/api/iqos_ble.py:138 | removing an absent entry leaves the list as it was |
| `IqosBle.RemoveFirstKeepsDuplicate` | custom_components/iqos/api/iqos_ble.py:121-124 | with two registrations of a callback, one survives one unregistration |
| `IqosBle.RegisterThenUnregister` | custom_components/iqos/api/iqos_ble.py:116-125 | append and then remove gives back the old list when the callback was new; otherwise the earliest copy goes and the new one stays at the end |
| `IqosBle.IqosBle.constructor` | custom_components/iqos/api/iqos_ble.py:44-58 | the default state, no client, the flag false, empty registries and an empty buffer |
| `IqosBle.IqosBle.SetBleDeviceAndAdvertisementData` | custom_components/iqos/api/iqos_ble.py:60-65 | replaces the device and the advertisement and nothing else |
| `IqosBle.IqosBle.Name` | custom_components/iqos/api/iqos_ble.py:77-80 | the device name when present and non-empty, otherwise the address |
| `IqosBle.IqosBle.Rssi` | custom_components/iqos/api/iqos_ble.py:82-87 | none exactly when there is no advertisement data, otherwise its rssi |
| `IqosBle.IqosBle.CaseBattery` | custom_components/iqos/api/iqos_ble.py:98-100 | the case battery of the held state, always in 0..255 |
| `IqosBle.IqosBle.PenDischarged` | custom_components/iqos/api/iqos_ble.py:94-96 | none exactly when the held state says open |
| `IqosBle.IqosBle.IsOpen` | custom_components/iqos/api/iqos_ble.py:102-104 | open exactly when pen discharged is unknown |
| `IqosBle.IqosBle.FireCallbacks` | custom_components/iqos/api/iqos_ble.py:111-114 | one call per registration, in registration order, each given the current state |
| `IqosBle.IqosBle.RegisterCallback` | custom_components/iqos/api/iqos_ble.py:116-125 | appends the callback (duplicates kept), changes nothing else, returns its unregister handle |
| `IqosBle.IqosBle.FireDisconnectedCallbacks` | custom_components/iqos/api/iqos_ble.py:127-130 | calls every disconnect callback once per registration, in order |
| `IqosBle.IqosBle.RegisterDisconnectedCallback` | custom_components/iqos/api/iqos_ble.py:132-141 | appends the disconnect callback, changes nothing else, returns its unregister handle |
| `IqosBle.IqosBle.Unregister` | custom_components/iqos/api/iqos_ble.py:121-138 | removes the first equal entry from the right list only; raises `ValueError` and changes nothing when the entry is absent |
| `IqosBle.IqosBle.NotificationHandler` | custom_components/iqos/api/iqos_ble.py:194-213 | with no match in old buffer + data, the buffer becomes exactly that, the state is unchanged and no callback fires; with a match, the buffer becomes the suffix after the leftmost match, the state is replaced by the decoded one, then every callback is called in order with the new state; the invariant on the state is kept |
| `IqosBle.IqosBle.EnsureConnected` | custom_components/iqos/api/iqos_ble.py:151-176 | no connect attempt iff a client exists and reports connected; otherwise the new client is kept, or the error propagates and the client is unchanged; the flag is untouched |
| `IqosBle.IqosBle.Initialise` | custom_components/iqos/api/iqos_ble.py:143-149 | connects as above, then subscribes on the client if one exists; a connect or subscribe error propagates; on success the client subscribed on is the current client |
| `IqosBle.IqosBle.ExecuteDisconnect` | custom_components/iqos/api/iqos_ble.py:250-258 | afterwards the client is none and the flag is true; the old client is torn down iff it existed and reported connected |
| `IqosBle.IqosBle.Stop` | custom_components/iqos/api/iqos_ble.py:106-109 | an expected disconnect, as above |
| `IqosBle.IqosBle.Disconnected` | custom_components/iqos/api/iqos_ble.py:223-236 | fires every disconnect callback in order, then asks for a reconnect iff the flag is false; changes no field |
| `IqosBle.StopSuppressesReconnect` | custom_components/iqos/api/iqos_ble.py:226-230 | after `Stop`, then `Initialise`, `RegisterDisconnectedCallback`, one `NotificationHandler` and `Unregister`, a link loss does not ask for a reconnect |
| `IqosBle.StopSuppressesEveryReconnect` | custom_components/iqos/api/iqos_ble.py:223-236 | after `Stop`, any run of calls to the class's state-changing methods leaves the flag set, and every link loss in the run answers that no reconnect is wanted (one answer per loss) |
| `IqosBle.UnexpectedLossReconnects` | custom_components/iqos/api/iqos_ble.py:223-236 | a link loss on a fresh connected device calls the disconnect callbacks in order and asks for a reconnect |
| `IqosBle.OneFramePerNotification` | custom_components/iqos/api/iqos_ble.py:198-213 | two frames in one notification: only the first is decoded and the second stays in the buffer |
| `IqosBle.SplitDeliveryDiffers` | custom_components/iqos/api/iqos_ble.py:198-211 | `0F 00 32 00 00 00 01` in one notification decodes as closed with the pen charged; sent as six bytes and then one, it decodes as open with pen unknown, and the `01` stays in the buffer |
| `ConfigFlow.RemoveChar` | custom_components/iqos/config_flow.py:25 | `replace(c, "")` leaves no `c`, is shorter by the count of `c`, and adds no character |
| `ConfigFlow.FormatUniqueId` | custom_components/iqos/config_flow.py:23-25 | the output has no `:` and its length is the input's minus its colon count |
| `ConfigFlow.FormatUniqueIdOneChar` | custom_components/iqos/config_flow.py:25 | on one character: a colon gives nothing, any other character is lower-cased |
| `ConfigFlow.FormatUniqueIdConcat` | custom_components/iqos/config_flow.py:25 | the result on a concatenation is the concatenation of the results, so characters keep their order |
| `ConfigFlow.FormatUniqueIdIdempotent` | custom_components/iqos/config_flow.py:25 | applying it twice is the same as once |
| `ConfigFlow.Split` | custom_components/iqos/config_flow.py:30 | `str.split`: one more piece than separators, no piece holds the separator, and pieces hold only input characters |
| `ConfigFlow.SplitConcat` | custom_components/iqos/config_flow.py:30 | splitting `a + sep + b` gives the pieces of `a` followed by the pieces of `b` |
| `ConfigFlow.SplitWithoutSeparator` | custom_components/iqos/config_flow.py:30 | a string without the separator splits into itself |
| `ConfigFlow.ShortAddress` | custom_components/iqos/config_flow.py:28-31 | fails with `IndexError` iff the address has neither `:` nor `-`; otherwise the result has at most 4 characters and no `:` or `-` |
| `ConfigFlow.ShortAddressLastTwoPieces` | custom_components/iqos/config_flow.py:30-31 | for an address with at least two separators whose last two pieces (between the last two separators, and after the last one) are exactly `x` and `y`, the result is the last four characters of upper(`x`) + upper(`y`) |
| `ConfigFlow.ShortAddressTwoPieces` | custom_components/iqos/config_flow.py:30-31 | for an address with exactly one separator, whose two pieces are exactly `x` and `y`, the result is the last four characters of upper(`x`) + upper(`y`), e.g. `AB:CD` gives `ABCD` |
| `ConfigFlow.ShortAddressSeparatorsAlike` | custom_components/iqos/config_flow.py:30 | addresses that differ only by swapping `-` and `:` give the same result |
| `ConfigFlow.ShortAddressColonExample` | custom_components/iqos/config_flow.py:30-31 | `AA:BB:CC:DD:EE:FF` gives `EEFF` |
| `ConfigFlow.ShortAddressDashExample` | custom_components/iqos/config_flow.py:30-31 | `aa-bb-cc-dd-ee-ff` gives `EEFF` |
| `ConfigFlow.ShortAddressWithoutSeparatorFails` | custom_components/iqos/config_flow.py:30-31 | an address with no separator raises `IndexError` |

## Left out

- The asyncio locks and their double-checked locking are left out, and so is the "one connect attempt" guarantee under concurrent callers. The model is sequential: one operation runs at a time, so the second check under the lock always gives the same answer as the first.
- `_reconnect`, with its backoff `sleep` and the `create_task` that schedules it again, is left out because it is scheduling. `Disconnected` returns the decision to schedule a reconnect (`reconnect`) instead of starting the task.
- `_disconnect` and `_execute_timed_disconnect` are left out. They only schedule `_execute_disconnect` (`ExecuteDisconnect`) on a task.
- The Bleak calls (`establish_connection`, `is_connected`, `start_notify`, `stop_notify`, `disconnect`) are foreign code. Their answers are method parameters.
- `ExecuteDisconnect` does not model an exception raised by `stop_notify` or `disconnect`. The source changes both fields before those calls, so such an exception would leave the same state.
- `IqosBle.IqosBle.Initialise` cannot show the `_client is None` branch of its guard in a sequential run. A successful `EnsureConnected` always leaves a client. The guard only matters when another task disconnects concurrently.
- Callbacks are opaque identifiers. They are assumed not to call back into the device, so a callback that unregisters itself while the list is being iterated is not modelled.
- `IqosBle.IqosBle.FireCallbacks`, `IqosBle.IqosBle.FireDisconnectedCallbacks`, `IqosBle.IqosBle.NotificationHandler` and `IqosBle.IqosBle.Disconnected` assume every callback returns normally. In the source a callback that raises stops the loop, so the later callbacks are not called. A raising state callback also propagates out of `_notification_handler` after the buffer and state were already replaced. A raising disconnect callback leaves `_disconnected` before the reconnect decision, so no reconnect is scheduled. The model always reports every registration in `calls`, and `reconnect` depends only on the flag.
- Logging is left out.
- The `address`, `_address` and `state` properties only return a field. The model reads those fields directly.
- The Home Assistant glue is outside the model: the sensor and binary sensor entities, the integration's own `models.py` container, the package `__init__` re-exports, and the `IqosConfigFlow` steps.
- `CHARACTERISTIC_NOTIFY` is only passed to the transport, so it is not modelled.
- `ConfigFlow.FormatUniqueId` and `ConfigFlow.ShortAddress` do not model Python's full Unicode `lower()` and `upper()`. Only ASCII letters change case here. Every non-ASCII character is left unchanged, although Python changes the case of any cased one (for example `'É'.lower()`).

## Behaviour worth knowing

- A frame split across notifications does not always decode as it would in one piece; this is
  sometimes expected of the decoder, but the code does not do it. A 6-byte prefix already
  matches with an empty pen group. `SplitDeliveryDiffers` shows the input. The grammar itself
  cannot tell a 6-byte frame from the start of a 7-byte one, so there is no evident correction.
- At most one frame is decoded per notification (`OneFramePerNotification`). Junk before a
  frame is discarded when the frame is matched (`SearchSkipsJunk`, `NotificationHandler`).
  Bytes that never form a frame stay in the buffer.
