# Button queue and Wi-Fi bring-up of a T-Display-S3 firmware, in Dafny

This project models two parts of the hardware layer of an ESP32-S3 firmware:

- **The button registry and key-event queue** (`src/hardware/button.cpp`).
  The firmware keeps two process-wide vectors. One holds the registered buttons
  (`{pin, id, last_state}`); the other is a FIFO of key events
  (`{id, state, timestamp}`). `add` re-keys the button already on a pin, or
  appends a new released one. `remove` drops every button on a pin. `tick`
  presses every released button and queues one press event for each.
  `get_data` ticks first. It then hands out the front event once that event
  is more than 100 ms old, OR-ing in the ids of the run of same-state events
  right behind it and dropping that run from the queue.
  In `buttons.dfy` this is the class `Buttons.ButtonRegistry`, with one `seq`
  field per vector. Each method loops as the source does, and its `ensures`
  ties the new state to a specification function of the old state (`Added`,
  `Removed`, `Ticked`, `TickEvents`, `Coalesced`, `RunLength`). The lemmas
  next to it prove what those functions promise. The class invariant
  `Valid()` says two things: pins are unique, and every queued event is a
  press. The constructor sets it up and every method keeps it.
- **The Wi-Fi constructor and event handlers** (`src/hardware/wifi.cpp`).
  The mode (access point), SSID (`"RCLink"`) and password (`"0123456789"`)
  are compile-time constants. No retry counter, retry limit, fallback to
  access point, persisted configuration or setter exists anywhere in this
  code. A station disconnect always asks the driver to connect again, with
  no limit. In `wifi.dfy`, `Wifi.BuildSetup` computes what the constructor
  hands to the driver: the interface, the radio mode and the configuration
  record. The record's fixed-size character fields are modelled as
  zero-filled `seq<char>` written by `strcpy`. `Wifi.OnWifiEvent` and
  `Wifi.OnIpEvent` map one event to its ordered effects (log lines and
  connect requests).

`Wifi.DisconnectsRetriedUnboundedly` proves that `n` disconnects in a row
yield `n` connect requests, for every `n`.

## Model

| member | source | states |
|---|---|---|
| Buttons.FindPin | src/hardware/button.cpp:17-23 | The index it returns is the first button on `pin`. It returns `None` exactly when no button is on `pin`. |
| Buttons.ButtonRegistry.constructor | src/hardware/button.cpp:12-13 | Both vectors start empty, and the invariant holds (unique pins, presses only). |
| Buttons.ButtonRegistry.Add | src/hardware/button.cpp:15-26 | The new button list is `Added(old list, pin, id)`. The event queue is unchanged. The invariant is kept. |
| Buttons.AddedExisting | src/hardware/button.cpp:17-23 | If `pin` is registered and pins are unique, only that button's `id` changes. Its `last_state`, every other button and the length stay the same. |
| Buttons.AddedFresh | src/hardware/button.cpp:69-71 | If `pin` is not registered, exactly one button `{pin, id, last_state = false}` is appended at the end (line 25, with the constructor's initial state). |
| Buttons.AddedKeepsUniquePins | src/hardware/button.cpp:15-26 | `add` keeps "no two buttons share a pin", and afterwards `pin` is registered. |
| Buttons.ButtonRegistry.Remove | src/hardware/button.cpp:28-36 | The new button list is `Removed(old list, pin)`. The event queue is unchanged. The invariant is kept. |
| Buttons.RemovedConcat | src/hardware/button.cpp:35 | Removing distributes over concatenation, so the survivors keep their original relative order. |
| Buttons.RemovedContents | src/hardware/button.cpp:30-35 | A button survives exactly when it was in the list and is on a different pin. |
| Buttons.RemovedAbsent | src/hardware/button.cpp:28-36 | Removing an unregistered pin leaves the list unchanged. |
| Buttons.RemovedRegistered | src/hardware/button.cpp:28-36 | With unique pins, removing a registered pin cuts out exactly that one button: `bs[..k] + bs[k+1..]`. |
| Buttons.RemovedKeepsUniquePins | src/hardware/button.cpp:28-36 | `remove` keeps pins unique, and afterwards `pin` is no longer registered. |
| Buttons.RemoveUndoesAdd | src/hardware/button.cpp:15-36 | Removing a pin that was just added as new restores the original list. |
| Buttons.ButtonRegistry.Tick | src/hardware/button.cpp:38-47 | Every button becomes pressed (`Ticked`). The queue gets `TickEvents(old buttons, nowMs)` appended. The invariant is kept. |
| Buttons.TickedKeepsPins | src/hardware/button.cpp:40-43 | After a tick, every button keeps its pin and id and is pressed. Unique pins stay unique. |
| Buttons.TickEventsConcat | src/hardware/button.cpp:40-46 | The events follow list order: ticking `a + b` queues `a`'s events, then `b`'s. |
| Buttons.TickEventsShape | src/hardware/button.cpp:40-46 | Exactly one event per released button: the count equals the number of released buttons, each event is `{id of a released button, true, nowMs}`, and every released button's `{id, true, nowMs}` is queued. |
| Buttons.TickIdempotent | src/hardware/button.cpp:41-43 | A second tick with no add in between changes nothing and queues no event. |
| Buttons.SameStateRun | src/hardware/button.cpp:60-61 | The result is the length of the longest prefix whose events all have the given state. |
| Buttons.OrCovered | src/hardware/button.cpp:61 | A mask covers every bit of the OR of `a` and `b` exactly when it covers every bit of `a` and every bit of `b`. |
| Buttons.OrIdsCovers | src/hardware/button.cpp:60-61 | The accumulated id is the least bit set containing every id. A mask covers it exactly when the mask covers each id. |
| Buttons.RunIsMaximal | src/hardware/button.cpp:57-63 | The consumed prefix all has the front event's state. The first event left behind, if there is one, has the other state. |
| Buttons.CoalescedMeaning | src/hardware/button.cpp:58-61 | The handed-out event has the front's state and timestamp. Its id's bits lie within a mask exactly when the bits of every consumed id do. |
| Buttons.CoalescedHasEveryId | src/hardware/button.cpp:57-61 | Every event in the same-state run behind the front is consumed, and its id's bits are in the handed-out id. |
| Buttons.CoalescingDrainsPresses | src/hardware/button.cpp:41-63 | Since `tick` queues only presses, a ready queue is drained completely and a press is handed out. |
| Buttons.ButtonRegistry.GetData | src/hardware/button.cpp:49-67 | It ticks first. If the queue is empty or the front is at most 100 ms old, it returns `{0, false, 0}` and the ticked queue stays. Otherwise it returns `Coalesced` and keeps only the events after the run, in order. |
| Wifi.StrLen | src/hardware/wifi.cpp:136 | The result is the position of the first NUL, or the field length when there is none. |
| Wifi.CopyRoundTrip | src/hardware/wifi.cpp:135-136 | Reading back a zeroed field that `strcpy` filled gives the copied string, and `strlen` gives its length. |
| Wifi.BuildSetup | src/hardware/wifi.cpp:120-168 | The AP interface, `WIFI_MODE_AP`, `WIFI_IF_AP` and the AP half of the configuration are chosen exactly in access-point mode; otherwise the STA ones. The lemmas below state the field values. |
| Wifi.AccessPointFixedFields | src/hardware/wifi.cpp:135-138 | In access-point mode, the SSID field reads back as the SSID, `ssid_len` equals its length, `channel` is 1 and `max_connection` is 2. |
| Wifi.AccessPointAuthByPassword | src/hardware/wifi.cpp:140-152 | The auth mode is open exactly when the password is empty. Otherwise it is WPA3-PSK with `sae_pwe_h2e = BOTH` under SAE support, or WPA2-PSK without it. An empty password is not copied. |
| Wifi.AccessPointPmfRequired | src/hardware/wifi.cpp:154-157 | In access-point mode PMF is capable and required, whatever the password. |
| Wifi.StationCopiesCredentials | src/hardware/wifi.cpp:162-168 | In station mode, the SSID and password fields read back as the given credentials. No auth mode is set. |
| Wifi.ShippedSetup | src/hardware/wifi.cpp:19-23 | The compiled-in constants fit their fields. They give an access point on "RCLink" with `ssid_len` 6 and a password, so never an open network. |
| Wifi.OnWifiEvent | src/hardware/wifi.cpp:32-85 | `STA_START` and `STA_DISCONNECTED` yield exactly one connect request; a disconnect yields exactly its "retrying" log line followed by the connect request. Every other event yields none. |
| Wifi.OnIpEvent | src/hardware/wifi.cpp:87-113 | IP events never request a connect. Each known id yields one log line; unknown ids yield nothing. |
| Wifi.ConnectsMatchTriggers | src/hardware/wifi.cpp:64-80 | Over any event sequence, connect requests equal the number of starts plus disconnects. The handler keeps no history. |
| Wifi.DisconnectsRetriedUnboundedly | src/hardware/wifi.cpp:64-72 | `n` disconnects in a row yield `n` connect requests, for every `n`. There is no retry limit. |

## Left out

- ESP-IDF plumbing in `wifi.cpp` is not modelled. This covers `esp_netif_init`, the default event loop, `esp_wifi_init`, handler registration, `esp_wifi_start`, the destructor's teardown, and `ESP_ERROR_CHECK` aborting on a driver error. These are driver calls; the model keeps only the decisions passed to them (`Setup`).
- The station half of the configuration record models only the SSID and password. Its other fields stay zero in the source, and the model omits them.
- SSIDs and passwords are ASCII strings, one character per byte of the driver's `uint8_t` fields. Non-ASCII strings, whose UTF-8 encoding takes several bytes per character, are not modelled. The firmware's compiled-in strings are ASCII.
- Event ids are abstract constructors, not the driver's numeric ids. The handlers ignore the event base. Log text formatting (`MACSTR`, `IPSTR`) is reduced to a log effect that carries its payload.
- The lazy singleton `wifi::get()` in `include/hardware/wifi.h` is global-instance plumbing.
- `display.cpp`, `storage.cpp`, `battery.cpp`, `main.cpp` and the USB mass-storage application are not part of this model. They are thin wrappers over the LCD, LittleFS, TinyUSB and LVGL libraries.
- `include/hardware/button.h` is not part of this model. Field types are taken from `button.cpp`: pin `uint8_t`, id `uint32_t` (`bv32`, so `|=` is bitwise OR), and a millisecond timestamp as an unbounded `int`. A 64-bit count of milliseconds since boot does not overflow.
- Buttons.ButtonRegistry.Tick: reads the clock once per call (`nowMs`), while the source reads `esp_timer_get_time()` once per queued event. All events queued by one tick therefore carry the same timestamp.
- Buttons.ButtonRegistry.GetData: uses the same `nowMs` for its tick and for the age check. The source reads the clock again, microseconds later.
- Buttons.ButtonRegistry.Remove: builds the surviving list as a new sequence, where `std::remove_if` compacts the vector in place. The resulting contents and order are the same.
- Concurrency is not modelled. The Wi-Fi handlers run on the driver's event task, and the button vectors are unsynchronised statics; both are modelled sequentially.
- The GPIO reads are commented out in the source (`digitalRead`, `pinMode`), so the model has none either. A button is pressed once by `tick` and is never released.
