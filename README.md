# obs-lv2 worker channel and UI port mirror, in Dafny

This project models two parts of the obs-lv2 audio-plugin host.

**The LV2 worker (worker.cpp).**
- An `LV2Worker` owns two byte rings: `work_ring` carries requests from the audio thread to the worker thread, and `response_ring` carries responses back.
- Every access to either ring goes through two framing helpers. `try_enqueue` writes a 4-byte `uint32_t` length and then the payload, but only if the whole frame fits. `try_dequeue` is meant to take one frame off.
- These helpers have four users: `schedule_work` (audio side), `respond` (worker side), `run` (it is meant to drain every response into the plugin's `work_response` and then calls the optional `end_run`), and the loop in `process` (each pass hands one request to the plugin's `work`).
- The rings come from the zix library, whose code is not part of this model. They are modelled as bounded byte queues: the unread bytes in order, plus a usable capacity of at most 4096. Read space and write space always add up to that capacity.
- On top of the bytes, the model decodes frames. The worker's invariant is that each ring holds whole frames and nothing else. The lemmas show that under this invariant each ring is a FIFO of payloads.

**The UI port mirror (ui.cpp).**
- `LV2Plugin` keeps an array of ports. Each port records its type, its direction, the value the plugin sees, the value last sent to the UI, and its LV2 port index.
- `suil_write_from_ui` stores a value that the UI writes.
- `prepare_ui` sends every control port to a newly created UI.
- `notify_ui_output_control_ports` resends only the output control ports whose values changed since they were last sent.
- Each `suil_instance_port_event` call is appended to an event log. UI instance, window and visibility are boolean fields.

Files:
- `framing.dfy` (module `Framing`): the length prefix, one frame, and a ring's bytes seen as a sequence of frames.
- `ring.dfy` (module `Rings`): the abstract byte ring.
- `worker.dfy` (module `Worker`): `try_enqueue` as a function, the two helpers as methods, the `LV2Worker` class, the as-written `try_enqueue` as a whole, and, of the as-written `try_dequeue`, its emptiness test and its two reads (see Findings).
- `ui.dfy` (module `PluginUi`): the port table passes as functions with their lemmas, and the `LV2Plugin` class.

The model follows the code where the code's intent is clear. `try_dequeue` is meant to succeed exactly when a complete frame is present and to hand the caller the frame's length. The code fails at both (see Findings). `try_enqueue` is meant to accept every frame that fits, the empty one included, yet its asserts abort on an empty payload (see Findings). `TryEnqueue` and `TryDequeue` model the intended behaviour, and the rest of the model uses them. The code never checks that a dequeue buffer is large enough for the frame it receives. The model instead proves that no frame is ever larger than a ring: `TryDequeue` ensures `PrefixSize + size <= RingSize`. So the 4096-entry buffers at worker.cpp:56 and :93 always suffice.

## Model

| member | source | states |
|---|---|---|
| `Framing.DecodeLength` | worker.cpp:39 | The `uint32_t` read into `size` from the 4 prefix bytes is below 2^32. `Framing.EncodeLength` and `Framing.EncodeDecodeLength` show it is the inverse of the prefix encoding. |
| `Framing.EncodeLength` | worker.cpp:49 | The length prefix is 4 bytes and decodes back to the length it was made from. |
| `Framing.EncodeDecodeLength` | worker.cpp:39 | Four prefix bytes are exactly the encoding of the length they decode to. |
| `Framing.EncodeFrame` | worker.cpp:49-50 | A frame is 4 + size bytes, and the payload follows the prefix. |
| `Framing.DecodeFrame` | worker.cpp:39-40 | A decoded frame is exactly a prefix, that many payload bytes, and the untouched rest. |
| `Framing.DecodeEncodeFrame` | worker.cpp:35-53 | Round trip: the frame enqueued for a payload decodes as that payload, with the same length and bytes, whatever follows it. |
| `Framing.DecodeFrameAppend` | worker.cpp:49-50 | Bytes written behind a complete frame do not change how that frame reads. |
| `Framing.DecodeEncodeAll` | worker.cpp:35-53 | FIFO: frames enqueued in order decode in the same order, identical in length and bytes. |
| `Framing.EncodeDecodeAll` | worker.cpp:35-53 | Framed bytes are exactly the encoding of the frames they decode to. The frame view loses nothing. |
| `Framing.DecodeAllAppend` | worker.cpp:45-53 | Appending a frame to framed bytes appends its payload to the frame sequence. |
| `Framing.FramedFront` | worker.cpp:36-42 | In framed bytes, a complete frame is present iff the ring is non-empty. Removing that frame leaves framed bytes holding the remaining frames. |
| `Framing.FramesFit` | worker.cpp:56 | Every frame, prefix included, fits within the bytes that hold it, so it never exceeds the ring. |
| `Rings.Ring.constructor` | worker.cpp:25-26 | A new ring is empty and its usable capacity is at most 4096. |
| `Rings.Ring.ReadSpace` | worker.cpp:36 | The read space is zero exactly when the ring holds no bytes. |
| `Rings.Ring.WriteSpace` | worker.cpp:46 | Write space plus read space equals the usable capacity. |
| `Rings.Ring.Write` | worker.cpp:49-50 | A write appends all the bytes and reports their count when they fit. Otherwise it writes nothing and reports 0. |
| `Rings.Ring.Read` | worker.cpp:39-40 | A read removes and returns the oldest n bytes when that many are there. Otherwise it reads nothing and reports 0. |
| `Worker.Enqueue` | worker.cpp:45-53 | Accepted iff write space >= 4 + size. A rejection leaves the ring unchanged (no partial write). A payload with 4 + size above the capacity is rejected whatever the ring holds. On success the old bytes are followed by the prefix and the payload, and write space drops by 4 + size. |
| `Worker.EnqueueFrames` | worker.cpp:45-53 | As frames, an accepted enqueue appends the payload and a rejected one changes nothing. |
| `Worker.EnqueueEachFrames` | worker.cpp:116-125 | After several enqueues in a row, the ring holds the old frames followed by exactly the accepted payloads, in the order they were offered. |
| `Worker.StatusOf` | worker.cpp:109-112 | The status `schedule_work` returns (and `respond`, at worker.cpp:120-123) is `LV2_WORKER_SUCCESS` iff the enqueue was accepted, and `LV2_WORKER_ERR_NO_SPACE` iff it was not. |
| `Worker.Statuses` | worker.cpp:121-124 | Each status is `LV2_WORKER_SUCCESS` iff that enqueue was accepted, and `LV2_WORKER_ERR_NO_SPACE` otherwise. |
| `Worker.TryEnqueue` | worker.cpp:45-53 | Its result and the ring's new bytes are those of `Worker.Enqueue`. Once the space check has passed, both writes store every byte they are given, so a frame with an empty payload is accepted too. |
| `Worker.TryDequeue` | worker.cpp:35-43 | It finds a frame iff a complete frame is present, and otherwise consumes nothing. If found, it removes exactly that one frame, returns its length and bytes, leaves the remaining frames in order, and the frame fits a 4096-byte buffer. |
| `Worker.LV2Worker.constructor` | worker.cpp:23-27 | Both rings are new, distinct, empty and hold no frames. |
| `Worker.LV2Worker.Start` | worker.cpp:76-80 | Installs the plugin interface. Records whether it has an `end_run` hook. Calls nothing. |
| `Worker.LV2Worker.ScheduleWork` | worker.cpp:105-114 | Returns Success iff the request was enqueued on the work ring, and then it is the newest request. Otherwise returns ErrNoSpace and the requests are unchanged. The response ring is untouched. |
| `Worker.LV2Worker.Respond` | worker.cpp:116-125 | Returns Success iff the response was enqueued on the response ring, and then it is the newest response. Otherwise returns ErrNoSpace. The work ring is untouched. |
| `Worker.LV2Worker.Run` | worker.cpp:91-102 | Calls `work_response` once per pending response, in FIFO order, until the response ring is empty. Then calls `end_run` exactly once if the plugin has it, even with zero responses. The work ring is unchanged. |
| `Worker.LV2Worker.HandOverResponse` | worker.cpp:96-98 | One pass of `run`'s loop finds a response iff one is pending. It then removes exactly the oldest response and calls `work_response` once with it. Otherwise the response ring is empty and nothing is called. The work ring is unchanged. |
| `Worker.LV2Worker.ProcessStep` | worker.cpp:62-68 | With no request pending, nothing changes. Otherwise it removes exactly the oldest request, calls `work` once with it, and puts the emitted responses only on the response ring, each with its status. |
| `Worker.LV2Worker.EmitResponses` | worker.cpp:66-68 | The responses `work` emits go through `respond` one at a time, in order. The final ring and each returned status match that sequence of enqueues. |
| `Worker.SourceDequeueProceeds` | worker.cpp:36-37 | The as-written test: `try_dequeue` goes on to read exactly when the read space is zero. It has no contract of its own. `Worker.SourceDequeueNeverDelivers` states what it means for frames. |
| `Worker.SourceAssertPasses` | worker.cpp:39-40 | The truth test of the asserts around the ring reads, and of those at lines 49-50 around the writes: the returned byte count is non-zero. It has no contract of its own. `Worker.SourceEnqueue` and `Worker.SourceDequeueNeverDelivers` use it. |
| `Worker.SourceDequeueNeverDelivers` | worker.cpp:36-40 | As written, `try_dequeue` refuses every ring holding a frame. It goes on to read iff the ring is empty, where the first read returns 0 and its assert fails. |
| `Worker.SourceDequeueStrandsRequest` | worker.cpp:36-37 | A 2-byte request scheduled on an empty work ring is a complete frame, yet the as-written test refuses it. |
| `Worker.SourceEnqueue` | worker.cpp:45-53 | As written, `try_enqueue` rejects exactly the frames the intended one rejects, aborts exactly on an accepted empty payload, and otherwise stores the same bytes. |
| `Worker.SourceEnqueueAbortsOnEmptyPayload` | worker.cpp:50 | An empty payload on an empty work ring fits and is stored as a bare prefix by the intended `try_enqueue`, but as written the second write's assert aborts. |
| `Worker.SourceReadFrame` | worker.cpp:35-40 | As written, the caller's size keeps its old value while the payload is read in full. |
| `Worker.SourceLosesFrameLength` | worker.cpp:57 | For a 2-byte request and the callers' initial size 0, the size handed to `work` stays 0. |
| `PluginUi.SyncWhere` | ui.cpp:177-193 | A pass over the port table marks each picked port as sent (its ui_value equals its value) and leaves every other port, and every port's value, type, direction and index, unchanged. |
| `PluginUi.EventsWhere` | ui.cpp:122-135 | The events a pass over the port table sends, one `suil_instance_port_event` per picked port in table order (the loops at ui.cpp:122-135 and 177-193). Every event carries `sizeof(float)` and the float protocol. |
| `PluginUi.Positions` | ui.cpp:177-193 | Lists, in strictly ascending order, the table positions of exactly the picked ports. |
| `PluginUi.EventsAtPositions` | ui.cpp:180-192 | A pass emits exactly one event per picked port, in ascending table order, each with that port's index, `sizeof(float)`, the float protocol and its value. |
| `PluginUi.EventsWhereEmpty` | ui.cpp:180-192 | A pass emits no event iff no port is picked. |
| `PluginUi.NotifyIdempotent` | ui.cpp:177-193 | After a notify, every output control port has ui_value == value. A second notify with no value changed sends nothing and changes nothing. |
| `PluginUi.PrepareLeavesNothingStale` | ui.cpp:122-135 | After prepare_ui's pass, every control port, input or output, has ui_value == value, so the next notify sends nothing. |
| `PluginUi.LV2Plugin.IsUiVisible` | ui.cpp:150-156 | Never visible without a window. With a window, it is the window's visibility. |
| `PluginUi.LV2Plugin.WriteFromUi` | ui.cpp:61-75 | A write with any protocol other than float, or any size other than `sizeof(float)`, changes nothing. Otherwise it sets only that port's value. Every ui_value and every other port stays. |
| `PluginUi.LV2Plugin.PrepareUi` | ui.cpp:85-135 | Returns with nothing changed without a plugin instance or URI, or when a UI instance exists. Otherwise it creates the instance (and a hidden window if none exists), syncs every control port, and emits one event per control port in table order. |
| `PluginUi.LV2Plugin.CleanupUi` | ui.cpp:158-170 | Always ends with no UI instance. A visible window with a UI instance is hidden. |
| `PluginUi.LV2Plugin.NotifyUiOutputControlPorts` | ui.cpp:172-194 | Changes nothing and emits nothing without a UI instance, without a window, or when not visible. Otherwise it syncs exactly the output control ports whose ui_value differed and emits one event for each, in table order. Values, input ports and non-control ports stay. |

## Findings

| source | as written | input that shows it | evidently intended | confidence | as-written member | corrected member |
|---|---|---|---|---|---|---|
| worker.cpp:36-37 | `try_dequeue` gives up whenever the ring's read space is non-zero, so it goes on to read only from an empty ring. There the first read fails. | `schedule_work` of the 2-byte request [0x01, 0x02] on an empty work ring: the ring then holds one complete frame, which `process` never picks up. | Give up only when no complete frame is present. | high; not executed | `Worker.SourceDequeueStrandsRequest` (with `Worker.SourceDequeueNeverDelivers`) | `Worker.TryDequeue` |
| worker.cpp:49-50 | The asserts test the count that `zix_ring_write` returns for being non-zero. For an empty payload that count is 0, so a build with asserts aborts although the frame fits. Once the test at line 36 is corrected, reading an empty frame would abort at line 40 likewise. | `schedule_work` of an empty request on an empty work ring. | Accept and deliver the empty frame: the asserts were meant to check that all bytes were transferred. | medium; not executed | `Worker.SourceEnqueueAbortsOnEmptyPayload` (with `Worker.SourceEnqueue`) | `Worker.TryEnqueue`, `Worker.TryDequeue` |
| worker.cpp:35, 57, 63, 94-97 | `try_dequeue` receives `size` by value. The length prefix it reads never reaches the caller, whose `size` stays 0, so `work` and `work_response` are told the payload is 0 bytes long. | A frame holding [0x01, 0x02], read with the callers' initial size 0. | Return the frame's length to the caller. | high; not executed | `Worker.SourceLosesFrameLength` (with `Worker.SourceReadFrame`) | `Worker.TryDequeue` |

## Left out

- Threads and cancellation: `pthread_create`, `pthread_cancel` in `stop`, and the busy-waiting `while (!canceled)` loop of `process`. The model is single-threaded. One pass of that loop is `ProcessStep`, and `Start` only installs the plugin interface.
- The zix ring's internals: the backing buffer, its cursors, the wraparound split into two copies, and how the size given to `zix_ring_new` is rounded. Each ring is a byte sequence whose usable capacity is a constructor parameter of at most 4096. `zix_ring_free` in the destructor is not modelled.
- The plugin's callbacks `work`, `work_response` and `end_run` are foreign code. Each call is appended to `calls`. The responses `work` hands to `respond` are the `emitted` parameter of `ProcessStep`. The plugin instance handle passed to each callback is not recorded, and the statuses the callbacks return are ignored, as in the source.
- `Worker.TryDequeue`: in the model each enqueue writes its prefix and payload in one step, because the model is single-threaded. Only under that assumption does a non-empty ring always hold a complete frame. With `schedule_work` running on the audio thread beside `process`, the worker thread can see the prefix before the payload is written. A test for a complete frame would then be needed, and the model does not cover that interleaving.
- The asserts around the ring reads and writes: their side effects are taken as always executed. Builds with NDEBUG, where these reads and writes disappear, are not modelled.
- The dequeue buffers `void *data[OBS_LV2_RING_SIZE]`: dequeued payloads are returned as sequences. `TryDequeue` proves every frame fits a 4096-byte buffer.
- 32-bit `size_t` overflow of `sizeof(size) + size`: sizes are mathematical integers. With a capacity of at most 4096, every payload that is not rejected fits a `uint32_t`.
- The byte order of the copied `uint32_t` length: taken to be little-endian.
- `LV2Worker::run` and `process` dereference the plugin interface that `start` installs. The model therefore requires `Start` to have run first.
- The Qt window (`WidgetWindow` layout, close and resize handling, `clearWidget`, `setWidget`).
- suil and lilv calls in `prepare_ui`: URI parsing, `suil_instance_new`, widget creation, and the `printf`/`abort()` paths when they fail. The model assumes the UI instance and widget are created.
- `show_ui`, `hide_ui` and `suil_instance_free`. `cleanup_ui`'s call of `hide_ui` is modelled only by its effect on the window's visibility.
- `suil_port_index`, which forwards to code that is not part of this model.
- The `printf` diagnostic in `suil_write_from_ui`.
- Float semantics: port values are an opaque type with reflexive equality. A NaN value would compare unequal to itself at ui.cpp:183 and be resent on every notify. The model cannot show that.
- Port types other than control: the headers defining them are not part of this model. The code only distinguishes control ports, so the model has one non-control type.
- `PROTOCOL_FLOAT` is taken to be 0, the LV2 UI port protocol for plain float values.
- The `LV2Plugin` constructor is not part of this model. The class's constructor here only sets up a port table with no UI.
