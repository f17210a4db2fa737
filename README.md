# ClipboardTurbo, modelled in Dafny

ClipboardTurbo is a Windows clipboard queue. While it is enabled, a monitor
task polls the clipboard every 500 ms. Each new content (Unicode text, ANSI
text or a device-independent bitmap) is stored as a `Data` record at the back
of a shared queue. A record counts as new when its MD5 digest differs from the
previous one. A global keyboard hook watches Ctrl:

- Ctrl+backtick turns the tool on and off.
- Ctrl+V pops the head of the queue and writes it back to the clipboard, so
  that the paste the application is about to perform pastes the queued items
  one after the other.
- Ctrl+V on an empty queue turns the tool off.

A small window shows the queue, with a delete button per row, a checkbox that
enables the tool, a button that clears the queue and a Ctrl+backtick shortcut.

The model has four modules:

- `Wrappers` (`wrappers.dfy`): the `Option` type.
- `Clipboard` (`clipboard.dfy`): models `src/clipboard.rs`.
  - The record as a value, `ContentRecord`, and the object that builds it, the
    class `Data` with `SetRaw`/`SetData`.
  - The bitmap decoder `generate_image`, as the function `Decode` and the
    method `Data.GenerateImage`. The method fills an `array` row by row in
    `FillPixels`.
  - `u32` arithmetic wraps modulo 2^32, as in a release build. Every index or
    slice that would panic yields `None`.
- `Turbo` (`turbo.dfy`): models `src/main.rs`.
  - The shared statics are the class `SharedState`, whose `Tick` (one pass of
    the monitor loop) and `OnEvent` (one call of the hook) are proved to
    follow the step functions `TickStep` and `KeyStep` on a `Snapshot` value.
  - Runs of ticks and key events are folded by `Run`. Properties of whole
    runs are proved on them: FIFO order, the record invariant, and the
    monitor staying dead.
- `Gui` (`gui.dfy`): models the state changes of `src/gui.rs` and the content
  a row shows. The state changes are the toggles, clearing the queue, and the
  collect-then-remove loop of the delete buttons.

Inputs from outside the program are parameters:

- MD5 is an arbitrary function `md5Of: seq<Byte> -> Digest`, and every
  property holds for every such function.
- Each Win32 clipboard call is a parameter: the format `which_format_avail`
  reports, the bytes `get_clipboard` reads, the string `get_clipboard_string`
  reads, and whether `set_clipboard` succeeded. A `None` stands for a failed
  read.
- Key events are values of `EventType`. Button clicks are booleans.

The model follows three behaviours of the code that a reader might not expect:

- A bitmap that cannot be decoded does not just drop one capture. The indexing
  panics inside `set_raw`, and with the default unwinding panics that panic
  ends the spawned monitor task for good. `TickStep` sets `monitorRunning` to false, and `DeadMonitorStaysDead`
  shows that no later input queues anything.
- Text is trimmed when it is read (`get_data`), not when the record is built.
  The record stores the untrimmed clipboard string.
- The "..." marker of the table compares the string's length in bytes with
  150, while the display takes 150 characters (see Findings).

## Model

| member | source | states |
|---|---|---|
| `Clipboard.LeRoundTrip` | src/clipboard.rs:66-67 | reading the four little-endian bytes of a `u32` gives that `u32` back |
| `Clipboard.LeBytesRoundTrip` | src/clipboard.rs:66-67 | the little-endian bytes of the value read from four bytes are those bytes |
| `Clipboard.TrimStart` | src/clipboard.rs:57 | the result is a suffix; everything dropped is whitespace; it does not start with whitespace |
| `Clipboard.TrimEnd` | src/clipboard.rs:57 | the result is a prefix; everything dropped is whitespace; it does not end with whitespace |
| `Clipboard.Trim` | src/clipboard.rs:57 | the result is a slice of the input with only whitespace before and after it, and it neither starts nor ends with whitespace; an unpadded string is unchanged |
| `Clipboard.ContentRecord.GetData` | src/clipboard.rs:56-58 | no text gives ""; otherwise the result is the stored text with its leading and trailing whitespace, and only that, removed |
| `Clipboard.ContentRecord.GetContent` | src/clipboard.rs:44-46 | the stored bytes (no contract of its own; used by `Turbo.CaptureOf` and `Turbo.NoRecaptureAfterPaste`) |
| `Clipboard.ContentRecord.GetMd5` | src/clipboard.rs:48-50 | the stored digest (no contract of its own; `Turbo.TickStep` compares it with the previous one) |
| `Clipboard.ContentRecord.GetType` | src/clipboard.rs:52-54 | the stored format (no contract of its own; `Gui.QueuedRowCell` states what each format shows) |
| `Clipboard.ContentRecord.GetImage` | src/clipboard.rs:60-62 | the preview, or the empty default image (no contract of its own; `Gui.QueuedRowCell` shows a queued bitmap always has its decoded preview) |
| `Clipboard.Data.constructor` | src/clipboard.rs:19-27 | a new `Data` has the given format, no bytes, a zero digest, no text and no preview |
| `Clipboard.Data.SetRaw` | src/clipboard.rs:29-38 | stores the bytes and their digest; it fails exactly for a CF_DIB that cannot be decoded; a decoded CF_DIB stores the preview; other formats keep format, text and preview |
| `Clipboard.Data.SetData` | src/clipboard.rs:40-42 | only the text changes, to `Some(data)` |
| `Clipboard.LeU32` | src/clipboard.rs:66-67 | the little-endian `u32` of four bytes; `Clipboard.LeRoundTrip` and `Clipboard.LeBytesRoundTrip` prove it inverse to `LeBytes` |
| `Clipboard.Stride` | src/clipboard.rs:68 | the row stride in wrapping `u32` arithmetic; `Clipboard.StrideOfWidth` states its properties |
| `Clipboard.ReadHeader` | src/clipboard.rs:66-68 | width and height read from bytes 4..12 and the stride of that width; `Clipboard.ReadInfoHeader` reads back a written header |
| `Clipboard.AreaLen` | src/clipboard.rs:69-71 | the pixel area length `height * stride` in wrapping `u32`; `Clipboard.NoWrapArea` gives its exact value without wrap-around |
| `Clipboard.PixelOffset` | src/clipboard.rs:76 | the byte offset of output pixel (x, y) in wrapping `u32`; `Clipboard.OffsetInArea` gives its exact value and bounds |
| `Clipboard.Decode` | src/clipboard.rs:64-109 | `generate_image` as a value: `None` where the source panics; its meaning is proved by `Clipboard.DecodableIff`, `Clipboard.DecodedPixel`, `Clipboard.WellFormedPixel` and `Clipboard.PreviewShape` |
| `Clipboard.Data.GenerateImage` | src/clipboard.rs:64-109 | the result is `Decode` of the stored bytes: `None` exactly where the source panics |
| `Clipboard.FillPixels` | src/clipboard.rs:73-85 | succeeds iff every pixel's four bytes lie in the area; then pixel y*width+x is the bottom-up pixel (x, y) reordered BGRA to RGBA |
| `Clipboard.StrideOfWidth` | src/clipboard.rs:68 | the stride is a multiple of 4, and is 4 * width when width * 32 does not wrap |
| `Clipboard.NoWrapArea` | src/clipboard.rs:68-71 | without wrap-around the stride is 4 * width and the area length is height * stride |
| `Clipboard.OffsetInArea` | src/clipboard.rs:76-81 | the offset of pixel (x, y) is (height-1-y) * stride + 4x and its four bytes lie inside the area |
| `Clipboard.AllInArea` | src/clipboard.rs:74-85 | without wrap-around every pixel of the header lies inside the area |
| `Clipboard.DecodableIff` | src/clipboard.rs:66-85 | without wrap-around, decoding succeeds iff the buffer holds at least 40 + height * stride bytes |
| `Clipboard.DecodedPixel` | src/clipboard.rs:74-85 | image-buffer pixel y*width+x of a decoded bitmap is the area's pixel (x, y), before alpha premultiplication |
| `Clipboard.WellFormedPixel` | src/clipboard.rs:74-85 | for a long enough buffer, image-buffer pixel (x, y) (before alpha premultiplication) is the bytes at 40 + (height-1-y)*stride + 4x in R, G, B, A order taken from B, G, R, A |
| `Clipboard.PreviewShape` | src/clipboard.rs:88-108 | the image has the header's width and height and width * height pixels; it is resampled iff a side exceeds 150 |
| `Clipboard.ShortBufferFails` | src/clipboard.rs:66-71 | a buffer shorter than the 40-byte header never decodes |
| `Clipboard.ReadInfoHeader` | src/clipboard.rs:66-68 | the width and height written into a BITMAPINFOHEADER are read back, with the stride of that width |
| `Clipboard.TwoByTwoExample` | src/clipboard.rs:64-109 | a 2x2 bitmap with a blue bottom row and a red top row decodes to red above blue, in RGBA |
| `Turbo.CaptureOf` | src/main.rs:42-60 | the capture fails iff the format is CF_DIB and the bytes do not decode; otherwise it carries format, bytes and digest, text for text formats (or "" when reading it fails), and a preview only for bitmaps |
| `Turbo.TickStep` | src/main.rs:41-66 | a disabled, dead or failed read tick changes nothing; the monitor dies iff an enabled tick reads an undecodable bitmap; the queue grows by one captured record at the back iff the content is supported, decodable and its digest differs from the previous one, which it then becomes |
| `Turbo.KeyStep` | src/main.rs:76-116 | the old queue is the popped record followed by the new queue; Ctrl+V with a non-empty queue pops; the digest becomes the popped record's when the write succeeds and stays otherwise; enabled flips iff Ctrl+backtick or Ctrl+V on an empty queue; Ctrl press and release set the flag |
| `Turbo.SharedState.constructor` | src/main.rs:26-30 | empty queue, zero digest, disabled, Ctrl up, monitor running |
| `Turbo.SharedState.Tick` | src/main.rs:41-66 | one loop pass updates the statics as `TickStep` says and keeps every queued record a captured one |
| `Turbo.SharedState.OnEvent` | src/main.rs:76-116 | one hook call updates the statics as `KeyStep` says and hands the popped record to the write-back |
| `Turbo.TickKeepsCaptured` | src/main.rs:42-65 | a tick keeps every queued record one the monitor captured |
| `Turbo.KeyKeepsCaptured` | src/main.rs:84-105 | a key event keeps every queued record one the monitor captured |
| `Turbo.SameContentQueuedOnce` | src/main.rs:61-65 | the same content read on two consecutive ticks is queued at most once |
| `Turbo.NoRecaptureAfterPaste` | src/main.rs:93-99 | after Ctrl+V writes the head back, a tick reading it again does not queue it again |
| `Turbo.FailedPasteLosesHead` | src/main.rs:88-100 | a failed write-back still removes the head and leaves the digest as it was |
| `Turbo.ExhaustionDisables` | src/main.rs:88-92 | Ctrl+V on an empty queue disables the tool, and a further V changes nothing |
| `Turbo.StepIsFifo` | src/main.rs:64-88 | one step appends at most one record at the back or pops at most one at the front |
| `Turbo.TransitionIsFifo` | src/main.rs:64-88 | every transition of the system keeps the queue a FIFO |
| `Turbo.TransitionKeepsCaptured` | src/main.rs:41-105 | every transition keeps every queued record one the monitor captured |
| `Turbo.Step` | src/main.rs:41-116 | one monitor tick (`TickStep`) or one hook call (`KeyStep`), with the record appended or popped; `Turbo.StepIsFifo` states its FIFO relation |
| `Turbo.Run` | src/main.rs:39-120 | the two tasks' steps folded over a sequence of inputs, collecting what was appended and popped; `Turbo.RunIsFifo`, `Turbo.RunKeeps` and `Turbo.RunAppendsNothing` state its properties |
| `Turbo.RunIsFifo` | src/main.rs:64-88 | a run of steps that each keep the queue FIFO keeps it FIFO: old queue plus pushed equals popped plus new queue |
| `Turbo.RunKeeps` | src/main.rs:39-120 | a property of states that every step keeps holds at the end of every run |
| `Turbo.RunAppendsNothing` | src/main.rs:39-71 | when a property of states is kept by every step and no step from a state having it appends, a run from such a state appends nothing |
| `Turbo.PastesInCaptureOrder` | src/main.rs:64-88 | from start-up, the records Ctrl+V hands back are a prefix of the records captured, in capture order |
| `Turbo.RunKeepsCaptured` | src/main.rs:39-71 | every run keeps every queued record one the monitor captured |
| `Turbo.DeadMonitorStaysDead` | src/main.rs:39-45 | once the monitor task has died, no run revives it and no run appends |
| `Turbo.TextTick` | src/main.rs:48-65 | an enabled text tick appends the text record iff its digest differs from the previous one |
| `Turbo.EnablePhase` | src/main.rs:78-114 | Ctrl down, backtick, Ctrl up from start-up enables the tool and changes nothing else |
| `Turbo.CopyPhase` | src/main.rs:41-66 | copying "hello" (seen twice) and then "world" queues both once, in order |
| `Turbo.PastePhase` | src/main.rs:84-105 | three Ctrl+V paste "hello" then "world" and disable the tool, with the write-back of "hello" not queued again |
| `Turbo.HelloWorldSession` | src/main.rs:41-114 | the whole session captures and pastes "hello" then "world" and ends disabled with an empty queue |
| `Gui.ToggleShortcut` | src/gui.rs:50-52 | Ctrl held with the backtick key released flips the enabled flag; nothing else changes |
| `Gui.ToggleCheckbox` | src/gui.rs:74-77 | a click flips the enabled flag once; nothing else changes |
| `Gui.ClearQueue` | src/gui.rs:80-83 | a click empties the queue and keeps every flag |
| `Gui.PasteAfterClearDisables` | src/gui.rs:80-83 | after a clear, the next Ctrl+V disables the tool and pastes nothing |
| `Gui.RemoveAt` | src/gui.rs:279 | `VecDeque::remove`: an index past the end changes nothing; otherwise the length drops by one, elements before it stay, later ones shift down |
| `Gui.RemoveAtContents` | src/gui.rs:279 | removal takes exactly one copy of the removed record out of the queue's contents |
| `Gui.RemoveAll` | src/gui.rs:278-280 | each index in turn removed from the queue as it is by then; `Gui.RemoveAllShrinks` and `Gui.LaterIndexShifts` state its properties |
| `Gui.RemoveAllShrinks` | src/gui.rs:278-280 | removing rows never adds or duplicates a record, and each index removes at most one |
| `Gui.LaterIndexShifts` | src/gui.rs:278-280 | after row i is removed, a later index j removes the row that was at j + 1 |
| `Gui.CollectClicked` | src/gui.rs:239-248 | the collected indices are exactly the clicked rows, in ascending order |
| `Gui.RemoveRows` | src/gui.rs:278-280 | the queue becomes the collected indices removed one after the other; the flags stay |
| `Gui.ShowTable` | src/gui.rs:210-280 | the removed indices are exactly the clicked rows, ascending, and are removed one after the other |
| `Gui.Utf8LenBounds` | src/gui.rs:254 | a string's UTF-8 length is between one and four bytes per character |
| `Gui.Utf8Len` | src/gui.rs:254 | `str.len()`, the UTF-8 length in bytes; `Gui.Utf8LenBounds` and `Gui.Utf8LenUniform` state its bounds |
| `Gui.Take` | src/gui.rs:253 | `chars().take(n)`: a prefix of at most n characters, the whole string when it is shorter |
| `Gui.DisplayText` | src/gui.rs:252-262 | the row text as written: the first 150 characters, then "..." when the string exceeds 150 bytes; `Gui.DisplayTextCuts` states its behaviour |
| `Gui.DisplayTextCuts` | src/gui.rs:252-262 | "..." follows the shown characters exactly when the string exceeds 150 bytes; a string over 150 characters shows its first 150 and "..."; a string of at most 150 bytes shows whole |
| `Gui.EllipsisWithoutCut` | src/gui.rs:253-254 | 51 three-byte characters are shown whole yet marked with "..." |
| `Gui.DisplayTextByCharsHonest` | src/gui.rs:252-262 | counting characters, "..." is appended iff characters are hidden; on ASCII the rule agrees with the byte rule |
| `Gui.RowCell` | src/gui.rs:249-274 | the cell of a row as written: text formats show `DisplayText` of the trimmed text, CF_DIB its preview, other formats nothing; `Gui.QueuedRowCell` states its behaviour |
| `Gui.QueuedRowCell` | src/gui.rs:249-274 | a queued record always shows something: a text record its trimmed text, with "..." exactly when it exceeds 150 bytes, whole when it fits in 150 bytes and cut to 150 characters when longer; a bitmap its decoded preview |
| `Gui.QueuedCorrectedRowCell` | src/gui.rs:252-262 | with the character rule a queued text record shows its trimmed text whole, or cut and marked exactly when characters are hidden; ASCII text and other records show as with the rule as written |

## Left out

- MD5 itself: the digest is an arbitrary function of the bytes, so collisions are not excluded and the model assumes nothing about them.
- The Lanczos3 resampling of a preview with a side over 150 pixels is abstract. `Lanczos3(image)` records the image before resampling. The `f32` scale and the new size are not modelled (a 300×150 bitmap shrinks to 150×75).
- `ColorImage::from_rgba_unmultiplied` (src/clipboard.rs:99-107) premultiplies each pixel by its alpha, so an alpha of 0 gives a transparent pixel; the model's `ColorImage` holds the unmultiplied RGBA of the image buffer. A 32-bit bitmap whose fourth byte per pixel is 0 therefore plausibly previews fully transparent; this was found by reading the code and not reproduced.
- Clipboard.PreviewShape: for a resampled preview it states the size of the image before resampling, not the size after it, because resampling is abstract.
- Running out of memory in `vec![0; height * stride]` or `ImageBuffer::new` is not modelled; only index and slice panics are.
- Debug-build overflow panics are not modelled: the arithmetic of `generate_image` wraps, as in a release build.
- Threads, the mutexes, the atomics and the 500 ms sleep are left out. Each tick, key event and window action is one atomic step on the shared state, so interleavings inside a step are not modelled. This hides a lock-order inversion, found by reading the code and not reproduced: the hook keeps the `CLIPBOARD_QUEUE` guard of src/main.rs:88 (a temporary of the `match` scrutinee) until the end of the `match` and takes `PREVIOUS_MD5` at src/main.rs:97, while the tick holds `PREVIOUS_MD5` from src/main.rs:61 and takes the queue at src/main.rs:64, so the two tasks can deadlock. `Turbo.NoRecaptureAfterPaste` holds only for a tick that runs after the whole hook call.
- The window's actions (`ToggleShortcut`, `ToggleCheckbox`, `ClearQueue`, `ShowTable`) are module-level methods of `Gui` that take a `SharedState`; they are not inputs of `Run`. The run properties (FIFO order, the dead monitor) cover ticks and key events only. This hides a likely double toggle, found by reading the code and not reproduced: an in-window Ctrl+backtick flips `enabled` on the key's release (src/gui.rs:50-52), while the global hook has already flipped it on the same key's press (src/main.rs:106-113), so the flag may end up unchanged.
- `rdev::listen` failing to start (the hook's `eprintln!`) is left out. Auto-repeated keys are further `KeyPress` inputs, and every other key or event is `OtherKey` or `OtherEvent`, which `KeyStep` leaves without effect.
- Drawing is left out: window frame, fonts, the always-on-top checkbox, minimise and close buttons, textures, repaint requests and `exit(0)`.
- `main`'s start-up (native options, icon) and `src/errors.rs` are not part of this model.

## Findings

| source | as written | input that shows it | evidently intended | confidence | as-written member | corrected member |
|---|---|---|---|---|---|---|
| src/gui.rs:253-254 | the row shows the first 150 characters (`chars().take(150)`) but appends "..." when `str.len()`, the length in BYTES, exceeds 150 | 51 copies of '中' (153 bytes, 51 characters): shown whole, yet followed by "..." | "..." exactly when characters were cut off (more than 150 characters) | not executed | `Gui.EllipsisWithoutCut` | `Gui.DisplayTextByCharsHonest` |

The model's row cell (`Gui.RowCell`) follows the rule as written,
`DisplayText`. The corrected, character-counting rule `DisplayTextByChars` is
the row cell `Gui.CorrectedRowCell`, which `Gui.QueuedCorrectedRowCell` proves
honest for every queued record.
