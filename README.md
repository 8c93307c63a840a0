# picube pad protocol core, modelled in Dafny

The firmware makes a Raspberry Pi Pico answer a GameCube console as if it were a
controller. Its core is small:

- `src/gc.rs` declares the line symbol `Bit` (`Low`, `High`, `Stop`), the
  sample counters `BitSamples`, the poll request's rumble flags `HostCommand`
  and the `ControllerState` snapshot. Its comments document the 22 fixed bits
  that open a poll request and the byte layout of the 8-byte controller reply.
- `src/main.rs` (lines 63-98) runs the request/response loop. Symbols are
  captured into a fixed array of `BIT_LIMIT` = 33 entries. An overflow or a
  decode error discards the capture. On a stop symbol the captured slice is
  tried against three request templates in order, and at most one reply is
  sent. The loop then waits for the host's command to end and starts a new
  capture.

The model has three files:

- `wrappers.dfy` holds the module `Wrappers`, which defines `Option`.
- `gc.dfy` holds the module `Gc`. It defines the datatypes of `gc.rs`, with
  `u8` fields as the subset type `U8` (0..255). The layouts that the comments
  describe are pure functions: `ResponseLayout` for the 8-byte reply and
  `PollRequest` for a poll request. Where the comments leave the reply open
  (bit order inside bytes 3-8, the final stop, the 4-bit mode), the model's
  choice is listed under "## Left out". Each has a decoder (`DecodeResponse`,
  `ParsePollRequest`), and both round trips are proved.
- `capture.dfy` holds the module `Capture`. One loop iteration is specified on
  values (`LoopState`, `Next`), and so is a run of iterations (`Run`). The
  class `PadLoop` keeps the `bits` array and the two counters as fields. Its
  `Step` method is the loop body and updates the array in place. Its `Serve`
  method is the loop itself, run for as long as decoder results are supplied.
  Both methods are proved to follow `Next` and `Run`.

Several things outside this code become parameters:

- The decoder's result for an iteration is a `ReadOutcome` (`Read(bit)` or
  `DecodeError`).
- The template matcher is a function `(seq<Bit>, Request) -> bool`.
- Whatever the loop puts on the line is recorded as a ghost log of `Event`s:
  `Send(Response1)`, `Send(Response2)`, `Send(PollResponse(n))` and
  `WaitCommand`.

`Step` also returns whether the decoder was consulted. The overflow iteration
(main.rs:68-71) resets the fill counter without reading a symbol; the array's
entries are left as they are.

Choices the model makes, each following the code:

- There is no `Wildcard` symbol: `Bit` in gc.rs:3-7 has three variants.
- The third bit of reply byte 1 is marked "0/1" in gc.rs:22-24, so
  `ResponseLayout` leaves it open as the parameter `free` rather than fixing it
  to 0.
- When an append fills the buffer, the 33rd symbol is stored and the fill
  counter is reset at the head of the next iteration, before any read
  (main.rs:68-71), not at the moment of the append.

## Model

| member | source | states |
|---|---|---|
| `Gc.BitsOf` | src/gc.rs:40-45 | a value written as `width` bits has exactly `width` symbols, all of them data bits |
| `Gc.ValueOf` | src/gc.rs:40-45 | the value spelt by n data bits, most significant first, is below 2^n |
| `Gc.ValueOfBitsOf` | src/gc.rs:40-45 | reading back the bits written for any v < 2^width gives v |
| `Gc.BitsOfValueOf` | src/gc.rs:40-45 | writing out the value of any run of data bits gives back the same bits |
| `Gc.ByteBits` | src/gc.rs:40-45 | a `u8` occupies exactly 8 data bits |
| `Gc.ByteRoundTrip` | src/gc.rs:40-45 | every `u8` (0..255) is recovered from its 8 bits |
| `Gc.ByteValueInverse` | src/gc.rs:40-45 | every 8 data bits are the bits of the byte they decode to |
| `Gc.BytesRoundTrip` | src/gc.rs:40-45 | a run of bytes is recovered from their concatenated bits |
| `Gc.BitsBytesInverse` | src/gc.rs:40-45 | a run of data bits of length 8k is the concatenated bits of the k bytes it decodes to |
| `Gc.ResponseLayout` | src/gc.rs:21-46 | the reply is 65 symbols: 64 data bits, then one stop, in the last position only |
| `Gc.ResponseRoundTrip` | src/gc.rs:21-46 | decoding the laid-out reply gives back every button, all six analog bytes and the open bit of byte 1 |
| `Gc.DecodeResponseInverse` | src/gc.rs:21-46 | any sequence that decodes as a reply is exactly the layout of what it decodes to: 0, 0, open bit, start, y, x, b, a; then 1, l, r, z, d-up, d-down, d-right, d-left; then joystick x, joystick y, c-stick x, c-stick y, l analog, r analog; then the stop |
| `Gc.HeaderLayout` | src/gc.rs:22-38 | bytes 1 and 2 are 0, 0, open bit, start, y, x, b, a and 1, l, r, z, d-up, d-down, d-right, d-left, each button as one bit |
| `Gc.DataBit` | src/gc.rs:3-7 | a boolean becomes a data symbol, `High` exactly when it is true |
| `Gc.PollRequest` | src/gc.rs:14-19 | a poll request is 25 symbols: the 22-bit prefix and two flag bits, all data, then one stop at the end |
| `Gc.PollRequestRoundTrip` | src/gc.rs:14-19 | both rumble flags are recovered from a poll request |
| `Gc.ParsePollRequestInverse` | src/gc.rs:14-19 | anything accepted as a poll request is the prefix 0100 0000 0000 0011 0000 00, the two flags and a stop |
| `Capture.Initial` | src/main.rs:63-66 | the loop starts with an empty capture, a poll counter of 0 and the invariant holding |
| `Capture.Next` | src/main.rs:67-98 | every iteration keeps the invariant: the buffer has 33 entries, 0 <= bit_count <= 33, and the captured symbols hold no stop, so `bits[bit_count]` is always in bounds when written |
| `Capture.Run` | src/main.rs:67-98 | the invariant holds at every loop head of any run |
| `Capture.OverflowResets` | src/main.rs:68-71 | a full buffer without a stop sets bit_count to 0, reads nothing and sends nothing, and the buffer and poll counter are unchanged |
| `Capture.DecodeErrorResets` | src/main.rs:72-77 | a decode error sets bit_count to 0 and sends nothing, and the buffer contents and poll counter are unchanged |
| `Capture.AppendsDataBit` | src/main.rs:79-80 | a data bit is stored at the old bit_count, which grows by exactly 1, and every other buffer entry, the poll counter and the line are unchanged |
| `Capture.StopDispatches` | src/main.rs:79-96 | on a stop, the matcher is given the captured symbols plus the stop: a message with exactly one stop, at its end. The buffer holds it, the reply is decided by the templates alone, and bit_count is 0 afterwards |
| `Capture.DispatchPriority` | src/main.rs:83-96 | templates 1, 2, 3 are tried in that order and the first match wins. At most one reply goes out and the wait for the line always comes last. The poll counter grows by 1 exactly when template 3 is the first match |
| `Capture.NextNumbersPolls` | src/main.rs:87-92 | one iteration raises the poll counter by at most 1, and a poll reply carries the incremented value |
| `Capture.RunNumbersPolls` | src/main.rs:87-92 | over any run the poll counter never decreases and grows by the number of poll replies sent; the k-th poll reply carries the initial count plus k |
| `Capture.RunAppend` | src/main.rs:67-98 | running the loop on two batches of decoder results in turn is the same as running it on their concatenation |
| `Capture.CaptureData` | src/main.rs:72-80 | data bits that fit are stored in order after the captured ones, and nothing is sent |
| `Capture.CaptureMessage` | src/main.rs:72-96 | a message that fits is dispatched exactly as received, after what was already captured, and the capture then restarts |
| `Capture.CapturePollRequest` | src/main.rs:63-96 | a 25-symbol poll request from an empty buffer reaches the matcher intact, because it fits in the 33-entry buffer |
| `Capture.OverlongCaptureDropped` | src/main.rs:63-80 | 33 data bits without a stop fill the buffer and send nothing, and the next iteration discards them without reading |
| `Capture.PadLoop.constructor` | src/main.rs:63-66 | the array holds 33 `Low` entries, both counters are 0 and nothing has been sent |
| `Capture.PadLoop.Step` | src/main.rs:67-98 | the loop body updates the array and counters in place as `Next` prescribes. It says whether the decoder was consulted, returns the reply sent if any, appends what went on the line to the log and keeps the invariant |
| `Capture.PadLoop.Serve` | src/main.rs:67-98 | the loop leaves the array, the counters and the log as `Run` prescribes for the given decoder results |

## Left out

- Hardware bring-up (main.rs:29-61) is left out: peripherals, clocks and PLL, watchdog, pins and the 2 s start delay are foreign HAL calls.
- `read_bit` and its pulse-width decoding are not part of this model. Their result is the `ReadOutcome` parameter, and the `BitSamples` counters appear only as a datatype.
- `send_data` and its pulse timing are not part of this model. A reply is the `Send` event it would produce.
- `wait_command` is not part of this model beyond the `WaitCommand` event, because it only drains the line.
- `match_bit_pattern` and the contents of `REQUEST_1`, `REQUEST_2`, `REQUEST_3`, `RESPONSE_1` and `RESPONSE_2` are not part of this model. The matcher is a parameter and the templates and fixed replies are named, not spelt out.
- `get_input` and `into_gc_bits` are not part of this model. The poll reply is recorded by its counter value. `Gc.ResponseLayout` follows the byte order and the bits of bytes 1-2 that gc.rs:21-46 lists, not a reconstruction of `into_gc_bits`.
- `Gc.ResponseLayout`: three parts of its layout are assumptions of this model, not taken from gc.rs:21-46. Bytes 3-8 are sent most significant bit first, because gc.rs does not give the bit order inside them. The reply ends with one `Stop`, because gc.rs does not mention a trailing stop. Bytes 7 and 8 are always full 8-bit bytes: the "possible 4-bit mode" of gc.rs:44-45 is not modelled.
- `Capture.PadLoop.Step`: `frame_counter` is a `u64` in the source. It is an unbounded `nat` here, so the overflow after 2^64 - 1 polls is not modelled.
- `Capture.PadLoop.Serve` runs the endless `'main` loop only for as many iterations as there are decoder results (plus a discarding iteration where the buffer is full).
- The `HostCommand` flags are never read by the loop. Parsing them appears only in `Gc.ParsePollRequest`, and no rumble output is modelled.
- Logging (`defmt`), `panic_probe` and the LED doc comment are left out: they have no behaviour this model needs.
