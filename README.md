# WS2812 LED driver of a Wi-Fi access-point firmware

The firmware runs an open Wi-Fi access point with an HTTP server. A
`POST /led` request carries three bytes: red, green and blue. The handler
turns them into one colour and calls `neopixel`. That routine encodes a list
of colours into a pulse signal for a WS2812 ("NeoPixel") LED and hands the
signal to the chip's remote-control (RMT) transmit driver. Each colour becomes
a 24-bit word in GRB order: green in bits 23..16, red in bits 15..8, blue in
bits 7..0. The bits go out from 23 down to 0. Each bit is a high pulse
followed by a low pulse: 350 ns + 800 ns for a zero, 700 ns + 600 ns for a one.

This project models that path in Dafny:

- `results.dfy`, module `Results`: `Option` and a `Result` that works with `:-`.
- `ws2812.dfy`, module `Ws2812`: the wire format as pure functions. `Pack` builds the
  colour word. `Bit` is bit i of a word, and `MaskTest` is the encoder's
  mask test `2^i & w != 0`, proved equal to it. `Bits` lists a word's bits,
  most significant first. `PairFor`, `BitPulses`, `ColorPulses` and
  `Train` give the expected pulse sequence. A reference decoder
  (`DecodeBits`, `FromBits`, `Unpack`, `Decode`) reads a pulse pair as a one
  when its high pulse is `t1h`. The lemmas prove the packing layout, the bit
  order, the pulse layout and the round trip.
- `firmware.dfy`, module `Firmware`: the imperative code.
  - `EncodeSignal` has the two nested loops of `neopixel`. It appends one
    pulse pair per bit to a growing signal, and its postcondition equates the
    result with `Train`.
  - `Neopixel` is the whole routine: read the clock, build the four pulses,
    encode, transmit.
  - `HandleLed` is the `/led` handler.
  - `TxDriver` stands for the RMT driver. It is an abstract sink that records
    every signal it sends.

The library calls whose code is not part of this model are inputs:

- The driver's counter clock is the field `TxDriver.clock`. `None` means
  `counter_clock` failed.
- The nanosecond-to-tick conversion of `Pulse::new_with_duration` is the function
  parameter `ticksFor(hz, nanos)`. `None` means the duration cannot be
  represented.
- Whether the k-th `push` onto the signal succeeds is `pushOk(k)`.
- Whether `start_blocking` succeeds is `TxDriver.faulted`.

`ns` only wraps a nanosecond count in a `Duration`, so the model passes the
nanosecond constants directly.

Behaviour of the code worth knowing:

- A body longer than three bytes is accepted. `read_exact` (src/main.rs:137-138)
  fills a 3-byte buffer and never reads the rest, so `HandleLed` echoes the
  first three bytes. `read_exact` fails when the body is shorter than three
  bytes (`ShortBody`) or when reading the connection fails (`ReadFailed`,
  modelled by a `None` body).
- The tick rate is read from the driver's `counter_clock`, which can fail
  (`ClockUnavailable`). A rejected push onto the signal also fails
  (`PushRejected`).

## Model

| member | source | states |
|---|---|---|
| `Ws2812.Pack` | src/main.rs:190 | the packed colour word is below 2^24 |
| `Ws2812.UnpackPack` | src/main.rs:190 | packing keeps all three channels: green, red and blue can be read back from the word |
| `Ws2812.PackBits` | src/main.rs:186-190 | the 24 bits of the packed word, most significant first, are green's 8 bits, then red's, then blue's |
| `Ws2812.PackExample` | src/main.rs:186-190 | the example colour r=1, g=2, b=4 packs to 0x020104, whose bits are 00000010 00000001 00000100 |
| `Ws2812.MaskTest` | src/main.rs:192-193 | the test on the mask `2^i` holds exactly when bit i of the colour word is set |
| `Ws2812.BitsAt` | src/main.rs:191-193 | position k of a word's bit list holds bit n-1-k (the `2^i & w != 0` test), so the list runs from the most significant bit down |
| `Ws2812.PackBitOrder` | src/main.rs:190-193 | the bit sent k-th, bit 23-k of the word, is green's bit 7-k for k < 8, red's bit 15-k for 8 <= k < 16 and blue's bit 23-k otherwise, so all green bits precede red ones and red precede blue |
| `Ws2812.PairFor` | src/main.rs:193-194 | a bit becomes exactly two pulses, high then low for well-levelled pulses, and whose high pulse is `t1h` exactly when the bit is one, provided `t0h` and `t1h` differ |
| `Ws2812.ColorPulses` | src/main.rs:190-196 | the inner loop for one colour yields exactly 48 pulses, two for each of its 24 bits |
| `Ws2812.ColorPulsesPairAt` | src/main.rs:191-195 | pulses 2k and 2k+1 of a colour are the pair for bit 23-k of its packed word |
| `Ws2812.Train` | src/main.rs:183-184 | the signal for a colour list has exactly 48 pulses per colour, the capacity reserved up front |
| `Ws2812.BitPulsesAt` | src/main.rs:193-195 | pulses 2k and 2k+1 of a bit sequence are (t1h, t1l) when bit k is one and (t0h, t0l) otherwise |
| `Ws2812.TrainAppend` | src/main.rs:185-197 | colours are encoded in list order with no gap: the signal of a + b is the signal of a followed by that of b |
| `Ws2812.TrainPairAt` | src/main.rs:185-195 | pulses 48j+2k and 48j+2k+1 are the pair for bit 23-k of colour j's packed word: (t1h, t1l) if that bit is set, (t0h, t0l) if not |
| `Ws2812.TrainLevels` | src/main.rs:179-182 | with high pulses high and low pulses low, every even pulse of the signal is high and every odd one low: each pair is high first |
| `Ws2812.DecodeBitPulses` | src/main.rs:193-195 | when t0h differs from t1h, reading each pair's high pulse recovers every bit |
| `Ws2812.DecodeColorPulses` | src/main.rs:190-195 | the 48 pulses of one colour decode to its packed word and then to the colour itself |
| `Ws2812.DecodeTrain` | src/main.rs:179-195 | round trip: when t0h differs from t1h, decoding the signal of any colour list gives back that list |
| `Ws2812.TrainInjective` | src/main.rs:179-195 | when t0h differs from t1h, two colour lists with the same signal are equal |
| `Firmware.NewWithDuration` | src/main.rs:179-182 | a pulse is built exactly when its duration has a tick count at the clock rate, and then has the requested level and that tick count; otherwise the error is `DurationUnrepresentable` |
| `Firmware.Timings` | src/main.rs:179-182 | the four pulses are built from 350, 800, 700 and 600 ns with levels high, low, high, low; building fails exactly when one of the four durations has no tick count |
| `Firmware.SignalFor` | src/main.rs:177-197 | what `neopixel` hands to the driver: the signal exists exactly when the clock can be read, all four pulses can be built and every push succeeds; it is then the encoded train of the colour list, 48 pulses per colour; otherwise the first failure in that order is the error |
| `Firmware.EncodeSignal` | src/main.rs:184-197 | the nested loops succeed exactly when the first 24 pushes per colour all succeed; the signal they build is then `Train` of the colour list; otherwise they stop with the push error |
| `Firmware.SignalDecodes` | src/main.rs:177-198 | the signal `neopixel` hands to the driver has 48 pulses per colour, alternates high/low starting high, and decodes back to the colour list when the 350 ns and 700 ns high pulses differ in ticks |
| `Firmware.Neopixel` | src/main.rs:177-201 | success exactly when the clock, all four pulses and all pushes succeed and the driver transmits; then the driver has sent exactly the encoded signal; on any earlier failure that error is returned and nothing is sent |
| `Firmware.TxDriver.StartBlocking` | src/main.rs:198 | a healthy driver appends the signal to what it has sent; a faulted one reports a transmit failure and sends nothing |
| `Firmware.HandleLed` | src/main.rs:136-155 | a failed read or a body shorter than 3 bytes fails with its own error and sends nothing; otherwise the colour is r = byte 0, g = byte 1, b = byte 2, and `neopixel`'s outcome is passed on: on success its signal is sent and the same three bytes are returned for the response; on failure `neopixel`'s error is returned unchanged and nothing is sent |

## Left out

- Wi-Fi access point, NVS, the system event loop and the timer service (src/main.rs:70-110). These are hardware and network bring-up.
- HTTP server construction, the `/` handler and its HTML page (src/main.rs:23-59, 112-133). These are transport and UI.
- The worker thread, `block_on`, the `Arc<Mutex<…>>` around the driver and its `lock().expect(...)`, and the idle timer loop (src/main.rs:68-69, 83, 135, 148, 157-159). `HandleLed` takes the driver as an exclusively owned object. The model does not capture mutual exclusion between concurrent requests, lock poisoning, or "last write wins" across racing requests.
- `TxRmtDriver::new` and the transmit configuration (src/main.rs:82-83). The driver is created with a given clock and fault status.
- `counter_clock`, the nanosecond-to-tick rounding of `Pulse::new_with_duration`, `VariableLengthSignal::push` and `start_blocking` are library code. Their outcomes are inputs. A failure is modelled by its kind only, and the `anyhow` context strings are not modelled.
- Logging (`info!`).
- HandleLed: does not model a failure of `into_ok_response` or of writing the response body (src/main.rs:151-152). On success it returns the three bytes that would be written.
- Firmware.TxDriver.StartBlocking: a failed transmission records nothing. The partial waveform the peripheral may already have driven is not modelled.
- `VariableLengthSignal::with_capacity` reserves memory, which only affects performance. Its size is reflected by the length property of `Ws2812.Train`.
- The 32-bit arithmetic of the packing and of the `2_u32.pow(i)` mask is modelled on unbounded integers. No overflow can occur, because the word is below 2^24 and i is at most 23.
