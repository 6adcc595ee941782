# Ch341Hal: RadioLib over a CH341 USB bridge, in Dafny

`Ch341Hal` (src/platform/portduino/USBHal.h) lets RadioLib, a radio driver
library, run against a CH341 USB-to-SPI/GPIO bridge. It implements
RadioLib's hardware interface: pin mode, digital write and read,
interrupt attach and detach, delays, yield, millisecond and microsecond
clocks, and SPI transfer. The GPIO, interrupt and SPI-transfer calls are
forwarded to the `libpinedio-usb` driver. The timing calls go to the
operating system: `sched_yield`, `usleep` and `gettimeofday`. The transaction
calls `spiBeginTransaction` and `spiEndTransaction` do nothing. The only state is the `pinedio_is_init` flag of the driver handle:
`spiBegin` (and `init`) opens the handle and configures the chip, and
`spiEnd` (and `term`) closes it.

The model has these parts:

- `CTypes` (ctypes.dfy): the C integer widths of a 64-bit Linux build. It
  includes the `unsigned long` product that wraps modulo 2^64, and the
  conversion to glibc's 32-bit `useconds_t` that `usleep` receives.
- `RadioLib` (radiolib.dfy): `RADIOLIB_NC`, RadioLib's "not connected"
  pin number, taken as `0xFFFFFFFF`. RadioLib.h is not part of this model.
- `Pinedio` (pinedio.dfy): the events the adapter can cause. These are
  driver calls, `sched_yield`, `usleep`, and the two messages written to
  standard error. A driver result (the `pinedio_init` return code, the
  transceive result) is an input carried by the event that produced it.
- `Clock` (clock.dfy): `millis` and `micros` as functions of a
  `struct timeval`.
- `HalSpec` (hal_spec.dfy): one `Op` per call into the adapter. `Effects`
  gives the events a call issues when the handle is open or closed.
  `NextOpen` and `OpenAfter` give the flag, and `TraceOf` gives everything a
  history of calls issues. Lemmas about whole histories cover open/close
  balance, one configuration per successful open, idempotence of `init` and
  `term`, and the sentinel pin never reaching the driver.
- `UsbHal` (usb_hal.dfy): the class `Ch341Hal`. Its only compiled field is
  the flag; the trace of issued events and the history of calls are ghost. Its methods follow the C++
  branch for branch, and `Valid()` ties the flag and the trace to
  `OpenAfter(history)` and `TraceOf(history)`.

The model follows the code, including two points a reader may not expect:

- The GPIO, interrupt, timing and SPI calls do not consult the open flag.
  The GPIO, interrupt and transfer calls reach the driver even while the
  handle is closed, and the timing calls sleep or yield in either state.
  `HalSpec.OnlyLifecycleConsultsState` states this.
- `delay(ms)` passes `ms * 1000` to `usleep`, whose parameter is 32 bits
  wide. For every `ms > 4294967` the sleep is shorter than asked
  (`HalSpec.LongDelayShorter`), and `delay(2^29)` sleeps 0 µs without
  yielding (`HalSpec.LongDelayTruncated`).
  The model keeps this truncation.

## Model

| member | source | states |
|---|---|---|
| `UsbHal.Ch341Hal.constructor` | src/platform/portduino/USBHal.h:27-30 | a new adapter has a closed handle, has issued nothing, and its arguments play no part |
| `UsbHal.Ch341Hal.Init` | src/platform/portduino/USBHal.h:32-36 | `init` is `spiBegin`: same flag and events, recorded as a `spiBegin` call |
| `UsbHal.Ch341Hal.Term` | src/platform/portduino/USBHal.h:38-42 | `term` is `spiEnd`: the handle ends closed, with one deinit if it was open |
| `UsbHal.Ch341Hal.PinMode` | src/platform/portduino/USBHal.h:46-52 | RADIOLIB_NC: nothing issued; any other pin: exactly one set-pin-mode with the same pin and mode; flag unchanged |
| `UsbHal.Ch341Hal.DigitalWrite` | src/platform/portduino/USBHal.h:54-60 | RADIOLIB_NC: nothing issued; otherwise exactly one digital write with the same pin and value; flag unchanged |
| `UsbHal.Ch341Hal.DigitalRead` | src/platform/portduino/USBHal.h:62-68 | RADIOLIB_NC: returns 0 and issues nothing; otherwise one read of that pin, and the driver's value is returned unchanged |
| `UsbHal.Ch341Hal.AttachInterrupt` | src/platform/portduino/USBHal.h:70-77 | RADIOLIB_NC: nothing issued; otherwise one registration with the same pin, mode and callback |
| `UsbHal.Ch341Hal.DetachInterrupt` | src/platform/portduino/USBHal.h:79-87 | RADIOLIB_NC: nothing issued; otherwise one deregistration of that pin |
| `UsbHal.Ch341Hal.Delay` | src/platform/portduino/USBHal.h:89-97 | 0 ms: one yield and no sleep; otherwise one `usleep` of `ms*1000` cut to 32 bits, which is exactly `ms*1000` µs up to 4294967 ms |
| `UsbHal.Ch341Hal.DelayMicroseconds` | src/platform/portduino/USBHal.h:99-106 | 0 µs: one yield; otherwise one `usleep` of `us` cut to 32 bits, which is exactly `us` below 2^32 |
| `UsbHal.Ch341Hal.Yield` | src/platform/portduino/USBHal.h:108 | exactly one `sched_yield`, nothing else changes |
| `UsbHal.Ch341Hal.SpiBegin` | src/platform/portduino/USBHal.h:129-142 | open: nothing issued, stays open; closed: one init; non-zero result: reported, stays closed; zero: opens, then auto-CS off and pins 3 and 5 to output, in that order |
| `UsbHal.Ch341Hal.SpiBeginTransaction` | src/platform/portduino/USBHal.h:144 | issues nothing and leaves the flag alone |
| `UsbHal.Ch341Hal.SpiTransfer` | src/platform/portduino/USBHal.h:146-152 | one transceive of the first `len` bytes; a negative result is reported and nothing else; the flag never changes |
| `UsbHal.Ch341Hal.SpiEndTransaction` | src/platform/portduino/USBHal.h:154 | issues nothing and leaves the flag alone |
| `UsbHal.Ch341Hal.SpiEnd` | src/platform/portduino/USBHal.h:156-162 | open: exactly one deinit, then closed; closed: nothing issued |
| `HalSpec.BeginEffects` | src/platform/portduino/USBHal.h:129-142 | `spiBegin` issues nothing exactly when the handle is open; otherwise it starts with one init carrying the driver's result, followed by exactly the configuration iff that result is 0 |
| `HalSpec.EndEffects` | src/platform/portduino/USBHal.h:156-162 | `spiEnd` issues nothing exactly when the handle is closed, and otherwise only deinit |
| `HalSpec.NextOpen` | src/platform/portduino/USBHal.h:129-162 | only `spiBegin` with result 0 opens the handle; only `spiEnd` closes it |
| `HalSpec.Effects` | src/platform/portduino/USBHal.h:46-87 | no call issues an event naming RADIOLIB_NC; a pin call issues at most one event, none exactly when its pin is RADIOLIB_NC, otherwise one naming the same pin |
| `HalSpec.TraceOf` | src/platform/portduino/USBHal.h:44-87 | over any history of calls, the sentinel pin never reaches the driver |
| `HalSpec.StepCounts` | src/platform/portduino/USBHal.h:129-162 | a call issues a successful init iff it opens the handle, a deinit iff it closes it, and the configuration iff it opens it |
| `HalSpec.BeginCounts` | src/platform/portduino/USBHal.h:129-142 | `spiBegin` issues one successful init and one configuration exactly when the handle was closed and the open returned 0, and never a deinit |
| `HalSpec.EndCounts` | src/platform/portduino/USBHal.h:156-162 | `spiEnd` issues one deinit exactly when the handle was open, and never an open or a configuration |
| `HalSpec.OpenCloseBalance` | src/platform/portduino/USBHal.h:129-162 | over any history, successful opens equal closes plus one while open: never opened or closed twice in a row |
| `HalSpec.ConfigOncePerOpen` | src/platform/portduino/USBHal.h:129-142 | over any history, the chip is configured exactly as often as it is successfully opened |
| `HalSpec.ConfigFollowsEachOpen` | src/platform/portduino/USBHal.h:135-140 | over any history, every successful init is followed at once by auto-CS off, pin 3 output and pin 5 output |
| `HalSpec.BeginWhenOpenIsNoOp` | src/platform/portduino/USBHal.h:131 | `spiBegin`/`init` on an open handle issues nothing and leaves it open |
| `HalSpec.BeginTwiceConfiguresOnce` | src/platform/portduino/USBHal.h:32-36 | two `init` calls in a row configure the chip at most once |
| `HalSpec.FailedOpenAllowsRetry` | src/platform/portduino/USBHal.h:132-135 | a failed open is reported and leaves the handle closed, and the next `init` issues a fresh open |
| `HalSpec.EndIdempotent` | src/platform/portduino/USBHal.h:156-162 | a second `term` issues nothing and the handle stays closed |
| `HalSpec.EndThenBeginReconfigures` | src/platform/portduino/USBHal.h:38-42 | `term` then a successful `init` reopens the handle and runs the configuration again |
| `HalSpec.OnlyLifecycleConsultsState` | src/platform/portduino/USBHal.h:46-154 | every call other than `spiBegin`/`spiEnd` keeps the flag and issues the same events whether the handle is open or closed |
| `HalSpec.SentinelPinIsNoOp` | src/platform/portduino/USBHal.h:46-87 | a GPIO or interrupt call on RADIOLIB_NC changes neither the flag nor the trace, in any state |
| `HalSpec.DelayDispatch` | src/platform/portduino/USBHal.h:89-97 | `delay` yields iff `ms == 0`; up to 4294967 ms it sleeps exactly `ms*1000` µs |
| `HalSpec.DelayMicrosecondsDispatch` | src/platform/portduino/USBHal.h:99-106 | `delayMicroseconds` yields iff `us == 0`; below 2^32 it sleeps exactly `us` µs |
| `HalSpec.LongDelayTruncated` | src/platform/portduino/USBHal.h:96 | `delay(2^29)` reaches `usleep` as 0 µs |
| `HalSpec.LongDelayShorter` | src/platform/portduino/USBHal.h:89-97 | every `delay` above 4294967 ms reaches `usleep` as fewer microseconds than `ms*1000` |
| `HalSpec.TransferKeepsState` | src/platform/portduino/USBHal.h:146-152 | a transfer issues its transceive first, adds one report when the result is negative, and keeps the flag |
| `Clock.Millis` | src/platform/portduino/USBHal.h:110-115 | `tv_sec*1000 + tv_usec/1000` over unbounded naturals: for a valid reading, its thousands are `tv_sec` and its remainder `tv_usec/1000` |
| `Clock.Micros` | src/platform/portduino/USBHal.h:117-122 | `tv_sec*1000000 + tv_usec` over unbounded naturals: for a valid reading, it gives back `tv_sec` and `tv_usec` |
| `Clock.MicrosToMillis` | src/platform/portduino/USBHal.h:110-122 | on the same clock reading, `micros / 1000 == millis` |
| `Clock.MicrosMonotone` | src/platform/portduino/USBHal.h:117-122 | for valid readings, `micros(a) <= micros(b)` iff `a` is not later than `b` in `(tv_sec, tv_usec)` order |
| `Clock.MillisMonotone` | src/platform/portduino/USBHal.h:110-115 | for valid readings in order, `millis` never decreases as the reading advances |

## Left out

- `pulseIn` (USBHal.h:124-127) prints a message and then ends a non-`void` function without returning a value. In C++ that is undefined behaviour, so there is no result to model.
- The `libpinedio-usb` driver and the CH341 device are not modelled. Their results are inputs: the init return code, the value read, and the transceive result.
- The bytes the device returns into `in` during `spiTransfer` are not modelled. They are undefined when the transfer fails.
- Interrupt delivery is not modelled. The driver invokes the callback from its own context, and only its registration is recorded.
- The `LOG_DEBUG` lines in `attachInterrupt` and `detachInterrupt` are debug logging and are not modelled. The two `stderr` messages are modelled as events.
- The real durations of `usleep` and `sched_yield`, and the reading of `gettimeofday`, are not modelled. The clock reading is an input, and sleep and yield are events.
- Clock.MicrosMonotone and Clock.MillisMonotone assume the two readings are in order. `gettimeofday` reads the wall clock, which can be set or stepped backwards, so the program itself does not guarantee that a later call to `millis()` or `micros()` returns a larger value. The model also assumes a 64-bit build. On a 32-bit build `unsigned long` is 32 bits, so `millis()` and `micros()` wrap modulo 2^32 (`micros` about every 71.6 minutes, `millis` about every 49.7 days), and the two lemmas do not describe such a build.
- Clock.Millis and Clock.Micros return unbounded naturals of a non-negative `tv_sec`. The 64-bit wrap of `unsigned long` is not modelled. It needs `tv_sec` above about 1.8·10^13 s for `micros`. A negative `time_t` is not modelled either.
- The constructor's four arguments are not modelled, because it ignores them. The `RadioLibHal` base-class constants and the unused `CH341_PIN_CS`/`CH341_PIN_IRQ` defines carry no behaviour.
