/** What the adapter can do to the outside world: calls into the
    libpinedio-usb driver, the two scheduler calls, and the lines it writes
    to standard error. The driver itself is not modelled; its results are
    inputs recorded in the events that produced them. */
module Pinedio {
  import opened CTypes

  /** Identity of the `void (*)(void)` callback handed to the driver. */
  type Callback = nat

  /** The driver options the adapter sets (PINEDIO_OPTION_AUTO_CS). */
  datatype PinedioOption = AutoCs

  datatype Event =
    | PinedioInit(ret: int32)                   // pinedio_init, which returned `ret`
    | PinedioDeinit
    | PinedioSetOption(option: PinedioOption, setting: int)
    | PinedioSetPinMode(pin: uint32, mode: uint32)
    | PinedioDigitalWrite(pin: uint32, value: uint32)
    | PinedioDigitalRead(pin: uint32)
    | PinedioAttachInterrupt(pin: uint32, mode: uint32, callback: Callback)
    | PinedioDeattachInterrupt(pin: uint32)
    | PinedioTransceive(out: seq<uint8>, result: int32)  // bytes shifted out, driver's result
    | SchedYield
    | Usleep(usec: uint32)
    | OpenFailedMessage(ret: int32)             // "Could not open SPI" on stderr
    | TransferFailedMessage(result: int32)      // "Could not perform SPI transfer" on stderr
  {
    /** The event is a GPIO or interrupt call on pin `p`. */
    predicate Names(p: uint32) {
      (PinedioSetPinMode? || PinedioDigitalWrite? || PinedioDigitalRead?
       || PinedioAttachInterrupt? || PinedioDeattachInterrupt?) && pin == p
    }
  }
}
