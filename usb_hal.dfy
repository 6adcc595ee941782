/** The Ch341Hal adapter: RadioLib's hardware interface served by a CH341 USB
    bridge through libpinedio-usb. The object holds only the open flag of
    its driver handle; the ghost `trace` is everything it has issued to the
    driver, the scheduler and standard error, and the ghost `history` the
    calls made on it, from which `HalSpec` determines both. */
module UsbHal {
  import opened CTypes
  import opened Pinedio
  import RadioLib
  import opened HalSpec

  class Ch341Hal {
    var pinedioIsInit: bool
    ghost var trace: seq<Event>
    ghost var history: seq<Op>

    /** The flag and the trace are those the history of calls produces. */
    ghost predicate Valid()
      reads this
    {
      pinedioIsInit == OpenAfter(history) && trace == TraceOf(history)
    }

    /** The constructor's arguments are unused; the handle starts closed. */
    constructor ()
      ensures Valid() && history == []
      ensures !pinedioIsInit && trace == []
    {
      pinedioIsInit := false;
      trace := [];
      history := [];
    }

    /** Record `op` as the latest call, once the flag and the trace reflect it. */
    ghost method Record(op: Op)
      requires pinedioIsInit == NextOpen(OpenAfter(history), op)
      requires trace == TraceOf(history) + Effects(OpenAfter(history), op)
      modifies this`history
      ensures Valid() && history == old(history) + [op]
    {
      TraceOfSnoc(history, op);
      history := history + [op];
    }

    method Init(ret: int32)
      requires Valid()
      modifies this
      ensures Valid() && history == old(history) + [Op.SpiBegin(ret)]
      ensures old(pinedioIsInit) ==> pinedioIsInit && trace == old(trace)
      ensures !old(pinedioIsInit) ==> pinedioIsInit == (ret == 0)
      ensures !old(pinedioIsInit) && ret != 0 ==> trace == old(trace) + [PinedioInit(ret), OpenFailedMessage(ret)]
      ensures !old(pinedioIsInit) && ret == 0 ==> trace == old(trace) + [PinedioInit(0)] + ConfigCalls
    {
      SpiBegin(ret);
    }

    method Term()
      requires Valid()
      modifies this
      ensures Valid() && history == old(history) + [Op.SpiEnd]
      ensures !pinedioIsInit
      ensures trace == old(trace) + (if old(pinedioIsInit) then [PinedioDeinit] else [])
    {
      SpiEnd();
    }

    method PinMode(pin: uint32, mode: uint32)
      requires Valid()
      modifies this
      ensures Valid() && history == old(history) + [Op.PinMode(pin, mode)]
      ensures pinedioIsInit == old(pinedioIsInit)
      ensures pin == RadioLib.NC ==> trace == old(trace)
      ensures pin != RadioLib.NC ==> trace == old(trace) + [PinedioSetPinMode(pin, mode)]
    {
      if pin == RadioLib.NC {
        Record(Op.PinMode(pin, mode));
        return;
      }
      trace := trace + [PinedioSetPinMode(pin, mode)];
      Record(Op.PinMode(pin, mode));
    }

    method DigitalWrite(pin: uint32, value: uint32)
      requires Valid()
      modifies this
      ensures Valid() && history == old(history) + [Op.DigitalWrite(pin, value)]
      ensures pinedioIsInit == old(pinedioIsInit)
      ensures pin == RadioLib.NC ==> trace == old(trace)
      ensures pin != RadioLib.NC ==> trace == old(trace) + [PinedioDigitalWrite(pin, value)]
    {
      if pin == RadioLib.NC {
        Record(Op.DigitalWrite(pin, value));
        return;
      }
      trace := trace + [PinedioDigitalWrite(pin, value)];
      Record(Op.DigitalWrite(pin, value));
    }

    /** `driverValue` is what `pinedio_digital_read` returns, converted to
        `uint32_t`, should it be called. */
    method DigitalRead(pin: uint32, driverValue: uint32) returns (v: uint32)
      requires Valid()
      modifies this
      ensures Valid() && history == old(history) + [Op.DigitalRead(pin, driverValue)]
      ensures pinedioIsInit == old(pinedioIsInit)
      ensures pin == RadioLib.NC ==> v == 0 && trace == old(trace)
      ensures pin != RadioLib.NC ==> v == driverValue && trace == old(trace) + [PinedioDigitalRead(pin)]
    {
      if pin == RadioLib.NC {
        Record(Op.DigitalRead(pin, driverValue));
        return 0;
      }
      trace := trace + [PinedioDigitalRead(pin)];
      Record(Op.DigitalRead(pin, driverValue));
      v := driverValue;
    }

    /** Registers `callback` with the driver; the driver, not the adapter,
        later invokes it. */
    method AttachInterrupt(pin: uint32, callback: Callback, mode: uint32)
      requires Valid()
      modifies this
      ensures Valid() && history == old(history) + [Op.AttachInterrupt(pin, callback, mode)]
      ensures pinedioIsInit == old(pinedioIsInit)
      ensures pin == RadioLib.NC ==> trace == old(trace)
      ensures pin != RadioLib.NC ==> trace == old(trace) + [PinedioAttachInterrupt(pin, mode, callback)]
    {
      if pin == RadioLib.NC {
        Record(Op.AttachInterrupt(pin, callback, mode));
        return;
      }
      trace := trace + [PinedioAttachInterrupt(pin, mode, callback)];
      Record(Op.AttachInterrupt(pin, callback, mode));
    }

    method DetachInterrupt(pin: uint32)
      requires Valid()
      modifies this
      ensures Valid() && history == old(history) + [Op.DetachInterrupt(pin)]
      ensures pinedioIsInit == old(pinedioIsInit)
      ensures pin == RadioLib.NC ==> trace == old(trace)
      ensures pin != RadioLib.NC ==> trace == old(trace) + [PinedioDeattachInterrupt(pin)]
    {
      if pin == RadioLib.NC {
        Record(Op.DetachInterrupt(pin));
        return;
      }
      trace := trace + [PinedioDeattachInterrupt(pin)];
      Record(Op.DetachInterrupt(pin));
    }

    method Delay(ms: uint64)
      requires Valid()
      modifies this
      ensures Valid() && history == old(history) + [Op.Delay(ms)]
      ensures pinedioIsInit == old(pinedioIsInit)
      ensures ms == 0 ==> trace == old(trace) + [SchedYield]
      ensures ms != 0 ==> trace == old(trace) + [Usleep(ToUseconds(MulULong(ms, 1000)))]
      ensures 0 < ms <= MaxExactDelayMs ==> trace == old(trace) + [Usleep(ms * 1000)]
    {
      if ms == 0 {
        trace := trace + [SchedYield];
        Record(Op.Delay(ms));
        return;
      }
      trace := trace + [Usleep(ToUseconds(MulULong(ms, 1000)))];
      Record(Op.Delay(ms));
      if ms <= MaxExactDelayMs {
        DelayFits(ms);
      }
    }

    method DelayMicroseconds(us: uint64)
      requires Valid()
      modifies this
      ensures Valid() && history == old(history) + [Op.DelayMicroseconds(us)]
      ensures pinedioIsInit == old(pinedioIsInit)
      ensures us == 0 ==> trace == old(trace) + [SchedYield]
      ensures us != 0 ==> trace == old(trace) + [Usleep(ToUseconds(us))]
      ensures 0 < us < U32_LIMIT ==> trace == old(trace) + [Usleep(us)]
    {
      if us == 0 {
        trace := trace + [SchedYield];
        Record(Op.DelayMicroseconds(us));
        return;
      }
      trace := trace + [Usleep(ToUseconds(us))];
      Record(Op.DelayMicroseconds(us));
      if us < U32_LIMIT {
        MicrosecondsFit(us);
      }
    }

    method Yield()
      requires Valid()
      modifies this
      ensures Valid() && history == old(history) + [Op.Yield]
      ensures pinedioIsInit == old(pinedioIsInit)
      ensures trace == old(trace) + [SchedYield]
    {
      trace := trace + [SchedYield];
      Record(Op.Yield);
    }

    /** `ret` is what `pinedio_init` returns, should it be called. */
    method SpiBegin(ret: int32)
      requires Valid()
      modifies this
      ensures Valid() && history == old(history) + [Op.SpiBegin(ret)]
      ensures old(pinedioIsInit) ==> pinedioIsInit && trace == old(trace)
      ensures !old(pinedioIsInit) ==> pinedioIsInit == (ret == 0)
      ensures !old(pinedioIsInit) && ret != 0 ==> trace == old(trace) + [PinedioInit(ret), OpenFailedMessage(ret)]
      ensures !old(pinedioIsInit) && ret == 0 ==> trace == old(trace) + [PinedioInit(0)] + ConfigCalls
    {
      if !pinedioIsInit {
        ghost var before := trace;
        trace := trace + [PinedioInit(ret)];
        if ret != 0 {
          trace := trace + [OpenFailedMessage(ret)];
        } else {
          pinedioIsInit := true;
          trace := trace + [PinedioSetOption(AutoCs, 0)];
          trace := trace + [PinedioSetPinMode(3, ModeTrue)];
          trace := trace + [PinedioSetPinMode(5, ModeTrue)];
          assert trace == before + [PinedioInit(0)] + ConfigCalls;
        }
      }
      assert Effects(OpenAfter(history), Op.SpiBegin(ret)) == BeginEffects(old(pinedioIsInit), ret);
      Record(Op.SpiBegin(ret));
    }

    method SpiBeginTransaction()
      requires Valid()
      modifies this
      ensures Valid() && history == old(history) + [Op.SpiBeginTransaction]
      ensures pinedioIsInit == old(pinedioIsInit) && trace == old(trace)
    {
      Record(Op.SpiBeginTransaction);
    }

    /** Shifts out the first `len` bytes of `out`; `result` is what
        `pinedio_transceive` returns. */
    method SpiTransfer(out: seq<uint8>, len: nat, result: int32)
      requires Valid()
      requires len <= |out|
      modifies this
      ensures Valid() && history == old(history) + [Op.SpiTransfer(out[..len], result)]
      ensures pinedioIsInit == old(pinedioIsInit)
      ensures result < 0 ==> trace == old(trace) + [PinedioTransceive(out[..len], result), TransferFailedMessage(result)]
      ensures result >= 0 ==> trace == old(trace) + [PinedioTransceive(out[..len], result)]
    {
      trace := trace + [PinedioTransceive(out[..len], result)];
      if result < 0 {
        trace := trace + [TransferFailedMessage(result)];
      }
      Record(Op.SpiTransfer(out[..len], result));
    }

    method SpiEndTransaction()
      requires Valid()
      modifies this
      ensures Valid() && history == old(history) + [Op.SpiEndTransaction]
      ensures pinedioIsInit == old(pinedioIsInit) && trace == old(trace)
    {
      Record(Op.SpiEndTransaction);
    }

    method SpiEnd()
      requires Valid()
      modifies this
      ensures Valid() && history == old(history) + [Op.SpiEnd]
      ensures !pinedioIsInit
      ensures trace == old(trace) + (if old(pinedioIsInit) then [PinedioDeinit] else [])
    {
      if pinedioIsInit {
        trace := trace + [PinedioDeinit];
        pinedioIsInit := false;
      }
      Record(Op.SpiEnd);
    }
  }
}
