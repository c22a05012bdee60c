/**
 * The shift-register control byte of the node firmware
 * (sunlight/src/control_register.cpp): bits 0-1 select the serial
 * communication channel, bits 2-4 the configuration channel.  Every change is
 * handed to an installed callback that clocks the byte out to the hardware;
 * the model records the sequence of bytes handed over in `written`.
 */
module ControlRegister {
  import opened SkyUtility

  const ComMask: Byte := 0x03
  const ConfigMask: Byte := 0x1C

  class ControlRegister {
    /** `m_buffer`. */
    var buffer: Byte
    /** Whether `set_register` has installed a callback. */
    var installed: bool
    /** Every value passed to the callback, oldest first. */
    var written: seq<Byte>

    constructor ()
      ensures buffer == 0 && !installed && written == []
    {
      buffer := 0;
      installed := false;
      written := [];
    }

    /**
     * `set_register`.  Calling an empty `std::function` throws, so the setters
     * below require a callback to be installed.
     */
    method SetRegister()
      modifies this
      ensures installed && buffer == old(buffer) && written == old(written)
    {
      installed := true;
    }

    /** `set_com_channel`: bits 0-1 take the low bits of `ch`, then the byte is sent. */
    method SetComChannel(ch: Byte)
      requires installed
      modifies this
      ensures buffer & ComMask == ch & ComMask
      ensures buffer & !ComMask == old(buffer) & !ComMask
      ensures buffer == SetBitLevel(old(buffer), ComMask, ch)
      ensures written == old(written) + [buffer] && installed
    {
      buffer := SetBitLevel(buffer, ComMask, ch);
      written := written + [buffer];
    }

    /** `set_config_channel`: bits 2-4 take the low three bits of `ch`, then the byte is sent. */
    method SetConfigChannel(ch: Byte)
      requires installed
      modifies this
      ensures (buffer & ConfigMask) >> 2 == ch & 0x07
      ensures buffer & !ConfigMask == old(buffer) & !ConfigMask
      ensures buffer == SetBitLevel(old(buffer), ConfigMask, ch << 2)
      ensures written == old(written) + [buffer] && installed
    {
      buffer := SetBitLevel(buffer, ConfigMask, ch << 2);
      written := written + [buffer];
    }
  }

  /** Setting one channel field never disturbs the other. */
  lemma ChannelFieldsIndependent(reg: Byte, com: Byte, config: Byte)
    ensures SetBitLevel(SetBitLevel(reg, ConfigMask, config << 2), ComMask, com) & ComMask == com & ComMask
    ensures (SetBitLevel(SetBitLevel(reg, ComMask, com), ConfigMask, config << 2) & ConfigMask) >> 2 == config & 0x07
    ensures (SetBitLevel(SetBitLevel(reg, ConfigMask, config << 2), ComMask, com) & ConfigMask) >> 2 == config & 0x07
  {
  }

  /** The two setters touch disjoint bits, so their order does not matter. */
  lemma ChannelSettersCommute(reg: Byte, com: Byte, config: Byte)
    ensures SetBitLevel(SetBitLevel(reg, ConfigMask, config << 2), ComMask, com)
         == SetBitLevel(SetBitLevel(reg, ComMask, com), ConfigMask, config << 2)
  {
  }

  /** The documented ranges, com channel 0-3 and config channel 0-7, fit their fields exactly. */
  lemma DocumentedRangesFit(com: Byte, config: Byte)
    ensures com < 4 <==> com & ComMask == com
    ensures config < 8 <==> ((config << 2) & ConfigMask) >> 2 == config
  {
  }
}
