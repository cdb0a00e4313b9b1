/**
 * Success-or-error values, used for the exceptions the driver and its bus
 * raise.
 */
module Results {
  datatype Option<T> = None | Some(value: T)

  datatype Result<T, E> = Ok(value: T) | Err(error: E)

  datatype Outcome<E> = Pass | Fail(error: E)
}

/**
 * The SMBus transport the driver is handed, as a stand-in: a device-side map
 * from (device address, register) to the 16-bit word a Read Word transfer
 * returns, the set of device addresses that acknowledge, and a log of the
 * transfers that completed. Only the two operations the driver calls exist:
 * `read_word_data` and `write_byte_data`.
 */
module SMBus {
  import opened Results

  type Byte = b: int | 0 <= b < 0x100
  type Word = w: int | 0 <= w < 0x10000

  /** A completed transfer: what was written, or what was read back. */
  datatype Transfer =
    | ByteWritten(address: int, register: int, value: Byte)
    | WordRead(address: int, register: int, word: Word)

  /** The transport's failure (an IOError in Python): nothing acknowledged the address. */
  datatype BusError = NoAcknowledge(address: int)

  class Bus {
    /** Device addresses that acknowledge a transfer. */
    var devices: set<int>
    /** The word a Read Word transfer returns, per (address, register); a register never stored reads as 0. */
    var words: map<(int, int), Word>
    /** Every completed transfer, oldest first. */
    var log: seq<Transfer>

    constructor (devices: set<int>)
      ensures this.devices == devices && words == map[] && log == []
    {
      this.devices := devices;
      words := map[];
      log := [];
    }

    /** The word a Read Word transfer from `register` at `address` returns now. */
    function WordAt(address: int, register: int): Word
      reads this
    {
      if (address, register) in words then words[(address, register)] else 0
    }

    /**
     * The device side of the bus: the sensor itself stores a word in one of
     * its registers (a new conversion result, say). No transfer takes place,
     * so nothing is logged.
     */
    method DeviceStores(address: int, register: int, word: Word)
      modifies this
      ensures words == old(words)[(address, register) := word]
      ensures devices == old(devices) && log == old(log)
    {
      words := words[(address, register) := word];
    }

    /** SMBus Read Word: the word stored for the register, or a failure when nothing acknowledges. */
    method ReadWordData(address: int, register: int) returns (r: Result<Word, BusError>)
      modifies this
      ensures devices == old(devices) && words == old(words)
      ensures address in devices ==>
        r == Ok(old(WordAt(address, register))) &&
        log == old(log) + [WordRead(address, register, r.value)]
      ensures address !in devices ==> r == Err(NoAcknowledge(address)) && log == old(log)
    {
      if address in devices {
        r := Ok(WordAt(address, register));
        log := log + [WordRead(address, register, r.value)];
      } else {
        r := Err(NoAcknowledge(address));
      }
    }

    /**
     * SMBus Write Byte: the register then holds the byte, and a later Read
     * Word returns it with a zero high byte.
     */
    method WriteByteData(address: int, register: int, value: Byte) returns (r: Outcome<BusError>)
      modifies this
      ensures devices == old(devices)
      ensures address in devices ==>
        r == Pass &&
        words == old(words)[(address, register) := value] &&
        log == old(log) + [ByteWritten(address, register, value)]
      ensures address !in devices ==>
        r == Fail(NoAcknowledge(address)) && words == old(words) && log == old(log)
    {
      if address in devices {
        words := words[(address, register) := value];
        log := log + [ByteWritten(address, register, value)];
        r := Pass;
      } else {
        r := Fail(NoAcknowledge(address));
      }
    }
  }
}
