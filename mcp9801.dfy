/**
 * The MCP9801 driver class (py-pi-mcp9801.py:28-77): it holds a bus and a
 * device address, writes the default configuration on construction and on
 * reset, decodes the ambient temperature register, and reads and rewrites
 * the resolution bits of the configuration register.
 */
module Mcp9801 {
  import opened Results
  import opened SMBus
  import opened PyInt
  import opened Mcp9801Decode

  /** Why an operation raised: no bus was given, or the bus transfer failed. */
  datatype Error = MissingBus | BusFailure(cause: BusError)

  class MCP9801 {
    /** The bus the driver was given; shared, never closed. */
    const bus: Bus
    /** The device address every transfer uses. */
    const address: int

    /** Binds a driver to its bus and address; `New` is what Python's constructor does. */
    constructor Attach(bus: Bus, address: int)
      ensures this.bus == bus && this.address == address
    {
      this.bus := bus;
      this.address := address;
    }

    /**
     * Construction: refuses a missing bus without touching any bus, takes
     * the given address as it is (no check against `ValidAddresses`) or else
     * the default 0x4F, and resets the device, which is the only transfer.
     */
    static method New(bus: Bus?, address: Option<int>) returns (r: Result<MCP9801, Error>)
      modifies bus
      ensures bus == null ==> r == Err(MissingBus)
      ensures bus != null ==>
        var a := if address.Some? then address.value else 0x4F;
        bus.devices == old(bus.devices) &&
        if a in bus.devices then
          r.Ok? && fresh(r.value) && r.value.bus == bus && r.value.address == a &&
          bus.log == old(bus.log) + [ByteWritten(a, RegConfig, ConfigDefault)] &&
          bus.words == old(bus.words)[(a, RegConfig) := ConfigDefault]
        else
          r == Err(BusFailure(NoAcknowledge(a))) &&
          bus.log == old(bus.log) && bus.words == old(bus.words)
    {
      if bus == null {
        return Err(MissingBus);
      }
      var a: int;
      if address.None? {
        a := ValidAddresses[0];
      } else {
        a := address.value;
      }
      var sensor := new MCP9801.Attach(bus, a);
      var reset := sensor.Reset();
      if reset.Fail? {
        return Err(reset.error);
      }
      return Ok(sensor);
    }

    /**
     * Reset: exactly one transfer, writing 0x60 to the configuration
     * register, which then reads back as 0x60 whatever it held before.
     */
    method Reset() returns (r: Outcome<Error>)
      modifies bus
      ensures bus.devices == old(bus.devices)
      ensures address in bus.devices ==>
        r == Pass &&
        bus.log == old(bus.log) + [ByteWritten(address, RegConfig, ConfigDefault)] &&
        bus.words == old(bus.words)[(address, RegConfig) := ConfigDefault] &&
        bus.WordAt(address, RegConfig) == ConfigDefault
      ensures address !in bus.devices ==>
        r == Fail(BusFailure(NoAcknowledge(address))) &&
        bus.log == old(bus.log) && bus.words == old(bus.words)
    {
      var written := bus.WriteByteData(address, RegConfig, ConfigDefault);
      r := Raised(written);
    }

    /**
     * The temperature property: one read of the ambient temperature register
     * and no write; the result is the decoded count over 256, never negative.
     */
    method Temperature() returns (r: Result<real, Error>)
      modifies bus
      ensures bus.devices == old(bus.devices) && bus.words == old(bus.words)
      ensures address in bus.devices ==>
        var raw := old(bus.WordAt(address, RegAmbientTemp));
        r == Ok(Celsius(raw)) && 0.0 <= r.value <= 0x7FFF as real / 256.0 &&
        bus.log == old(bus.log) + [WordRead(address, RegAmbientTemp, raw)]
      ensures address !in bus.devices ==>
        r == Err(BusFailure(NoAcknowledge(address))) && bus.log == old(bus.log)
    {
      var read := bus.ReadWordData(address, RegAmbientTemp);
      if read.Err? {
        return Err(BusFailure(read.error));
      }
      return Ok(Celsius(read.value));
    }

    /**
     * The resolution getter: one read of the configuration register and no
     * write; it returns the word's two low bits, data mod 4.
     */
    method Resolution() returns (r: Result<nat, Error>)
      modifies bus
      ensures bus.devices == old(bus.devices) && bus.words == old(bus.words)
      ensures address in bus.devices ==>
        var data := old(bus.WordAt(address, RegConfig));
        r == Ok(data % 4) &&
        bus.log == old(bus.log) + [WordRead(address, RegConfig, data)]
      ensures address !in bus.devices ==>
        r == Err(BusFailure(NoAcknowledge(address))) && bus.log == old(bus.log)
    {
      var read := bus.ReadWordData(address, RegConfig);
      if read.Err? {
        return Err(BusFailure(read.error));
      }
      ResolutionOfIsLowBits(read.value);
      return Ok(ResolutionOf(read.value));
    }

    /**
     * The resolution setter: a read of the configuration register followed
     * by one write of the byte that keeps bits 0-4 and 7 of the word read
     * and puts `mode & 0x03` in bits 5-6. A failed read writes nothing.
     */
    method SetResolution(mode: int) returns (r: Outcome<Error>)
      modifies bus
      ensures bus.devices == old(bus.devices)
      ensures address in bus.devices ==>
        var data := old(bus.WordAt(address, RegConfig));
        var written := ConfigWithResolution(data, mode);
        r == Pass &&
        bus.log == old(bus.log) + [WordRead(address, RegConfig, data), ByteWritten(address, RegConfig, written)] &&
        bus.words == old(bus.words)[(address, RegConfig) := written]
      ensures address !in bus.devices ==>
        r == Fail(BusFailure(NoAcknowledge(address))) &&
        bus.log == old(bus.log) && bus.words == old(bus.words)
    {
      var m := And(mode, 0x03);
      var read := bus.ReadWordData(address, RegConfig);
      if read.Err? {
        return Fail(BusFailure(read.error));
      }
      var data: int := read.value;
      data := And(data, 0x9F);
      data := Or(data, Shl(m, 5));
      assert data == ConfigWithResolution(read.value, mode);
      var written := bus.WriteByteData(address, RegConfig, data);
      r := Raised(written);
    }
  }

  /** A bus outcome as the driver's outcome: a bus failure propagates unchanged. */
  function Raised(o: Outcome<BusError>): Outcome<Error>
  {
    match o
    case Pass => Pass
    case Fail(e) => Fail(BusFailure(e))
  }

  /**
   * Setting a resolution and then reading it back on the same bus: the
   * getter reports the two low bits of the configuration word as it was
   * before the setter ran, not the mode just set.
   */
  method SetThenGet(sensor: MCP9801, mode: int) returns (r: Result<nat, Error>)
    modifies sensor.bus
    ensures sensor.bus.devices == old(sensor.bus.devices)
    ensures old(sensor.address in sensor.bus.devices) ==>
      var a := sensor.address;
      var data := old(sensor.bus.WordAt(a, RegConfig));
      var written := ConfigWithResolution(data, mode);
      r == Ok(data % 4) &&
      sensor.bus.words == old(sensor.bus.words)[(a, RegConfig) := written] &&
      sensor.bus.log == old(sensor.bus.log) +
        [WordRead(a, RegConfig, data), ByteWritten(a, RegConfig, written), WordRead(a, RegConfig, written)]
    ensures old(sensor.address !in sensor.bus.devices) ==>
      r == Err(BusFailure(NoAcknowledge(sensor.address))) &&
      sensor.bus.words == old(sensor.bus.words) && sensor.bus.log == old(sensor.bus.log)
  {
    var setting := sensor.SetResolution(mode);
    if setting.Fail? {
      return Err(setting.error);
    }
    ghost var data := old(sensor.bus.WordAt(sensor.address, RegConfig));
    ResolutionUnchangedBySetting(data, mode);
    ResolutionOfIsLowBits(data);
    ResolutionOfIsLowBits(ConfigWithResolution(data, mode));
    r := sensor.Resolution();
  }

  /**
   * A session like the program's own use of the class: a sensor at the
   * default address whose temperature register holds 0x2C01, constructed,
   * set to resolution 2, then read.
   */
  method ExampleSession() {
    var bus := new Bus({0x4F});
    bus.DeviceStores(0x4F, RegAmbientTemp, 0x2C01);
    var made := MCP9801.New(bus, None);
    assert made.Ok?;
    var sensor := made.value;
    assert bus.WordAt(0x4F, RegConfig) == ConfigDefault;
    var setting := sensor.SetResolution(2);
    assert setting == Pass;
    assert bus.WordAt(0x4F, RegAmbientTemp) == 0x2C01;
    DecodeExample();
    var t := sensor.Temperature();
    assert t == Ok(1.171875);
  }

  /**
   * A sensor at a caller-chosen address, reset and then set to mode 3 and
   * read back: the getter reports 0, the low bits of the reset byte 0x60.
   */
  method SetThenGetSession() {
    var bus := new Bus({0x48});
    var made := MCP9801.New(bus, Some(0x48));
    assert made.Ok?;
    var sensor := made.value;
    var reset := sensor.Reset();
    assert bus.WordAt(0x48, RegConfig) == ConfigDefault;
    var got := SetThenGet(sensor, 3);
    assert got == Ok(0);
    assert bus.devices == {0x48};
  }
}
