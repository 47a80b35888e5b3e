/**
  The sensor objects of main.cpp:38-118: the type tag, and `PowerCapEnergySensor`,
  whose two mutable fields the refresh thread updates once per second.

  Reading the counter file and the clock (`readEnergyValue`, main.cpp:78-85) is
  outside the model: every reading arrives as an `EnergyReading` value.
*/
module Sensors {
  import opened Energy

  /** `SensorType` and its two subclasses; discovery only ever builds the float kind. */
  datatype SensorType = IntegerSensorType | FloatSensorType

  /** `getStringRep`: the type column of the `monitors` listing. */
  function StringRep(t: SensorType): (r: string)
    ensures r == "float" <==> t == FloatSensorType
    ensures r == "integer" <==> t == IntegerSensorType
  {
    match t
    case IntegerSensorType => "integer"
    case FloatSensorType => "float"
  }

  class PowerCapEnergySensor {
    /** Directory name under the powercap root; `const` in the source. */
    const powercapName: string
    /** Display name, also the registry key; assigned once, by the constructor. */
    const name: string
    const sensorType: SensorType
    var lastEnergyReading: EnergyReading
    /** Whole watts. The constructor leaves it unassigned, as the source does: until
        the first tick it holds whatever value the object was created with. */
    var lastPowerMeasurement: nat

    /** Construction records the baseline reading taken by `readEnergyValue()`;
        starting the refresh thread is outside the model. */
    constructor (pcapName: string, sensorName: string, baseline: EnergyReading)
      ensures powercapName == pcapName && name == sensorName
      ensures sensorType == FloatSensorType
      ensures lastEnergyReading == baseline
    {
      powercapName := pcapName;
      name := sensorName;
      sensorType := FloatSensorType;
      lastEnergyReading := baseline;
    }

    /** One pass of the refresh loop after its one-second sleep: the power over the
        interval since the previous reading is published, then the new reading
        replaces the previous one. */
    method Tick(newReading: EnergyReading)
      modifies this
      ensures lastPowerMeasurement == CalculatePowerUse(old(lastEnergyReading), newReading)
      ensures lastEnergyReading == newReading
    {
      lastPowerMeasurement := CalculatePowerUse(lastEnergyReading, newReading);
      lastEnergyReading := newReading;
    }

    /** `readValue`: the latest published power (its decimal rendering is outside the model). */
    function ReadValue(): nat
      reads this
    {
      lastPowerMeasurement
    }
  }

  /** A caller's view of two ticks: the 1,000,000 uJ at t = 0 baseline, then 3,500,000 uJ
      at t = 2 publishes 1, and the same sample again publishes 0; the names never change. */
  method RefreshTrace() returns (first: nat, second: nat)
    ensures first == 1 && second == 0
  {
    var s := new PowerCapEnergySensor("intel-rapl:0", "package-0", EnergyReading(1_000_000, 0));
    s.Tick(EnergyReading(3_500_000, 2));
    first := s.ReadValue();
    s.Tick(EnergyReading(3_500_000, 2));
    second := s.ReadValue();
    assert s.name == "package-0" && s.powercapName == "intel-rapl:0";
  }
}
