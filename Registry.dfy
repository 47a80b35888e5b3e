/**
  The process-wide `sensorMap` (main.cpp:120), the discovery loop that fills it
  (main.cpp:122-145), startup (main.cpp:149) and the response to one command
  (main.cpp:156-168).

  The map is a sequence of (name, sensor) pairs in ascending name order, as a
  `std::map` keeps them; `Registered()` is the mapping it stands for.
*/
module Registry {
  import opened Token
  import opened Sensors
  import opened OrderedMap
  import opened Discovery
  import opened Protocol

  /** Sensor `s` was built from candidate `c` and is filed under `k`. */
  predicate Describes(s: PowerCapEnergySensor, k: string, c: Candidate)
    reads s
  {
    s.name == k && s.powercapName == c.fileName &&
    s.sensorType == FloatSensorType && s.lastEnergyReading == c.baseline
  }

  /** What a command can observe of the sensors stored in `entries`. */
  function Snapshot(entries: seq<(string, PowerCapEnergySensor)>): (v: seq<(string, SensorView)>)
    reads set p | p in entries :: p.1
    ensures |v| == |entries|
    ensures forall i :: 0 <= i < |v| ==>
      v[i] == (entries[i].0, SensorView(entries[i].1.sensorType, entries[i].1.ReadValue()))
  {
    if entries == [] then []
    else
      var head := entries[0].1;
      [(entries[0].0, SensorView(head.sensorType, head.ReadValue()))] + Snapshot(entries[1..])
  }

  /** Looking a name up in the snapshot finds the view of the sensor that looking it up
      in the map finds. */
  lemma {:induction false} FindInSnapshot(entries: seq<(string, PowerCapEnergySensor)>, k: string)
    ensures Find(Snapshot(entries), k) ==
      match Find(entries, k)
      case Some(s) => Some(SensorView(s.sensorType, s.ReadValue()))
      case None => None
  {
    if entries != [] {
      assert Snapshot(entries)[1..] == Snapshot(entries[1..]);
      FindInSnapshot(entries[1..], k);
    }
  }

  /** The view of a sorted map is sorted too, and lists exactly the map's names, one
      line per name. */
  lemma SnapshotOfSorted(entries: seq<(string, PowerCapEnergySensor)>)
    requires Sorted(entries)
    ensures Sorted(Snapshot(entries))
    ensures ToMap(Snapshot(entries)).Keys == ToMap(entries).Keys
    ensures |Snapshot(entries)| == |ToMap(entries)|
  {
    var v := Snapshot(entries);
    SortedToMap(entries);
    forall k ensures k in ToMap(v) <==> k in ToMap(entries) {
      ToMapKeys(v, k);
      ToMapKeys(entries, k);
    }
  }

  class SensorRegistry {
    var sensorMap: seq<(string, PowerCapEnergySensor)>

    ghost predicate Valid()
      reads this
    {
      Sorted(sensorMap)
    }

    /** The mapping from sensor names to sensors. */
    function Registered(): map<string, PowerCapEnergySensor>
      reads this
    {
      ToMap(sensorMap)
    }

    /** The registry as the command loop sees it. */
    function View(): seq<(string, SensorView)>
      reads this, set p | p in sensorMap :: p.1
    {
      Snapshot(sensorMap)
    }

    /** What the command loop sees of a valid registry: its names in ascending order,
        exactly the registered ones, once each. */
    lemma ViewMatchesRegistered()
      requires Valid()
      ensures Sorted(View())
      ensures ToMap(View()).Keys == Registered().Keys
      ensures |View()| == |Registered()|
    {
      SnapshotOfSorted(sensorMap);
    }

    /** The static map starts out empty. */
    constructor ()
      ensures Valid() && Registered() == map[]
    {
      sensorMap := [];
    }

    /** `populateSensorMap`: when the root exists, every valid entry gets a new sensor
        built from it, assigned under its name; the last valid entry of a name wins.
        Names not discovered keep the sensor they had. */
    method PopulateSensorMap(rootExists: bool, dir: seq<Candidate>)
      requires Valid()
      modifies this
      ensures Valid()
      ensures Registered().Keys == old(Registered()).Keys + Discover(rootExists, dir).Keys
      ensures forall k :: k in old(Registered()) && k !in Discover(rootExists, dir) ==>
                Registered()[k] == old(Registered())[k]
      ensures forall k :: k in Discover(rootExists, dir) ==>
                fresh(Registered()[k]) && Describes(Registered()[k], k, Discover(rootExists, dir)[k])
    {
      if !rootExists {
        return;
      }
      for i := 0 to |dir|
        invariant Valid()
        invariant Registered().Keys == old(Registered()).Keys + Selected(dir[..i]).Keys
        invariant forall k :: k in old(Registered()) && k !in Selected(dir[..i]) ==>
                    Registered()[k] == old(Registered())[k]
        invariant forall k :: k in Selected(dir[..i]) ==>
                    fresh(Registered()[k]) && Describes(Registered()[k], k, Selected(dir[..i])[k])
      {
        var dirEntry := dir[i];
        assert dir[..i + 1][..i] == dir[..i];
        if !dirEntry.isDirectory {
          continue;
        }
        if !dirEntry.hasEnergyFile || !dirEntry.hasNameFile {
          continue;
        }
        var sensorName := FirstToken(dirEntry.nameContents);
        ghost var before := Registered();
        forall k | k in before ensures allocated(before[k]) {
          ToMapEntry(sensorMap, k);
        }
        var newSensor := new PowerCapEnergySensor(dirEntry.fileName, sensorName, dirEntry.baseline);
        sensorMap := Put(sensorMap, sensorName, newSensor);
        assert Registered() == before[sensorName := newSensor];
        assert Selected(dir[..i + 1]) == Selected(dir[..i])[sensorName := dirEntry];
      }
      assert dir[..|dir|] == dir;
    }

    /** The response to one command token, computed by iterating the map for `monitors`
        and by one lookup otherwise; it changes nothing. */
    method HandleCommand(command: string) returns (lines: seq<Line>)
      ensures lines == Dispatch(command, View())
    {
      if command == MONITORS {
        lines := [];
        for i := 0 to |sensorMap|
          invariant |lines| == i
          invariant forall j :: 0 <= j < i ==>
                      lines[j] == Listing(sensorMap[j].0, StringRep(sensorMap[j].1.sensorType))
        {
          var sensorEntry := sensorMap[i];
          lines := lines + [Listing(sensorEntry.0, StringRep(sensorEntry.1.sensorType))];
        }
      } else {
        FindInSnapshot(sensorMap, command);
        match Find(sensorMap, command)
        case Some(sensor) =>
          lines := [Value(sensor.ReadValue())];
        case None =>
          lines := [];
      }
    }
  }

  /** Startup (main.cpp:149): discovery into the empty static map. */
  method Startup(rootExists: bool, dir: seq<Candidate>) returns (registry: SensorRegistry)
    ensures fresh(registry) && registry.Valid()
    ensures registry.Registered().Keys == Discover(rootExists, dir).Keys
    ensures forall k :: k in Discover(rootExists, dir) ==>
              fresh(registry.Registered()[k]) &&
              Describes(registry.Registered()[k], k, Discover(rootExists, dir)[k])
    ensures !rootExists ==> registry.View() == []
    ensures forall i :: 0 <= i < |registry.View()| ==> registry.View()[i].1.sensorType == FloatSensorType
  {
    registry := new SensorRegistry();
    registry.PopulateSensorMap(rootExists, dir);
    registry.ViewMatchesRegistered();
    SortedToMap(registry.sensorMap);
  }
}
