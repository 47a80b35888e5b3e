# ksysguardd-powercap in Dafny

ksysguardd-powercap is a small daemon that speaks the ksysguardd text protocol.
At startup it scans the Linux powercap root (`/sys/class/powercap`). Each
subdirectory that holds both an `energy_uj` counter and a `name` file becomes a
sensor, filed by name in a `std::map`. Every sensor has a background thread.
Once a second that thread reads the counter again and turns the last two
readings into a power value. The main loop then reads one token at a time from
standard input:

- `monitors` lists every sensor as `name<TAB>float`;
- the exact name of a sensor prints that sensor's current value;
- any other token prints nothing.

This project models the logic beneath that I/O, and proves its properties:

- `Energy` — the energy-to-power arithmetic of `calculatePowerUse`. It models
  the unsigned 64-bit subtraction, the truncation to whole joules and the
  integer division by whole seconds.
- `Sensors` — the sensor type tag and the `PowerCapEnergySensor` class. Its
  constructor takes the baseline reading, and `Tick` is one pass of the
  refresh loop.
- `Token` — the one-token read `stream >> string` that the name file goes
  through.
- `OrderedMap` — the `std::map<string, Sensor *>`. It keeps a sequence of
  pairs in ascending key order, so that iteration order is explicit.
- `Discovery` — a plain-mapping specification of what discovery registers.
- `Protocol` — the response to one command, as a function of the token and the
  registry.
- `Registry` — the registry class, with the discovery loop `PopulateSensorMap`
  and the command step `HandleCommand`. Each method is proved against the
  matching specification.

One Dafny `char` stands for one byte of a name file or command. With that reading,
`Token.IsSpace` is the C locale's `isspace`, and `OrderedMap.Less` is the order of
`std::string::operator<`, which compares characters as `unsigned char`.

Discovery does not walk a real directory. It is given the list of entries the
walk would visit. Each entry says whether it is a directory, whether
`energy_uj` and `name` exist, what the name file holds, and which reading the
new sensor's constructor takes. Counter readings and clock values arrive as
numbers.

## Behaviour as written

Where the intended design and `main.cpp` differ, the model follows `main.cpp`:

- The name key is the first white-space-delimited token of the name file
  (`>>` at main.cpp:24), not the whole trimmed file. A name file holding
  `a b` gives the key `a`, and one holding only white space gives the empty
  key.
- Power is `floor(floor(delta_uj / 10^6) / seconds)`. So 1,000,000 µJ at
  t = 0 followed by 3,500,000 µJ at t = 2 gives 1, not 1.25
  (`Energy.WorkedExample`, `Energy.PowerIsFlooredAverage`).
- A counter that goes down wraps modulo 2^64. The result is a very large
  spike, never a negative value (`Energy.DecreasingCounterWraps`).
- `monitors` lists sensors in ascending name order, because `std::map` is
  ordered (`Protocol.MonitorsListsRegistryInOrder`).
- The constructor (main.cpp:107-115) never assigns `lastPowerMeasurement`.
  A value read before the first tick is therefore whatever the member held.
  The model leaves the field unassigned too, so the verifier treats it as an
  arbitrary value until `Tick` sets it.
- A sensor named `monitors` can be listed but never queried, because the
  `monitors` test comes first.

## Model

| member | source | states |
|---|---|---|
| `Energy.WrappingSub` | main.cpp:89 | the unsigned difference d satisfies (b + d) mod 2^64 = a, and equals a - b when b <= a |
| `Energy.WrappingSubUnique` | main.cpp:89 | that difference is the only 64-bit value with this property |
| `Energy.EnergyDeltaUj` | main.cpp:89 | the microjoule delta is the unsigned difference new − old, so `WrappingSub`'s contract applies to it |
| `Energy.TimeDiff` | main.cpp:90 | the interval is the new timestamp minus the old, in whole seconds |
| `Energy.EnergyDiffJoules` | main.cpp:89 | `energyDiff` is the microjoule delta truncated to whole joules: j·10^6 <= delta < (j+1)·10^6 |
| `Energy.CalculatePowerUse` | main.cpp:87-94 | 0 when the time difference is <= 0; otherwise the floor of joules per second (p·t <= j < (p+1)·t); never more than the joules |
| `Energy.NonPositiveIntervalYieldsZero` | main.cpp:90-92 | a sample no later than the previous one gives 0, whatever the energy values are |
| `Energy.PowerIsFlooredAverage` | main.cpp:89-93 | with t >= 1 seconds the result p satisfies p·10^6·t <= delta < (p+1)·10^6·t, i.e. the floor of the average watts |
| `Energy.SteadyDrawIsExact` | main.cpp:89-93 | a delta of exactly w·t·10^6 µJ over t >= 1 seconds is reported as w |
| `Energy.SubJouleDeltaYieldsZero` | main.cpp:89 | a delta below one joule is reported as 0, whatever the interval |
| `Energy.DecreasingCounterWraps` | main.cpp:89 | a decreasing counter gives delta 2^64 - (old - new), and at least (2^64 - old) div 10^6 joules |
| `Energy.PowerIgnoresCounterOffset` | main.cpp:89-93 | shifting both counters by the same amount modulo 2^64 leaves the power unchanged: only the delta and the interval matter |
| `Energy.WorkedExample` | main.cpp:87-94 | (1,000,000 µJ, t=0) then (3,500,000 µJ, t=2) gives 1; repeating the last sample gives 0 |
| `Sensors.StringRep` | main.cpp:44-54 | `getStringRep`: "float" exactly for the float kind, "integer" exactly for the integer kind |
| `Sensors.PowerCapEnergySensor.constructor` | main.cpp:107-115 | the new sensor holds the given directory name, display name, the float type and the baseline reading; the power field is left unassigned |
| `Sensors.PowerCapEnergySensor.Tick` | main.cpp:100-102 | after one tick the power is `CalculatePowerUse(old reading, new reading)` and the reading is the new one; the names and type are constants |
| `Sensors.PowerCapEnergySensor.ReadValue` | main.cpp:117 | `readValue` reports the power field, which `Tick` sets to the power over the last interval |
| `Sensors.RefreshTrace` | main.cpp:96-104 | a caller sees 1 after the worked example's second sample and 0 after repeating it |
| `Token.FirstToken` | main.cpp:20-27 | the token holds no white space, is empty exactly when the text is all white space, starts right after the leading white space and ends at white space or the end of the text |
| `Token.IsSpace` | main.cpp:24 | the white space that `>>` skips and stops at: the C locale's `isspace` (blank and `\t` to `\r`) |
| `Token.TokenOfField` | main.cpp:24 | white space, a token, then white space or the end reads back as exactly that token (`package-0\n` gives `package-0`) |
| `Token.LeadingSpaceIgnored` | main.cpp:24 | leading white space never changes the token read |
| `Token.FirstTokenIdempotent` | main.cpp:24 | reading a token from a token gives it back |
| `OrderedMap.LessIrreflexive` | main.cpp:120 | string order is irreflexive |
| `OrderedMap.LessTransitive` | main.cpp:120 | string order is transitive |
| `OrderedMap.LessTotal` | main.cpp:120 | any two different strings are ordered one way or the other |
| `OrderedMap.Less` | main.cpp:120 | the key order of the map: lexicographic, character by character (its properties are the lemmas around it) |
| `OrderedMap.LessPrefix` | main.cpp:120 | a proper prefix comes before each of its extensions |
| `OrderedMap.ToMap` | main.cpp:120 | the mapping a sequence of pairs stands for; its keys and entries are stated by `ToMapKeys` and `ToMapEntry` |
| `OrderedMap.ToMapKeys` | main.cpp:120 | a key is in the map exactly when some pair of the sequence carries it |
| `OrderedMap.ToMapEntry` | main.cpp:120 | every entry of the map is a pair of the sequence |
| `OrderedMap.SortedToMap` | main.cpp:120 | a sorted sequence has distinct keys: as many map entries as pairs, each pair being the entry for its key |
| `OrderedMap.Find` | main.cpp:163-165 | `contains` succeeds exactly for keys in the map, and `at` returns the mapped value |
| `OrderedMap.Put` | main.cpp:143 | `m[k] = v` gives the map updated at k, adds no other key, and keeps the keys ascending |
| `Discovery.IsValid` | main.cpp:132-137 | an entry passes both `continue` guards: it is a directory and holds both `energy_uj` and `name` |
| `Discovery.SensorName` | main.cpp:140 | the key is a white-space-free token, empty exactly when the name file holds only white space |
| `Discovery.Selected` | main.cpp:131-143 | the loop as a fold over the entries: each valid entry assigned under its name, in visiting order (stated by `SelectedKeys` and `SelectedIsLastWriter`) |
| `Discovery.Discover` | main.cpp:125-143 | nothing when the root is missing; otherwise the names are exactly those of the valid entries |
| `Discovery.MissingRootRegistersNothing` | main.cpp:125-129 | a missing powercap root registers no sensor |
| `Discovery.SelectedKeys` | main.cpp:131-143 | the registered names are exactly the names of the entries that are directories holding both `energy_uj` and `name` |
| `Discovery.LastWriter` | main.cpp:131-143 | the position of the last entry that is valid and named k, or -1: no later entry is |
| `Discovery.SelectedIsLastWriter` | main.cpp:132-143 | a name is registered exactly when some valid entry carries it, and the registered entry is the last such one (later entries overwrite earlier ones) |
| `Discovery.SelectedSize` | main.cpp:131-143 | at most one sensor per valid entry, and exactly as many sensors as valid entries when their names are distinct |
| `Discovery.DiscoveredNamesAreTokens` | main.cpp:140 | every registered name is one white-space-free token, empty exactly when its name file held only white space |
| `Protocol.Dispatch` | main.cpp:157-168 | `monitors` gives one line per entry; any other token gives one value line when it is a registered name and nothing otherwise, the value being that sensor's |
| `Protocol.Listings` | main.cpp:158-161 | the `monitors` loop: one `Listing(name, StringRep(type))` per entry, in map order (stated by `MonitorsListsRegistryInOrder`) |
| `Protocol.MonitorsListsRegistryInOrder` | main.cpp:157-162 | `monitors` prints one `name`/`float` line per registry entry, covering every name, in strictly ascending name order |
| `Protocol.MonitorsShadowsSensorOfThatName` | main.cpp:157-165 | the response to `monitors` is only listing lines, even when a sensor is named `monitors` |
| `Protocol.ValueOrNothing` | main.cpp:163-168 | any other token prints the value of the sensor registered under exactly that name, and nothing when there is none |
| `Protocol.EmptyRegistryIsSilent` | main.cpp:157-168 | with no sensors every command, `monitors` included, prints nothing |
| `Protocol.ListedNameReadsBack` | main.cpp:160 | documentation of the output format, not a promise of the daemon: a client splitting a listing line at white space gets a non-empty token name back |
| `Registry.Snapshot` | main.cpp:160-165 | what a command sees of each stored sensor: its name, type and current value, in map order |
| `Registry.FindInSnapshot` | main.cpp:163-165 | looking a name up in that view finds the view of the sensor that the map lookup finds |
| `Registry.SnapshotOfSorted` | main.cpp:158-165 | the view of a sorted map is sorted and lists exactly the map's names, one line each |
| `Registry.SensorRegistry.ViewMatchesRegistered` | main.cpp:158-165 | a valid registry's view is in ascending order, has exactly the registered names and one entry per name, so `monitors` lists every registered sensor once |
| `Registry.SensorRegistry.constructor` | main.cpp:120 | the static map starts empty and ordered |
| `Registry.SensorRegistry.PopulateSensorMap` | main.cpp:122-145 | the keys become the old keys plus `Discover(rootExists, dir)`; each discovered name holds a fresh sensor built from its last valid entry; other names keep their sensor; order is kept |
| `Registry.SensorRegistry.HandleCommand` | main.cpp:156-168 | the lines written equal `Dispatch(token, View())`; it changes no state, so repeating a token, unknown or not, gives the same output |
| `Registry.Startup` | main.cpp:147-149 | discovery into the empty map registers exactly `Discover(rootExists, dir)`, each sensor a fresh object built from its entry; with the root missing the view is empty, so every command prints nothing; every sensor in the view is of the float type, so `monitors` lists `name`/`float` lines |

## Left out

- Threads: `thread`, `detach`, `sleep_for(1s)` and the endless loops (main.cpp:98-99, main.cpp:113-114, main.cpp:154). One tick and one dispatch step are modelled instead. The field-level race between the refresh thread and `readValue` is left out too.
- Filesystem access: `ifstream`, `directory_entry::exists`, `is_directory`, `directory_iterator` (main.cpp:20-36, main.cpp:125-136). These become the fields of `Discovery.Candidate`. Exceptions a failing directory walk would throw are not modelled.
- `readFileContentsAsUint` (main.cpp:29-36) is not modelled. Counter values arrive already parsed as `uint64`, so malformed or missing files are not covered.
- The wall clock `time()` (main.cpp:83). Timestamps are given integers, and `time_t` overflow in the subtraction is not modelled.
- `Energy.EnergyDiffJoules`: does not model the `double` intermediate of `/ 1e6`; the joules are the exact integer quotient. This matches the C++ while the microjoule delta is below 2^53 (about 9 GJ), where the `double` holds it exactly. A wrapped delta is far above 2^53, so there the C++ can come out one joule lower near a whole-joule boundary, and the bound of `Energy.DecreasingCounterWraps` holds for the exact-integer model only.
- `Energy.CalculatePowerUse`: does not model the `float` result; power is the exact integer, which matches the C++ while the result is below 2^24 W.
- `readValue`'s `format("{}", float)` (main.cpp:117). A value line carries the number, not its text.
- Standard input and output: the banner, the prompt and the `cin >> input_command` read (main.cpp:151-156). The command arrives as a token. At end of input, `cin >>` fails and leaves `input_command` as it was, so the source's loop never ends. That loop is not modelled.
- Heap allocation of sensors and `SensorType` objects (main.cpp:111, main.cpp:142). A sensor overwritten by a later duplicate is dropped from the model; the source leaks it and its thread keeps running.
- The `SensorType` class hierarchy is reduced to a datatype with both string forms. Only the float kind is ever built.
- `Sensor::name` is a public mutable field in the source. The model makes it a constant, because nothing writes it after construction.
