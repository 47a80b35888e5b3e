/**
  One pass of the command loop of `main` (main.cpp:153-169): a token has been read
  from standard input, and the response lines are a function of that token and of
  the registry as it stands.

  The registry is seen here as its entries in `std::map` order, each with the
  sensor's type and the value `readValue()` would render. The startup banner,
  the prompt and the decimal rendering of values are outside the model.
*/
module Protocol {
  import opened Sensors
  import opened OrderedMap
  import opened Token

  /** The list command; it is tested before any sensor name. */
  const MONITORS: string := "monitors"

  /** What a command reads of one registered sensor. */
  datatype SensorView = SensorView(sensorType: SensorType, value: nat)

  /** One output line: `name \t type` for the listing, or a sensor's current value. */
  datatype Line = Listing(name: string, typeRep: string) | Value(watts: nat)

  /** The text of a listing line, without its end of line. It serves only the
      client-side property `ListedNameReadsBack` below; the daemon itself promises
      nothing about how its output is read. */
  function ListingText(name: string, typeRep: string): string
  {
    name + "\t" + typeRep
  }

  /** The listing: one line per entry, visited in order. */
  function Listings(registry: seq<(string, SensorView)>): seq<Line>
  {
    seq(|registry|, i requires 0 <= i < |registry| =>
      Listing(registry[i].0, StringRep(registry[i].1.sensorType)))
  }

  /** The `if` chain of main.cpp:157-168: `monitors` lists one line per entry; any
      other token answers with one value line when it names a sensor exactly, and
      with nothing otherwise. */
  function Dispatch(command: string, registry: seq<(string, SensorView)>): (lines: seq<Line>)
    ensures command == MONITORS ==> |lines| == |registry|
    ensures command != MONITORS ==> (lines == [] <==> command !in ToMap(registry))
    ensures command != MONITORS && command in ToMap(registry) ==>
              lines == [Value(ToMap(registry)[command].value)]
  {
    if command == MONITORS then Listings(registry)
    else
      match Find(registry, command)
      case Some(s) => [Value(s.value)]
      case None => []
  }

  /** `monitors` lists every registered sensor once, with its type, in ascending
      order of names. */
  lemma MonitorsListsRegistryInOrder(registry: seq<(string, SensorView)>)
    requires Sorted(registry)
    ensures var lines, m := Dispatch(MONITORS, registry), ToMap(registry);
      && |lines| == |m|
      && (forall i :: 0 <= i < |lines| ==>
            lines[i].Listing? && lines[i].name in m &&
            lines[i].typeRep == StringRep(m[lines[i].name].sensorType))
      && (forall i, j :: 0 <= i < j < |lines| ==> Less(lines[i].name, lines[j].name))
      && (forall k :: k in m ==> exists i :: 0 <= i < |lines| && lines[i] == Listing(k, StringRep(m[k].sensorType)))
  {
    var lines, m := Dispatch(MONITORS, registry), ToMap(registry);
    SortedToMap(registry);
    forall k | k in m ensures exists i :: 0 <= i < |lines| && lines[i] == Listing(k, StringRep(m[k].sensorType)) {
      ToMapKeys(registry, k);
      var i :| 0 <= i < |registry| && registry[i].0 == k;
      assert lines[i] == Listing(k, StringRep(m[k].sensorType));
    }
  }

  /** `monitors` always lists, so a sensor that is itself named `monitors` is
      listed but can never be asked for its value. */
  lemma MonitorsShadowsSensorOfThatName(registry: seq<(string, SensorView)>)
    ensures forall i :: 0 <= i < |Dispatch(MONITORS, registry)| ==> Dispatch(MONITORS, registry)[i].Listing?
  {
  }

  /** Any other token prints the value of the sensor registered under exactly that
      name, and nothing when there is none. */
  lemma ValueOrNothing(registry: seq<(string, SensorView)>, command: string)
    requires command != MONITORS
    ensures Dispatch(command, registry) ==
      if command in ToMap(registry) then [Value(ToMap(registry)[command].value)] else []
  {
  }

  /** With no sensors (for one, when the powercap root is missing) every command,
      `monitors` included, prints nothing. */
  lemma EmptyRegistryIsSilent(command: string)
    ensures Dispatch(command, []) == []
  {
  }

  /** Documentation of the output format, not a promise of the daemon: a listed name
      holds no white space (it came from a one-token read), so a client that splits
      a listing line at white space gets the name back. */
  lemma {:induction false} ListedNameReadsBack(name: string, typeRep: string)
    requires NoSpace(name) && name != []
    ensures FirstToken(ListingText(name, typeRep)) == name
  {
    assert ListingText(name, typeRep) == [] + name + ("\t" + typeRep);
    TokenOfField([], name, "\t" + typeRep);
  }
}
