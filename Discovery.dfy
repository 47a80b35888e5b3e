/**
  What `populateSensorMap` (main.cpp:122-145) keeps from the powercap root.

  The directory walk is replaced by the list of entries it would visit, each
  described by what the loop asks of it. `Discover` states, as a plain mapping,
  which sensor the registry ends up holding under each name; the registry's
  `PopulateSensorMap` method is proved to build exactly that.
*/
module Discovery {
  import opened Energy
  import opened Token

  /** One entry of the powercap root as the loop sees it. */
  datatype Candidate = Candidate(
    fileName: string,        // the entry's own name, passed to the sensor as `powercapName`
    isDirectory: bool,       // `dirEntry.is_directory()`
    hasEnergyFile: bool,     // `<entry>/energy_uj` exists
    hasNameFile: bool,       // `<entry>/name` exists
    nameContents: string,    // the text of `<entry>/name`
    baseline: EnergyReading) // the reading the new sensor's constructor takes

  /** The two `continue` guards of the loop, negated. */
  predicate IsValid(c: Candidate)
  {
    c.isDirectory && c.hasEnergyFile && c.hasNameFile
  }

  /** The registry key: the first token of the name file. It holds no white space,
      and it is empty exactly when the name file holds nothing but white space. */
  function SensorName(c: Candidate): (k: string)
    ensures NoSpace(k)
    ensures k == [] <==> AllSpace(c.nameContents)
  {
    FirstToken(c.nameContents)
  }

  /** Would the loop file entry `c` under the name `k`? */
  predicate FilesUnder(c: Candidate, k: string)
  {
    IsValid(c) && SensorName(c) == k
  }

  /** The valid entries of `dir`, each assigned under its name in visiting order, so a
      later entry with the same name replaces an earlier one. */
  function Selected(dir: seq<Candidate>): (m: map<string, Candidate>)
  {
    if dir == [] then map[]
    else
      var c := dir[|dir| - 1];
      var earlier := Selected(dir[..|dir| - 1]);
      if IsValid(c) then earlier[SensorName(c) := c] else earlier
  }

  /** The whole procedure: nothing at all when the root does not exist. */
  function Discover(rootExists: bool, dir: seq<Candidate>): (m: map<string, Candidate>)
    ensures !rootExists ==> m == map[]
    ensures rootExists ==> m.Keys == ValidNames(dir)
  {
    if rootExists then SelectedKeys(dir); Selected(dir) else map[]
  }

  /** The names of the valid entries of `dir`. */
  function ValidNames(dir: seq<Candidate>): set<string>
  {
    set i | 0 <= i < |dir| && IsValid(dir[i]) :: SensorName(dir[i])
  }

  /** How many entries of `dir` are valid. */
  function CountValid(dir: seq<Candidate>): nat
  {
    if dir == [] then 0
    else CountValid(dir[..|dir| - 1]) + (if IsValid(dir[|dir| - 1]) then 1 else 0)
  }

  /** No two valid entries carry the same name. */
  predicate DistinctValidNames(dir: seq<Candidate>)
  {
    forall i, j :: 0 <= i < j < |dir| && IsValid(dir[i]) && IsValid(dir[j]) ==>
      SensorName(dir[i]) != SensorName(dir[j])
  }

  /** A missing root leaves the registry empty, whatever the entries would have been. */
  lemma MissingRootRegistersNothing(dir: seq<Candidate>)
    ensures Discover(false, dir) == map[]
  {
  }

  /** The names registered are exactly the names of the valid entries. */
  lemma {:induction false} SelectedKeys(dir: seq<Candidate>)
    ensures Selected(dir).Keys == ValidNames(dir)
  {
    if dir != [] {
      var n := |dir| - 1;
      var front := dir[..n];
      SelectedKeys(front);
      assert forall i :: 0 <= i < n ==> front[i] == dir[i];
      assert ValidNames(dir) == ValidNames(front) + (if IsValid(dir[n]) then {SensorName(dir[n])} else {});
    }
  }

  /** The position of the last valid entry named `k`, searching from the end; -1 when
      there is none. */
  function LastWriter(dir: seq<Candidate>, k: string): (i: int)
    ensures -1 <= i < |dir|
    ensures i >= 0 ==> FilesUnder(dir[i], k)
    ensures forall j :: i < j < |dir| ==> !FilesUnder(dir[j], k)
  {
    if dir == [] then -1
    else if FilesUnder(dir[|dir| - 1], k) then |dir| - 1
    else
      var front := dir[..|dir| - 1];
      assert forall j :: 0 <= j < |front| ==> front[j] == dir[j];
      LastWriter(front, k)
  }

  /** A name is registered exactly when some valid entry carries it, and what is
      registered under it is the last such entry: last write wins. */
  lemma {:induction false} SelectedIsLastWriter(dir: seq<Candidate>, k: string)
    ensures k in Selected(dir) <==> LastWriter(dir, k) >= 0
    ensures k in Selected(dir) ==> Selected(dir)[k] == dir[LastWriter(dir, k)]
  {
    if dir != [] {
      var n := |dir| - 1;
      var front := dir[..n];
      SelectedIsLastWriter(front, k);
      if !FilesUnder(dir[n], k) {
        assert LastWriter(dir, k) == LastWriter(front, k);
        assert LastWriter(front, k) >= 0 ==> dir[LastWriter(front, k)] == front[LastWriter(front, k)];
      }
    }
  }

  /** The registry holds at most one sensor per valid entry, and exactly one per valid
      entry when their names are distinct. */
  lemma {:induction false} SelectedSize(dir: seq<Candidate>)
    ensures |Selected(dir)| <= CountValid(dir)
    ensures DistinctValidNames(dir) ==> |Selected(dir)| == CountValid(dir)
  {
    if dir != [] {
      var n := |dir| - 1;
      var front := dir[..n];
      SelectedSize(front);
      if DistinctValidNames(dir) {
        DistinctInFront(dir);
        if IsValid(dir[n]) { LastNameIsNew(dir); }
      }
    }
  }

  lemma DistinctInFront(dir: seq<Candidate>)
    requires dir != [] && DistinctValidNames(dir)
    ensures DistinctValidNames(dir[..|dir| - 1])
  {
    var front := dir[..|dir| - 1];
    assert forall i :: 0 <= i < |front| ==> front[i] == dir[i];
  }

  lemma LastNameIsNew(dir: seq<Candidate>)
    requires dir != [] && DistinctValidNames(dir) && IsValid(dir[|dir| - 1])
    ensures SensorName(dir[|dir| - 1]) !in Selected(dir[..|dir| - 1])
  {
    var n := |dir| - 1;
    var front := dir[..n];
    var k := SensorName(dir[n]);
    SelectedIsLastWriter(front, k);
    assert forall j :: 0 <= j < n ==> front[j] == dir[j];
  }

  /** Every registered name is a single token: it holds no white space, and it is
      empty exactly when its name file held nothing but white space. */
  lemma {:induction false} DiscoveredNamesAreTokens(dir: seq<Candidate>, k: string)
    requires k in Selected(dir)
    ensures NoSpace(k)
    ensures k == [] <==> AllSpace(Selected(dir)[k].nameContents)
  {
    SelectedIsLastWriter(dir, k);
    assert FilesUnder(Selected(dir)[k], k);
  }
}
