/** The property writer of `ase_extras`: an observer that a molecular-dynamics
    run calls between steps. It evaluates a list of named energy properties of
    the simulated system, appends them to an in-memory record of time series,
    and writes them as rows of a comma-separated file. */
module PropertyWriting {
  import opened Wrappers
  import opened Dicts
  import Csv

  const TotalEnergy := "total_energy"
  const KineticEnergy := "kinetic_energy"
  const Temperature := "temperature"
  const PotentialEnergy := "potential_energy"
  const Energy := "energy"

  /** The separator `to_csv_row` uses by default, and the one every row is written with. */
  const Sep := ","

  /** What the writer reads from the simulated system at the moment of a call:
      `atoms.get_kinetic_energy()`, `atoms.get_temperature()` and the calculator's
      `atoms.calc.results` table. */
  datatype Atoms = Atoms(kineticEnergy: real, temperature: real, calcResults: map<string, real>)

  /** Python's truth value of a string: every non-empty string is true. */
  function Truthy(s: string): bool
  {
    |s| > 0
  }

  /** Python's `str` applied to a string. */
  function StrOfStr(s: string): string
  {
    s
  }

  /** The record key the constructor makes for a requested name. */
  function RecordKey(p: string): string
  {
    if p == Energy then PotentialEnergy else p
  }

  function RecordKeys(props: seq<string>): (r: seq<string>)
    ensures |r| == |props|
    ensures forall i :: 0 <= i < |props| ==> r[i] == RecordKey(props[i])
  {
    seq(|props|, i requires 0 <= i < |props| => RecordKey(props[i]))
  }

  /** The key under which one step reports a requested name: the three names
      tested first keep their own key, and every other name, whatever it is,
      is reported as the potential energy. */
  function ResultKey(p: string): string
  {
    if p == TotalEnergy || p == KineticEnergy || p == Temperature then p else PotentialEnergy
  }

  function ResultKeys(props: seq<string>): (r: seq<string>)
    ensures |r| == |props|
    ensures forall i :: 0 <= i < |props| ==> r[i] == ResultKey(props[i])
  {
    seq(|props|, i requires 0 <= i < |props| => ResultKey(props[i]))
  }

  /** The names whose evaluation reads `calc.results["energy"]`. */
  predicate ReadsCalcEnergy(p: string)
  {
    p != KineticEnergy && p != Temperature
  }

  /** Evaluating `p` on `a` raises no `KeyError`. */
  predicate Evaluable(p: string, a: Atoms)
  {
    ReadsCalcEnergy(p) ==> Energy in a.calcResults
  }

  predicate AllEvaluable(props: seq<string>, a: Atoms)
  {
    forall p :: p in props ==> Evaluable(p, a)
  }

  /** The lengths of the five names, which tell them apart. */
  lemma NameLengths()
    ensures |TotalEnergy| == 12 && |KineticEnergy| == 14 && |Temperature| == 11
    ensures |PotentialEnergy| == 16 && |Energy| == 6
  {
  }

  /** The key a name is reported under can be evaluated whenever the name can. */
  lemma ResultKeyEvaluable(p: string, a: Atoms)
    requires Evaluable(p, a)
    ensures Evaluable(ResultKey(p), a)
  {
    NameLengths();
  }

  /** The value a step reports under result key `k`. */
  function Eval(k: string, a: Atoms): real
    requires Evaluable(k, a)
  {
    if k == TotalEnergy then a.kineticEnergy + a.calcResults[Energy]
    else if k == KineticEnergy then a.kineticEnergy
    else if k == Temperature then a.temperature
    else a.calcResults[Energy]
  }

  /** The names the writer recognises: the four keys a step can report, and `energy`. */
  predicate Recognised(p: string)
  {
    p == TotalEnergy || p == KineticEnergy || p == Temperature || p == PotentialEnergy || p == Energy
  }

  /** The record right after construction: an empty list per requested name,
      `energy` renamed. */
  function InitialRecord(props: seq<string>): (r: Dict<seq<real>>)
    ensures ValidDict(r)
  {
    if props == [] then Empty()
    else Put(InitialRecord(props[..|props| - 1]), RecordKey(props[|props| - 1]), [])
  }

  /** The record keys are the renamed requested names, each once, in the order
      of first request, and every list starts empty. */
  lemma InitialRecordIs(props: seq<string>)
    ensures InitialRecord(props).keys == Dedup(RecordKeys(props))
    ensures forall k :: k in InitialRecord(props).entries ==> InitialRecord(props).entries[k] == []
  {
    InitialRecordKeys(props);
    InitialRecordEmpty(props);
  }

  lemma {:induction false} InitialRecordKeys(props: seq<string>)
    ensures InitialRecord(props).keys == Dedup(RecordKeys(props))
  {
    if props != [] {
      var init, k := props[..|props| - 1], RecordKey(props[|props| - 1]);
      InitialRecordKeys(init);
      var keys := RecordKeys(props);
      assert keys[..|keys| - 1] == RecordKeys(init);
      assert Dedup(keys) == AppendNew(Dedup(RecordKeys(init)), k);
    }
  }

  lemma {:induction false} InitialRecordEmpty(props: seq<string>)
    ensures forall k :: k in InitialRecord(props).entries ==> InitialRecord(props).entries[k] == []
  {
    if props != [] {
      InitialRecordEmpty(props[..|props| - 1]);
    }
  }

  /** The values one step reports: each requested name in turn stores its
      value under its result key, so a key stays at its first position. */
  function StepResults(props: seq<string>, a: Atoms): (r: Dict<real>)
    requires AllEvaluable(props, a)
    ensures ValidDict(r)
  {
    if props == [] then Empty()
    else
      var init, p := props[..|props| - 1], props[|props| - 1];
      assert p in props;
      ResultKeyEvaluable(p, a);
      Put(StepResults(init, a), ResultKey(p), Eval(ResultKey(p), a))
  }

  /** A step reports under the result keys of the requested names, each once,
      in the order of first request. */
  lemma {:induction false} StepResultsKeys(props: seq<string>, a: Atoms)
    requires AllEvaluable(props, a)
    ensures StepResults(props, a).keys == Dedup(ResultKeys(props))
  {
    if props != [] {
      var init, p := props[..|props| - 1], props[|props| - 1];
      assert p in props;
      StepResultsKeys(init, a);
      var keys := ResultKeys(props);
      assert keys[..|keys| - 1] == ResultKeys(init);
      assert Dedup(keys) == AppendNew(Dedup(ResultKeys(init)), ResultKey(p));
    }
  }

  /** Every reported key is one of the four built-in keys, and its value is that
      key's value on the current state (the total energy is the kinetic energy
      plus the calculator's energy); a later request of the same key stores the
      same value again. */
  lemma {:induction false} StepResultsValues(props: seq<string>, a: Atoms)
    requires AllEvaluable(props, a)
    ensures forall k :: k in StepResults(props, a).entries ==>
      && k in {TotalEnergy, KineticEnergy, Temperature, PotentialEnergy}
      && Evaluable(k, a)
      && StepResults(props, a).entries[k] == Eval(k, a)
  {
    if props != [] {
      var init, p := props[..|props| - 1], props[|props| - 1];
      assert p in props;
      ResultKeyEvaluable(p, a);
      StepResultsValues(init, a);
    }
  }

  /** The record has a key exactly for each requested name other than `energy`,
      plus `potential_energy` when `energy` was requested. */
  lemma {:induction false} RecordKeysAre(props: seq<string>, k: string)
    ensures k in InitialRecord(props).entries <==>
      k != Energy && (k in props || (k == PotentialEnergy && Energy in props))
  {
    InitialRecordIs(props);
    assert k in InitialRecord(props).entries <==> k in RecordKeys(props);
    InRecordKeys(props, k);
  }

  lemma InRecordKeys(props: seq<string>, k: string)
    ensures k in RecordKeys(props) <==>
      k != Energy && (k in props || (k == PotentialEnergy && Energy in props))
  {

  }

  /** A step reports `total_energy`, `kinetic_energy` and `temperature` exactly
      when they were requested, `potential_energy` exactly when some other name
      was requested, and nothing else. */
  lemma {:induction false} ResultKeysAre(props: seq<string>, a: Atoms, k: string)
    requires AllEvaluable(props, a)
    ensures k in StepResults(props, a).entries <==>
      || ((k == TotalEnergy || k == KineticEnergy || k == Temperature) && k in props)
      || (k == PotentialEnergy && exists p :: p in props && ResultKey(p) == PotentialEnergy)
  {
    NameLengths();
    var r := StepResults(props, a);
    StepResultsKeys(props, a);
    assert k in r.entries <==> k in ResultKeys(props);
    if k in ResultKeys(props) {
      var i :| 0 <= i < |props| && ResultKeys(props)[i] == k;
      assert props[i] in props;
    }
    if (k == TotalEnergy || k == KineticEnergy || k == Temperature) && k in props {
      var i :| 0 <= i < |props| && props[i] == k;
      assert ResultKeys(props)[i] == k;
    }
    if k == PotentialEnergy && exists p :: p in props && ResultKey(p) == PotentialEnergy {
      var p :| p in props && ResultKey(p) == PotentialEnergy;
      var i :| 0 <= i < |props| && props[i] == p;
      assert ResultKeys(props)[i] == k;
    }
  }

  /** A name that is none of the recognised ones is reported as the potential
      energy, not looked up in the calculator's results under its own name. */
  lemma UnknownNameReportsPotentialEnergy(p: string, a: Atoms)
    requires !Recognised(p)
    requires Energy in a.calcResults
    ensures StepResults([p], a).keys == [PotentialEnergy]
    ensures StepResults([p], a).entries[PotentialEnergy] == a.calcResults[Energy]
  {

  }

  /** In any list of requested names, an unrecognised name `q` gets a record
      list, but no step ever reports `q`: its value goes to `potential_energy`
      instead, so `log` never extends `q`'s list. */
  lemma UnknownNameNeverLogged(props: seq<string>, a: Atoms, q: string)
    requires AllEvaluable(props, a)
    requires q in props && !Recognised(q)
    ensures q in InitialRecord(props).entries
    ensures q !in StepResults(props, a).entries
    ensures PotentialEnergy in StepResults(props, a).entries
    ensures StepResults(props, a).entries[PotentialEnergy] == a.calcResults[Energy]
  {
    NameLengths();
    RecordKeysAre(props, q);
    ResultKeysAre(props, a, q);
    ResultKeysAre(props, a, PotentialEnergy);
    StepResultsValues(props, a);
  }

  /** With an unrecognised name and `potential_energy` or `energy` requested,
      `log` succeeds, but the header has more columns than any data row has
      values. */
  lemma UnknownNameNarrowsRows(props: seq<string>, a: Atoms, q: string)
    requires AllEvaluable(props, a)
    requires q in props && !Recognised(q)
    requires PotentialEnergy in props || Energy in props
    ensures forall p :: p in props ==> ResultKey(p) in InitialRecord(props).entries
    ensures |Values(StepResults(props, a))| < |InitialRecord(props).keys|
  {
    LogAllowedIff(props);
    UnknownNameNeverLogged(props, a, q);
    ReportedKeysAreRecorded(props, a, InitialRecord(props));
    var results, record := StepResults(props, a), InitialRecord(props);
    DistinctShorter(results.keys, record.keys, q);
  }

  /** With recognised names only, a step reports exactly the record's keys, in
      the record's order. */
  lemma RecognisedKeysAlign(props: seq<string>, a: Atoms)
    requires forall p :: p in props ==> Recognised(p)
    requires AllEvaluable(props, a)
    ensures StepResults(props, a).keys == InitialRecord(props).keys
  {
    InitialRecordIs(props);
    StepResultsKeys(props, a);
    SameKeysWhenRecognised(props);
  }

  /** A recognised name is reported under the key the record holds for it. */
  lemma SameKeysWhenRecognised(props: seq<string>)
    requires forall p :: p in props ==> Recognised(p)
    ensures ResultKeys(props) == RecordKeys(props)
  {
    forall i | 0 <= i < |props| ensures ResultKeys(props)[i] == RecordKeys(props)[i] {
      assert props[i] in props;
    }
  }

  /** With a name that is not recognised and neither `potential_energy` nor
      `energy` requested, a step reports a key the record does not have, so
      `log` would raise `KeyError`. This covers the default `properties=[""]`. */
  lemma UnrecognisedCannotBeLogged(props: seq<string>, q: string)
    requires q in props && !Recognised(q)
    requires PotentialEnergy !in props && Energy !in props
    ensures exists p :: p in props && ResultKey(p) !in InitialRecord(props).entries
  {
    RecordKeysAre(props, PotentialEnergy);
    assert ResultKey(q) == PotentialEnergy;
  }

  /** `log` finds a record list for every key a step reports exactly when every
      requested name is `total_energy`, `kinetic_energy` or `temperature`, or
      when `potential_energy` or `energy` is among the requested names. */
  lemma LogAllowedIff(props: seq<string>)
    ensures (forall p :: p in props ==> ResultKey(p) in InitialRecord(props).entries) <==>
      || (forall p :: p in props ==> p == TotalEnergy || p == KineticEnergy || p == Temperature)
      || PotentialEnergy in props || Energy in props
  {
    NameLengths();
    RecordKeysAre(props, PotentialEnergy);
    forall p | p in props && (p == TotalEnergy || p == KineticEnergy || p == Temperature)
      ensures ResultKey(p) in InitialRecord(props).entries
    {
      RecordKeysAre(props, p);
    }
    if PotentialEnergy !in props && Energy !in props &&
       exists q :: q in props && !(q == TotalEnergy || q == KineticEnergy || q == Temperature) {
      var q :| q in props && !(q == TotalEnergy || q == KineticEnergy || q == Temperature);
      assert ResultKey(q) == PotentialEnergy;
    }
  }

  /** With recognised names only, `log` never meets a missing key. */
  lemma RecognisedCanLog(props: seq<string>)
    requires forall p :: p in props ==> Recognised(p)
    ensures forall p :: p in props ==> ResultKey(p) in InitialRecord(props).entries
  {
    LogAllowedIff(props);
  }

  /** With recognised names only, the i-th value of a step is the value of the
      i-th record key, which is the i-th column of the header. */
  lemma RowMatchesHeader(props: seq<string>, a: Atoms)
    requires forall p :: p in props ==> Recognised(p)
    requires AllEvaluable(props, a)
    ensures var header := InitialRecord(props).keys;
      var values := Values(StepResults(props, a));
      && |values| == |header|
      && forall i :: 0 <= i < |header| ==> Evaluable(header[i], a) && values[i] == Eval(header[i], a)
  {
    RecognisedKeysAlign(props, a);
    StepResultsValues(props, a);
    var results := StepResults(props, a);
    forall i | 0 <= i < |results.keys| ensures results.keys[i] in results.entries {
    }
  }

  /** No built-in key contains the separator. */
  lemma KeysHaveNoSeparator(k: string)
    requires k in {TotalEnergy, KineticEnergy, Temperature, PotentialEnergy}
    ensures ',' !in k
  {
  }

  /** With recognised names only, no record key contains the separator. */
  lemma RecordKeysHaveNoSeparator(props: seq<string>)
    requires forall p :: p in props ==> Recognised(p)
    ensures forall i :: 0 <= i < |InitialRecord(props).keys| ==> ',' !in InitialRecord(props).keys[i]
  {
    var keys := InitialRecord(props).keys;
    forall i | 0 <= i < |keys| ensures ',' !in keys[i] {
      var k := keys[i];
      assert k in InitialRecord(props).entries;
      RecordKeysAre(props, k);
      KeysHaveNoSeparator(k);
    }
  }

  /** With recognised names only, the header reads back as the record keys, in order. */
  lemma HeaderReadsBack(props: seq<string>)
    requires forall p :: p in props ==> Recognised(p)
    requires props != []
    ensures var header := Csv.CsvRow(InitialRecord(props).keys, StrOfStr, Sep);
      Csv.Split(header[..|header| - 1], ',') == InitialRecord(props).keys
  {
    var keys := InitialRecord(props).keys;
    InitialRecordIs(props);
    assert keys != [] by {
      assert RecordKeys(props)[0] in RecordKeys(props);
    }
    RecordKeysHaveNoSeparator(props);
    Csv.RowFields(keys, StrOfStr, ',');
    assert Csv.Rendered(keys, StrOfStr) == keys;
  }

  /** With recognised names only, every data row reads back with as many fields
      as the header has columns, provided `str` never renders a comma. */
  lemma RowReadsBack(props: seq<string>, a: Atoms, str: real -> string)
    requires forall p :: p in props ==> Recognised(p)
    requires AllEvaluable(props, a)
    requires props != []
    requires forall x :: ',' !in str(x)
    ensures var row := Csv.CsvRow(Values(StepResults(props, a)), str, Sep);
      |Csv.Split(row[..|row| - 1], ',')| == |InitialRecord(props).keys|
  {
    var values := Values(StepResults(props, a));
    RowMatchesHeader(props, a);
    assert values != [] by {
      InitialRecordIs(props);
      assert RecordKeys(props)[0] in RecordKeys(props);
    }
    Csv.RowFields(values, str, ',');
  }

  /** One call of `log`: every reported key's list grows by the reported value,
      and every other list and the key order stay as they were. */
  ghost predicate LoggedStep(before: Dict<seq<real>>, after: Dict<seq<real>>, results: Dict<real>)
  {
    && after.keys == before.keys
    && after.entries.Keys == before.entries.Keys
    && (forall k :: k in before.entries && k in results.entries ==>
          after.entries[k] == before.entries[k] + [results.entries[k]])
    && (forall k :: k in before.entries && k !in results.entries ==>
          after.entries[k] == before.entries[k])
  }

  /** When every requested name's result key is a record key, so is every key
      a step reports. */
  lemma {:induction false} ReportedKeysAreRecorded(props: seq<string>, a: Atoms, record: Dict<seq<real>>)
    requires AllEvaluable(props, a)
    requires forall p :: p in props ==> ResultKey(p) in record.entries
    ensures forall k :: k in StepResults(props, a).entries ==> k in record.entries
  {
    StepResultsKeys(props, a);
    forall k | k in StepResults(props, a).entries ensures k in record.entries {
      assert k in ResultKeys(props);
      var i :| 0 <= i < |props| && ResultKeys(props)[i] == k;
      assert props[i] in props;
    }
  }

  /** The record after the loop of `log` has appended the reported values of
      the first `n` reported keys, one key after the other. The guard always
      holds where `Log` uses this: a reported key missing from the record
      would raise `KeyError`, which `Log`'s precondition rules out. */
  function AppendFirst(record: Dict<seq<real>>, results: Dict<real>, n: nat): (r: Dict<seq<real>>)
    requires n <= |results.keys|
  {
    if n == 0 then record
    else
      var prev, k := AppendFirst(record, results, n - 1), results.keys[n - 1];
      if k in prev.entries && k in results.entries
      then Dict(prev.keys, prev.entries[k := prev.entries[k] + [results.entries[k]]])
      else prev
  }

  /** Appending never adds or moves a key. */
  lemma {:induction false} AppendFirstShape(record: Dict<seq<real>>, results: Dict<real>, n: nat)
    requires n <= |results.keys|
    ensures AppendFirst(record, results, n).keys == record.keys
    ensures AppendFirst(record, results, n).entries.Keys == record.entries.Keys
  {
    if n > 0 {
      AppendFirstShape(record, results, n - 1);
    }
  }

  /** When every reported key is a record key, each turn of the loop of `log`
      finds its key in both dictionaries and appends to it. */
  lemma AppendStep(record: Dict<seq<real>>, results: Dict<real>, i: nat)
    requires ValidDict(results) && i < |results.keys|
    requires forall k :: k in results.entries ==> k in record.entries
    ensures results.keys[i] in results.entries
    ensures results.keys[i] in AppendFirst(record, results, i).entries
    ensures AppendFirst(record, results, i + 1) ==
      Put(AppendFirst(record, results, i), results.keys[i],
          AppendFirst(record, results, i).entries[results.keys[i]] + [results.entries[results.keys[i]]])
  {
    AppendFirstShape(record, results, i);
  }

  /** After the first `n` reported keys, the list under a key has grown by
      that key's reported value when the key is among those `n`, and is
      unchanged otherwise. */
  lemma {:induction false} AppendFirstAt(record: Dict<seq<real>>, results: Dict<real>, n: nat, j: string)
    requires n <= |results.keys| && Distinct(results.keys)
    requires j in record.entries
    ensures j in AppendFirst(record, results, n).entries
    ensures (exists i :: 0 <= i < n && results.keys[i] == j) && j in results.entries ==>
      AppendFirst(record, results, n).entries[j] == record.entries[j] + [results.entries[j]]
    ensures (forall i :: 0 <= i < n ==> results.keys[i] != j) ==>
      AppendFirst(record, results, n).entries[j] == record.entries[j]
  {
    if n > 0 {
      AppendFirstShape(record, results, n - 1);
      AppendFirstAt(record, results, n - 1, j);
      if j == results.keys[n - 1] {
        assert forall i :: 0 <= i < n - 1 ==> results.keys[i] != j;
      }
    }
  }

  /** Appending for every reported key is one `log` step. */
  lemma AppendAllLogs(record: Dict<seq<real>>, results: Dict<real>)
    requires ValidDict(results)
    ensures ValidDict(record) ==> ValidDict(AppendFirst(record, results, |results.keys|))
    ensures LoggedStep(record, AppendFirst(record, results, |results.keys|), results)
  {
    var n := |results.keys|;
    AppendFirstShape(record, results, n);
    forall j | j in record.entries && j in results.entries
      ensures AppendFirst(record, results, n).entries[j] == record.entries[j] + [results.entries[j]]
    {
      AppendFirstAt(record, results, n, j);
      var i :| 0 <= i < n && results.keys[i] == j;
    }
    forall j | j in record.entries && j !in results.entries
      ensures AppendFirst(record, results, n).entries[j] == record.entries[j]
    {
      AppendFirstAt(record, results, n, j);
    }
  }

  /** With recognised names only, a `log` call keeps every list of the record
      at one common length, one more than before. */
  lemma LogKeepsEqualLengths(props: seq<string>, a: Atoms, before: Dict<seq<real>>, after: Dict<seq<real>>, n: nat)
    requires forall p :: p in props ==> Recognised(p)
    requires AllEvaluable(props, a)
    requires before.keys == InitialRecord(props).keys && ValidDict(before)
    requires forall k :: k in before.entries ==> |before.entries[k]| == n
    requires LoggedStep(before, after, StepResults(props, a))
    ensures forall k :: k in after.entries ==> |after.entries[k]| == n + 1
  {
    RecognisedKeysAlign(props, a);
    var results := StepResults(props, a);
    forall k | k in after.entries ensures |after.entries[k]| == n + 1 {
      assert k in before.keys;
      assert k in results.entries;
    }
  }

  /** `PropertyWriter`: the requested names, the output file, the record of
      logged values, and the text of the output file. */
  class PropertyWriter {
    const properties: seq<string>
    const file: Option<string>
    var record: Dict<seq<real>>
    /** The contents of `file` (meaningful only when `file` is not `None`). */
    ghost var fileText: string

    /** The record keeps the keys it was built with, in their order. */
    ghost predicate Valid()
      reads this
    {
      ValidDict(record) && record.keys == InitialRecord(properties).keys
    }

    /** `PropertyWriter(atoms, properties, file)`: one empty list per requested
        name (`energy` as `potential_energy`), then the header row when a file
        is given. */
    constructor (properties: seq<string> := [""], file: Option<string> := None)
      ensures Valid()
      ensures this.properties == properties && this.file == file
      ensures record == InitialRecord(properties)
      ensures file.Some? ==> fileText == Csv.CsvRow(record.keys, StrOfStr, Sep)
      ensures file.None? ==> fileText == ""
    {
      var rec := Empty();
      for i := 0 to |properties|
        invariant rec == InitialRecord(properties[..i])
      {
        var p := properties[i];
        if p == Energy {
          p := PotentialEnergy;
        }
        assert properties[..i + 1][..i] == properties[..i];
        rec := Put(rec, p, []);
      }
      assert properties[..|properties|] == properties;
      this.properties := properties;
      this.file := file;
      record := rec;
      fileText := "";
      new;
      if file.Some? {
        ghost var built := record;
        WriteHeader();
        assert record == built;
      }
    }

    /** `_write_header`: the file is overwritten with the row of record keys. */
    method WriteHeader()
      modifies this`fileText
      ensures fileText == Csv.CsvRow(record.keys, StrOfStr, Sep)
    {
      var row := Csv.ToCsvRow(record.keys, StrOfStr, Sep);
      fileText := row;
    }

    /** `get_property`: one value per requested name, keyed as `StepResults` says. */
    method GetProperty(a: Atoms) returns (results: Dict<real>)
      requires AllEvaluable(properties, a)
      ensures results == StepResults(properties, a)
    {
      results := Empty();
      for i := 0 to |properties|
        invariant results == StepResults(properties[..i], a)
      {
        assert properties[..i + 1][..i] == properties[..i];
        assert properties[i] in properties;
        results := StoreProperty(results, properties[i], a);
      }
      assert properties[..|properties|] == properties;
    }

    /** The body of the loop in `get_property`: the branch chosen by the name.
        The fourth condition, `p == "potential_energy" or "energy"`, is true
        for every `p` because a non-empty string literal is true, so the
        calculator lookup in the last branch never runs. */
    static method StoreProperty(results: Dict<real>, p: string, a: Atoms) returns (r: Dict<real>)
      requires Evaluable(p, a)
      ensures r == Put(results, ResultKey(p), Eval(ResultKey(p), a))
    {
      ResultKeyEvaluable(p, a);
      NameLengths();
      assert Truthy(Energy);
      r := results;
      if p == TotalEnergy {
        var kinEnergy := a.kineticEnergy;
        var potEnergy := a.calcResults[Energy];
        r := Put(r, p, kinEnergy + potEnergy);
      } else if p == KineticEnergy {
        r := Put(r, p, a.kineticEnergy);
      } else if p == Temperature {
        r := Put(r, p, a.temperature);
      } else if p == PotentialEnergy || Truthy(Energy) {
        r := Put(r, PotentialEnergy, a.calcResults[Energy]);
      } else {
        match Lookup(a.calcResults, p) {
          case Some(v) => r := Put(r, p, v);
          case None =>
        }
      }
    }

    /** `log`: evaluates one step and appends each reported value to its list. */
    method Log(a: Atoms)
      requires Valid()
      requires AllEvaluable(properties, a)
      requires forall p :: p in properties ==> ResultKey(p) in record.entries
      modifies this`record
      ensures Valid()
      ensures LoggedStep(old(record), record, StepResults(properties, a))
    {
      var results := GetProperty(a);
      ReportedKeysAreRecorded(properties, a, record);
      AppendResults(results);
      AppendAllLogs(old(record), results);
    }

    /** The loop of `log`: `self.record[p].append(v)` for each reported `p`, `v`. */
    method AppendResults(results: Dict<real>)
      requires ValidDict(results)
      requires forall k :: k in results.entries ==> k in record.entries
      modifies this`record
      ensures record == AppendFirst(old(record), results, |results.keys|)
    {
      ghost var before := record;
      for i := 0 to |results.keys|
        invariant record == AppendFirst(before, results, i)
      {
        var k := results.keys[i];
        AppendStep(before, results, i);
        AppendValue(k, results.entries[k]);
      }
    }

    /** `self.record[p].append(v)`. */
    method AppendValue(p: string, v: real)
      requires p in record.entries
      modifies this`record
      ensures record == Put(old(record), p, old(record).entries[p] + [v])
    {
      record := Put(record, p, record.entries[p] + [v]);
    }

    /** `log_to_file`: evaluates one step and appends its values as one row. */
    method LogToFile(a: Atoms, str: real -> string)
      requires file.Some?
      requires AllEvaluable(properties, a)
      modifies this`fileText
      ensures record == old(record)
      ensures fileText == old(fileText) + Csv.CsvRow(Values(StepResults(properties, a)), str, Sep)
    {
      var results := GetProperty(a);
      var row := Csv.ToCsvRow(Values(results), str, Sep);
      fileText := fileText + row;
    }

    /** `save_to_json`: the record is serialised as one JSON object whose
        members are the record keys, each once, in record order, each with its
        whole list; nothing of the writer changes. */
    method SaveToJson() returns (members: seq<(string, seq<real>)>)
      requires Valid()
      ensures |members| == |record.keys|
      ensures forall i :: 0 <= i < |members| ==> members[i] == (record.keys[i], record.entries[record.keys[i]])
      ensures forall k :: k in record.entries ==> exists i :: 0 <= i < |members| && members[i].0 == k
      ensures forall i, j :: 0 <= i < j < |members| ==> members[i].0 != members[j].0
    {
      var keys, entries := record.keys, record.entries;
      assert forall i :: 0 <= i < |keys| ==> keys[i] in entries;
      members := seq(|keys|, i requires 0 <= i < |keys| && keys[i] in entries => (keys[i], entries[keys[i]]));
    }
  }
}
