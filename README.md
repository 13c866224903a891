# PropertyWriter, modelled in Dafny

`PropertyWriter` (in `ase_extras/property_writer.py`) is an observer that a
molecular-dynamics run calls between steps. It is built with a list of
property names. It keeps `record`, an insertion-ordered dictionary from
property name to the list of values logged so far. When it is given a file,
it writes a header row of comma-separated names to that file. Each step can
then either append the current values to the lists (`log`) or append them to
the file as one more row (`log_to_file`). `save_to_json` dumps the whole record.

The model is imperative, like the source:

- `PropertyWriting.PropertyWriter` is a class with `properties`, `file`, the
  mutable `record` and a ghost `fileText` holding the file's contents.
- `Log` updates `record` in place, key after key.
- The constructor, `GetProperty` and `Csv.ToCsvRow` are the source's loops,
  each with its invariant.
- Every loop is proved against a pure specification function:
  `InitialRecord`, `StepResults`, `AppendFirst` or `Csv.CsvRow`.
- Separate lemmas state what those functions mean: key order, key set,
  values, and how a row reads back.

Python's `dict` is `Dicts.Dict`: a key sequence in insertion order plus a
lookup table. `Dicts.Put` is `d[k] = v`. A new key goes last; an existing key
keeps its place and gets the new value.

**The condition at line 61 is modelled as written.**
`p == "potential_energy" or "energy"` is true for every `p`, because the
non-empty literal `"energy"` is true. Consequences:

- Every name other than `total_energy`, `kinetic_energy` and `temperature`
  is reported under `potential_energy`, with the calculator's energy as its
  value. This includes `energy`, unknown names and the default `""`.
- The `try`/`except` lookup in the last branch never runs.
  `StoreProperty` keeps that branch, but it is unreachable.
- A writer asked for an unknown name, and for neither `potential_energy` nor
  `energy`, has no record key for what its steps report. Its `log` would
  raise `KeyError` (`UnrecognisedCannotBeLogged`). The default
  `properties=[""]` is such a case.
- A writer asked for an unknown name together with `potential_energy` or
  `energy` logs without error, but the unknown name's list never grows
  (`UnknownNameNeverLogged`). Its header has more columns than any row
  written by `log_to_file` has values (`UnknownNameNarrowsRows`).

The package's test (test/test_property_writer.py:67 and :73-75) requests an
`nsteps` property and passes `callback_properties=` and `dyn=` to the
constructor. The constructor at ase_extras/property_writer.py:8-10 accepts
none of these, and `get_property` has no `nsteps` branch. The model follows
the code: it has no step counter and no callbacks.

The defaults of the source are kept: the constructor's
`properties := [""]` and `file := None`, and the `sep := ","` of
`Csv.ToCsvRow`.

## Model

`RecordKey` is the rename of lines 17-18. `ResultKey` and `Eval` are the key
and the value that the dispatch of lines 51-63 chooses for a name. They are
definitions, so the table lists the lemmas about them instead.

| member | source | states |
|---|---|---|
| Csv.CsvRow | ase_extras/property_writer.py:24-32 | A row ends with the one newline `to_csv_row` appends. An empty item list gives `"\n"`. A single item gives its string followed by `"\n"`, with no separator. |
| Csv.ToCsvRow | ase_extras/property_writer.py:24-32 | The concatenation loop of `to_csv_row` returns exactly `CsvRow`: each item's string in order, `sep` between consecutive items only, then the newline. |
| Csv.SplitJoin | ase_extras/property_writer.py:24-32 | Cutting the joined fields at the separator gives the fields back, when the list of fields is non-empty and no field contains the separator. So the separator then occurs only between items. |
| Csv.RowFields | ase_extras/property_writer.py:24-32 | When the item list is non-empty and no item's string contains the separator, the body of a row, without its newline, splits into exactly the rendered items, in order. |
| Dicts.Put | ase_extras/property_writer.py:19 | `d[k] = v`: the key set grows by `k` and `k` maps to `v`. Every other key keeps its value. The key order is unchanged for an old key and gains `k` at the end for a new one. |
| Dicts.Values | ase_extras/property_writer.py:46 | Definition of the built-in `results.values()`: one value per key, the i-th being the value of the i-th key. |
| Dicts.Dedup | ase_extras/property_writer.py:16-19 | The result lists each element of the input exactly once. |
| Dicts.DedupOrder | ase_extras/property_writer.py:16-19 | The result lists the elements in the order of their first occurrence in the input. |
| PropertyWriting.InitialRecordIs | ase_extras/property_writer.py:16-19 | The record keys after construction are the requested names, with `energy` renamed, each once, in first-request order. Every list is empty. |
| PropertyWriting.RecordKeysAre | ase_extras/property_writer.py:16-19 | `k` is a record key exactly when `k` is not `energy` and either `k` was requested, or `k` is `potential_energy` and `energy` was requested. |
| PropertyWriting.PropertyWriter.constructor | ase_extras/property_writer.py:8-22 | The loop builds exactly `InitialRecord(properties)`. With a file, the file holds exactly the header row of the record keys. Without one, nothing is written. |
| PropertyWriting.PropertyWriter.WriteHeader | ase_extras/property_writer.py:34-36 | The file is overwritten with `to_csv_row(record.keys())`. |
| PropertyWriting.PropertyWriter.GetProperty | ase_extras/property_writer.py:48-70 | The loop over the requested names returns exactly `StepResults(properties, a)`. |
| PropertyWriting.PropertyWriter.StoreProperty | ase_extras/property_writer.py:51-69 | Each branch of the dispatch, including the always-true condition of line 61, stores the name's value under `ResultKey(p)`. |
| PropertyWriting.StepResultsKeys | ase_extras/property_writer.py:49-63 | A step reports the result keys of the requested names, each once, in first-request order. A repeated name keeps its first position. |
| PropertyWriting.StepResultsValues | ase_extras/property_writer.py:51-63 | Every reported key is one of the four built-in keys. Its value is that quantity on the current state; the total energy is the kinetic energy plus `calc.results["energy"]`. |
| PropertyWriting.ResultKeysAre | ase_extras/property_writer.py:48-70 | `total_energy`, `kinetic_energy` and `temperature` are reported exactly when requested. `potential_energy` is reported exactly when some other name is requested. Nothing else is ever reported. |
| PropertyWriting.UnknownNameReportsPotentialEnergy | ase_extras/property_writer.py:61-63 | An unrecognised name requested alone yields the single key `potential_energy`, with the calculator's energy as its value, not a lookup under its own name. |
| PropertyWriting.UnknownNameNeverLogged | ase_extras/property_writer.py:16-63 | In any list of requested names, an unrecognised name has a record list, but no step reports it; `potential_energy` is reported instead, with the calculator's energy. |
| PropertyWriting.UnknownNameNarrowsRows | ase_extras/property_writer.py:34-63 | With an unrecognised name and `potential_energy` or `energy` requested, `log` raises no `KeyError`, but a step reports fewer values than the header has columns. |
| PropertyWriting.RecognisedKeysAlign | ase_extras/property_writer.py:38-41 | With recognised names only, a step reports exactly the record's keys, in the record's order. |
| PropertyWriting.UnrecognisedCannotBeLogged | ase_extras/property_writer.py:38-41 | An unrecognised name, with neither `potential_energy` nor `energy` requested, produces a reported key that the record lacks. Logging it raises `KeyError`. |
| PropertyWriting.LogAllowedIff | ase_extras/property_writer.py:38-41 | Every key a step reports has a record list, so `log` raises no `KeyError`, if and only if every requested name is `total_energy`, `kinetic_energy` or `temperature`, or `potential_energy` or `energy` is requested. |
| PropertyWriting.RecognisedCanLog | ase_extras/property_writer.py:38-41 | With recognised names only, every name's reported key is a record key, which is what `Log` requires. |
| PropertyWriting.ReportedKeysAreRecorded | ase_extras/property_writer.py:38-41 | If the result key of every requested name is a record key, then every key a step reports is a record key. |
| PropertyWriting.PropertyWriter.Log | ase_extras/property_writer.py:38-41 | Each reported key's list grows by exactly the reported value. Every other list, the key set and the key order stay as they were. The class invariant is kept. |
| PropertyWriting.PropertyWriter.AppendResults | ase_extras/property_writer.py:40-41 | The append loop leaves the record equal to `AppendFirst` over all reported keys. |
| PropertyWriting.PropertyWriter.AppendValue | ase_extras/property_writer.py:41 | `record[p].append(v)`: the list under `p` gains `v` at its end, and nothing else changes. |
| PropertyWriting.AppendFirstShape | ase_extras/property_writer.py:40-41 | Appending never adds, removes or reorders a record key. |
| PropertyWriting.AppendStep | ase_extras/property_writer.py:40-41 | When every reported key is a record key, each turn of the loop finds its key and appends that key's value. |
| PropertyWriting.AppendFirstAt | ase_extras/property_writer.py:40-41 | After the first `n` reported keys, a key's list has grown by its value exactly when the key is among those `n`, and is unchanged otherwise. |
| PropertyWriting.AppendAllLogs | ase_extras/property_writer.py:40-41 | Running the loop over all reported keys is one `log` step, as `Log` promises. It keeps the dictionary well-formed. |
| PropertyWriting.LogKeepsEqualLengths | ase_extras/property_writer.py:38-41 | With recognised names only, if every list had length `n` before `log`, every list has length `n + 1` after it. |
| PropertyWriting.PropertyWriter.LogToFile | ase_extras/property_writer.py:43-46 | The record is unchanged. The file gains exactly one row at its end: `to_csv_row(results.values())` for this step. |
| PropertyWriting.RowMatchesHeader | ase_extras/property_writer.py:34-46 | With recognised names only, a row has as many values as the header has columns. The i-th value is the value of the i-th header name. |
| PropertyWriting.HeaderReadsBack | ase_extras/property_writer.py:34-36 | With at least one requested name, and recognised names only, the header row splits at commas back into the record keys, in order. |
| PropertyWriting.RowReadsBack | ase_extras/property_writer.py:43-46 | With at least one requested name, recognised names only, and a `str` that never renders a comma, every data row splits into as many fields as the header has columns. |
| PropertyWriting.PropertyWriter.SaveToJson | ase_extras/property_writer.py:72-74 | The dumped object has one member per record key, each once, in record order, each with its whole list. The writer is unchanged. |
| Wrappers.Lookup | ase_extras/property_writer.py:65-69 | Definition of the built-in lookup `calc.results[p]` with its `KeyError` caught: the value stored under `p`, or nothing exactly when `p` is absent. Only the unreachable last branch uses it. |

## Left out

- ASE's `Atoms`, its calculator and the dynamics that drive the writer are not part of this model. The state read at each call is a value `Atoms` with the kinetic energy, the temperature and the calculator's result table. It is passed to each operation instead of being stored at construction.
- Floating-point arithmetic is modelled as exact `real` arithmetic, so `kin_energy + pot_energy` has no rounding.
- Python's `str()` of a number is the parameter `str` of `LogToFile` and `RowReadsBack`. Its output is not modelled.
- Files are a ghost string. Opening, closing and I/O errors are not modelled, and the `file` argument of `_write_header` is always the writer's own file.
- `json.dump` formatting (indentation, number syntax) is not modelled. `SaveToJson` returns the ordered members that are serialised.
- The `print` in the unreachable `except` branch is not modelled. That branch does nothing in the model.
- Aliasing is not modelled: the caller's `properties` list, and the lists stored in `record`, are values here.
- PropertyWriting.PropertyWriter.Log: requires every reported key to be a record key. The source raises `KeyError` at line 41 otherwise, possibly after appending to some lists; that exception path is not modelled. `UnrecognisedCannotBeLogged` shows when it happens.
- PropertyWriting.PropertyWriter.GetProperty: requires `calc.results["energy"]` to exist whenever a requested name reads it. The source raises `KeyError` otherwise, and that is not modelled.
- PropertyWriting.PropertyWriter.LogToFile: requires a file. The source calls `open(None)` when there is none, which raises, and that is not modelled.
- `to_csv_row` does no quoting. A requested name that contains a comma, such as `"a,b"`, reads back from the header as several fields, so `HeaderReadsBack` needs names without commas (every recognised name is one).
- PropertyWriting.RowReadsBack: requires that `str` never renders a comma (true of Python's number rendering). It states the field count; the field values are stated by `RowMatchesHeader`.
