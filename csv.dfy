/** The delimited-text rows the property writer produces: `to_csv_row`
    renders each item with `str`, puts the separator between consecutive
    items and ends the row with one newline. No quoting is done. */
module Csv {

  /** The fields with `sep` between consecutive ones (Python's `sep.join(fields)`). */
  function Join(fields: seq<string>, sep: string): string
  {
    if |fields| == 0 then ""
    else if |fields| == 1 then fields[0]
    else Join(fields[..|fields| - 1], sep) + sep + fields[|fields| - 1]
  }

  /** `[str(x) for x in items]`. */
  function Rendered<T>(items: seq<T>, str: T -> string): (r: seq<string>)
    ensures |r| == |items|
    ensures forall i :: 0 <= i < |items| ==> r[i] == str(items[i])
  {
    seq(|items|, i requires 0 <= i < |items| => str(items[i]))
  }

  /** The row `to_csv_row(items, sep)` returns. */
  function CsvRow<T>(items: seq<T>, str: T -> string, sep: string): (r: string)
    ensures |r| > 0 && r[|r| - 1] == '\n'
    ensures items == [] ==> r == "\n"
    ensures |items| == 1 ==> r == str(items[0]) + "\n"
  {
    Join(Rendered(items, str), sep) + "\n"
  }

  /** `PropertyWriter.to_csv_row`: builds the row by concatenation, item by item. */
  method ToCsvRow<T>(items: seq<T>, str: T -> string, sep: string := ",") returns (res: string)
    ensures res == CsvRow(items, str, sep)
  {
    ghost var fields := Rendered(items, str);
    var n := |items|;
    res := "";
    for i := 0 to n
      invariant res == Join(fields[..i], sep) + (if 0 < i < n then sep else "")
    {
      assert fields[..i + 1][..i] == fields[..i];
      res := res + str(items[i]);
      if i != n - 1 {
        res := res + sep;
      }
    }
    assert fields[..n] == fields;
    res := res + "\n";
  }

  /** Cutting a line at every occurrence of `c` (Python's `line.split(c)`). */
  function Split(s: string, c: char): (r: seq<string>)
    ensures |r| > 0
  {
    if s == [] then [""]
    else if s[|s| - 1] == c then Split(s[..|s| - 1], c) + [""]
    else
      var parts := Split(s[..|s| - 1], c);
      parts[..|parts| - 1] + [parts[|parts| - 1] + [s[|s| - 1]]]
  }

  /** A field without the separator is read back as one field. */
  lemma {:induction false} SplitField(x: string, c: char)
    requires c !in x
    ensures Split(x, c) == [x]
  {
    if x != [] {
      SplitField(x[..|x| - 1], c);
      assert x[..|x| - 1] + [x[|x| - 1]] == x;
    }
  }

  /** A separator followed by a field adds that field to what came before. */
  lemma {:induction false} SplitAfterSeparator(a: string, x: string, c: char)
    requires c !in x
    ensures Split(a + [c] + x, c) == Split(a, c) + [x]
  {
    var s := a + [c] + x;
    if x == [] {
      assert s[..|s| - 1] == a;
    } else {
      var x' := x[..|x| - 1];
      assert s[..|s| - 1] == a + [c] + x';
      SplitAfterSeparator(a, x', c);
      assert x' + [x[|x| - 1]] == x;
    }
  }

  /** Reading a joined line back gives the fields, provided no field holds the separator. */
  lemma {:induction false} SplitJoin(fields: seq<string>, c: char)
    requires |fields| > 0
    requires forall i :: 0 <= i < |fields| ==> c !in fields[i]
    ensures Split(Join(fields, [c]), c) == fields
  {
    if |fields| == 1 {
      SplitField(fields[0], c);
    } else {
      var init := fields[..|fields| - 1];
      SplitJoin(init, c);
      SplitAfterSeparator(Join(init, [c]), fields[|fields| - 1], c);
      assert init + [fields[|fields| - 1]] == fields;
    }
  }

  /** The body of a row (without its newline) splits into exactly the rendered items, in order. */
  lemma RowFields<T>(items: seq<T>, str: T -> string, c: char)
    requires |items| > 0
    requires forall i :: 0 <= i < |items| ==> c !in str(items[i])
    ensures var row := CsvRow(items, str, [c]);
      Split(row[..|row| - 1], c) == Rendered(items, str)
  {
    var row := CsvRow(items, str, [c]);
    assert row[..|row| - 1] == Join(Rendered(items, str), [c]);
    SplitJoin(Rendered(items, str), c);
  }
}
