/** How `check_log_dump` (src/logging_plugins/cli.py) reads a dump file:
    a JSON document when the text holds a brace, otherwise the text format
    `CounterHandler.dump_text` writes. */
module DumpReader {
  import opened Results
  import opened Strings
  import opened Numbers
  import opened Ordering
  import opened Counter

  /** The `count` and `last_record` tables of a dump, as numbers. */
  datatype Dump = Dump(count: map<string, real>, lastRecord: map<string, real>)

  const EmptyDump := Dump(map[], map[])

  datatype DumpError =
    | MissingField(line: string)   // `row[1]` or `row[2]` past the end of the row
    | BadCount(field: string)      // `int(row[1])` rejects the field
    | BadTime(field: string)       // `float(row[2])` rejects the field
    | BadJson                      // the JSON decoder rejects the document

  /** One parsed row of a text dump. */
  datatype DumpRow = DumpRow(name: string, count: int, time: real)

  /** The fields of a text-dump row: the count is read before the time,
      and the first failure wins. Fields past the third are ignored. */
  function ParseFields(f: seq<string>): (r: Result<DumpRow, DumpError>)
    ensures r.Ok? <==> |f| >= 3 && ParseInt(f[1]).Some? && ParseDecimal(f[2]).Some?
    ensures r.Ok? ==> r.value == DumpRow(f[0], ParseInt(f[1]).value, ParseDecimal(f[2]).value)
    ensures r.Err? && r.error.BadCount? ==> |f| >= 2 && ParseInt(f[1]).None?
  {
    if |f| < 2 then Err(MissingField(Join(f, ' ')))
    else match ParseInt(f[1])
      case None => Err(BadCount(f[1]))
      case Some(count) =>
        if |f| < 3 then Err(MissingField(Join(f, ' ')))
        else match ParseDecimal(f[2])
          case None => Err(BadTime(f[2]))
          case Some(time) => Ok(DumpRow(f[0], count, time))
  }

  /** A text-dump row: fields split on single spaces. It parses iff it has
      three fields whose second is an integer and whose third is a number.
      A row names the text before its first space, its count is the field
      after it, and its time is the third field. */
  function ParseRow(line: string): (r: Result<DumpRow, DumpError>)
    ensures r.Ok? <==> var t := Split(line, ' ');
                       |t| >= 3 && ParseInt(t[1]).Some? && ParseDecimal(t[2]).Some?
    ensures r.Ok? ==> Some(r.value.time) == ParseDecimal(Split(line, ' ')[2])
    ensures ' ' !in line ==> r.Err?
    ensures r.Ok? ==> && ' ' in line
                      && r.value.name == line[..IndexOf(line, ' ')]
                      && Some(r.value.count) == ParseInt(Split(line[IndexOf(line, ' ') + 1..], ' ')[0])
  {
    SplitHead(line, ' ');
    ParseFields(Split(line, ' '))
  }

  /** Store a row under its label, replacing any earlier row's values. */
  function Put(d: Dump, row: DumpRow): Dump
  {
    Dump(d.count[row.name := row.count as real], d.lastRecord[row.name := row.time])
  }

  /** The rows of a text dump, in order, into `acc`; a later row for the
      same label replaces an earlier one. */
  function ParseRows(lines: seq<string>, acc: Dump): (r: Result<Dump, DumpError>)
    ensures r.Ok? <==> forall i :: 0 <= i < |lines| ==> ParseRow(lines[i]).Ok?
    decreases |lines|
  {
    if |lines| == 0 then Ok(acc)
    else
      var row :- ParseRow(lines[0]);
      assert forall i :: 1 <= i < |lines| ==> lines[i] == lines[1..][i - 1];
      ParseRows(lines[1..], Put(acc, row))
  }

  /** The first row is stored before the rest are read. */
  lemma ParseRowsCons(lines: seq<string>, acc: Dump)
    requires |lines| > 0 && ParseRow(lines[0]).Ok?
    ensures ParseRows(lines, acc) == ParseRows(lines[1..], Put(acc, ParseRow(lines[0]).value))
  {
  }

  /** The rows `lines` read as, when every line reads as a row. */
  function RowsOf(lines: seq<string>): (rows: seq<DumpRow>)
    requires forall i :: 0 <= i < |lines| ==> ParseRow(lines[i]).Ok?
    ensures |rows| == |lines|
    ensures forall i :: 0 <= i < |lines| ==> rows[i] == ParseRow(lines[i]).value
  {
    seq(|lines|, i requires 0 <= i < |lines| => ParseRow(lines[i]).value)
  }

  /** `rows` stored one after another into `acc`. */
  function PutAll(acc: Dump, rows: seq<DumpRow>): Dump
    decreases |rows|
  {
    if |rows| == 0 then acc else PutAll(Put(acc, rows[0]), rows[1..])
  }

  function Labels(rows: seq<DumpRow>): set<string>
  {
    set r | r in rows :: r.name
  }

  /** Reading lines that all parse stores their rows in order. */
  lemma {:induction false} ParseRowsPutAll(lines: seq<string>, acc: Dump)
    requires forall i :: 0 <= i < |lines| ==> ParseRow(lines[i]).Ok?
    ensures ParseRows(lines, acc) == Ok(PutAll(acc, RowsOf(lines)))
    decreases |lines|
  {
    if |lines| > 0 {
      var rest := lines[1..];
      assert forall i :: 0 <= i < |rest| ==> rest[i] == lines[i + 1];
      assert RowsOf(lines)[1..] == RowsOf(rest);
      ParseRowsCons(lines, acc);
      ParseRowsPutAll(rest, Put(acc, ParseRow(lines[0]).value));
    }
  }

  /** Storing rows adds exactly the labels they name to both tables. */
  lemma {:induction false} PutAllKeys(acc: Dump, rows: seq<DumpRow>)
    ensures PutAll(acc, rows).count.Keys == acc.count.Keys + Labels(rows)
    ensures PutAll(acc, rows).lastRecord.Keys == acc.lastRecord.Keys + Labels(rows)
    decreases |rows|
  {
    if |rows| == 0 {
      assert Labels(rows) == {};
    } else {
      PutAllKeys(Put(acc, rows[0]), rows[1..]);
      LabelsCons(rows);
    }
  }

  lemma LabelsCons(rows: seq<DumpRow>)
    requires |rows| > 0
    ensures Labels(rows) == {rows[0].name} + Labels(rows[1..])
  {
    assert rows == [rows[0]] + rows[1..];
  }

  /** Rows that do not name a label leave its entries as they were. */
  lemma {:induction false} PutAllUntouched(acc: Dump, rows: seq<DumpRow>, name: string)
    requires forall i :: 0 <= i < |rows| ==> rows[i].name != name
    requires name in acc.count && name in acc.lastRecord
    ensures name in PutAll(acc, rows).count && PutAll(acc, rows).count[name] == acc.count[name]
    ensures name in PutAll(acc, rows).lastRecord && PutAll(acc, rows).lastRecord[name] == acc.lastRecord[name]
    decreases |rows|
  {
    if |rows| > 0 {
      PutAllUntouched(Put(acc, rows[0]), rows[1..], name);
    }
  }

  /** A label's entries come from the last row that names it. */
  lemma {:induction false} PutAllLastWins(acc: Dump, rows: seq<DumpRow>, i: nat)
    requires i < |rows|
    requires forall j :: i < j < |rows| ==> rows[j].name != rows[i].name
    ensures rows[i].name in PutAll(acc, rows).count && PutAll(acc, rows).count[rows[i].name] == rows[i].count as real
    ensures rows[i].name in PutAll(acc, rows).lastRecord && PutAll(acc, rows).lastRecord[rows[i].name] == rows[i].time
    decreases |rows|
  {
    if i == 0 {
      PutAllUntouched(Put(acc, rows[0]), rows[1..], rows[0].name);
    } else {
      PutAllLastWins(Put(acc, rows[0]), rows[1..], i - 1);
    }
  }

  /** A text dump: one row per line, as `str.splitlines` separates them.
      Every line must read as a row; the rows are then stored in order, so
      the tables hold exactly the labels the rows name. */
  function ParseText(content: string): (r: Result<Dump, DumpError>)
    ensures r.Ok? <==> forall i :: 0 <= i < |SplitLines(content)| ==> ParseRow(SplitLines(content)[i]).Ok?
    ensures r.Ok? ==> r.value == PutAll(EmptyDump, RowsOf(SplitLines(content)))
    ensures r.Ok? ==> r.value.count.Keys == r.value.lastRecord.Keys == Labels(RowsOf(SplitLines(content)))
  {
    var lines := SplitLines(content);
    if forall i :: 0 <= i < |lines| ==> ParseRow(lines[i]).Ok? then
      ParseRowsPutAll(lines, EmptyDump);
      PutAllKeys(EmptyDump, RowsOf(lines));
      ParseRows(lines, EmptyDump)
    else
      ParseRows(lines, EmptyDump)
  }

  /** The dump file as `check_log_dump` reads it; JSON decoding is a
      parameter. */
  function ParseDumpFile(content: string, decodeJson: string -> Result<Dump, DumpError>): (r: Result<Dump, DumpError>)
    ensures '{' in content ==> r == decodeJson(content)
    ensures '{' !in content ==> r == ParseText(content)
  {
    if '{' in content then decodeJson(content) else ParseText(content)
  }

  function Seconds(m: map<string, nat>): (r: map<string, real>)
    ensures r.Keys == m.Keys
    ensures forall k :: k in m ==> r[k] == m[k] as real / 1000.0
  {
    map k | k in m :: m[k] as real / 1000.0
  }

  /** The tables a handler in state `st` holds, as a reader should see them. */
  function Recovered(st: CounterState): Dump
  {
    Dump(AsReals(st.counts), Seconds(st.lastRecord))
  }

  /** `acc` with the handler's values for the labels in `keys` laid over it. */
  function Overlay(acc: Dump, st: CounterState, keys: set<string>): (d: Dump)
    requires Valid(st) && keys <= st.counts.Keys
    ensures d.count.Keys == acc.count.Keys + keys
    ensures d.lastRecord.Keys == acc.lastRecord.Keys + keys
  {
    Dump(map k | k in acc.count.Keys + keys :: if k in keys then st.counts[k] as real else acc.count[k],
         map k | k in acc.lastRecord.Keys + keys :: if k in keys then st.lastRecord[k] as real / 1000.0 else acc.lastRecord[k])
  }

  /** What the reader should take from the dump line for `l`. */
  function RowValue(st: CounterState, l: string): DumpRow
    requires Valid(st) && l in st.counts
  {
    DumpRow(l, st.counts[l], st.lastRecord[l] as real / 1000.0)
  }

  /** A dump line reads back as its label, count and time in seconds. */
  lemma ParseRowOfRow(st: CounterState, l: string)
    requires Valid(st) && l in st.counts
    ensures ParseRow(Row(st, l)) == Ok(RowValue(st, l))
  {
    RowSplits(st, l);
    FieldsParse(st, l);
  }

  lemma FieldsParse(st: CounterState, l: string)
    requires Valid(st) && l in st.counts
    ensures ParseFields(RowFields(st, l)) == Ok(RowValue(st, l))
  {
    RowCountParses(st, l);
    RowTimeParses(st, l);
  }

  lemma RowSplits(st: CounterState, l: string)
    requires Valid(st) && l in st.counts
    ensures Split(Row(st, l), ' ') == RowFields(st, l)
  {
    RowShape(st, l);
    SplitJoin(RowFields(st, l), ' ');
  }

  lemma RowCountParses(st: CounterState, l: string)
    requires Valid(st) && l in st.counts
    ensures ParseInt(RowFields(st, l)[1]) == Some(st.counts[l] as int)
  {
    ParseIntOfString(st.counts[l]);
  }

  lemma RowTimeParses(st: CounterState, l: string)
    requires Valid(st) && l in st.counts
    ensures ParseDecimal(RowFields(st, l)[2]) == Some(st.lastRecord[l] as real / 1000.0)
  {
    ParseDecimalOfMillis(st.lastRecord[l]);
  }

  function Elems(labels: seq<string>): set<string>
  {
    set l | l in labels
  }

  lemma ElemsCons(labels: seq<string>)
    requires |labels| > 0
    ensures Elems(labels) == {labels[0]} + Elems(labels[1..])
  {
    assert forall x :: x in labels <==> x == labels[0] || x in labels[1..];
  }

  lemma OverlayPut(acc: Dump, st: CounterState, l: string, rest: set<string>)
    requires Valid(st) && l in st.counts && rest <= st.counts.Keys
    ensures Overlay(Put(acc, RowValue(st, l)), st, rest) == Overlay(acc, st, {l} + rest)
  {
  }

  lemma OverlayNothing(acc: Dump, st: CounterState)
    requires Valid(st)
    ensures Overlay(acc, st, {}) == acc
  {
    var d := Overlay(acc, st, {});
    assert d.count == acc.count && d.lastRecord == acc.lastRecord;
  }

  lemma ParseRowsStep(st: CounterState, labels: seq<string>, acc: Dump)
    requires Valid(st) && |labels| > 0 && labels[0] in st.counts
    ensures ParseRows(Rows(st, labels), acc) == ParseRows(Rows(st, labels[1..]), Put(acc, RowValue(st, labels[0])))
  {
    var rows := Rows(st, labels);
    assert rows[1..] == Rows(st, labels[1..]);
    ParseRowOfRow(st, labels[0]);
  }

  lemma {:induction false} ParseRowsOfRows(st: CounterState, labels: seq<string>, acc: Dump)
    requires Valid(st)
    requires forall i :: 0 <= i < |labels| ==> labels[i] in st.counts
    ensures Elems(labels) <= st.counts.Keys
    ensures ParseRows(Rows(st, labels), acc) == Ok(Overlay(acc, st, Elems(labels)))
    decreases |labels|
  {
    if |labels| == 0 {
      assert Elems(labels) == {};
      OverlayNothing(acc, st);
    } else {
      ParseRowsStep(st, labels, acc);
      ParseRowsOfRows(st, labels[1..], Put(acc, RowValue(st, labels[0])));
      ElemsCons(labels);
      OverlayPut(acc, st, labels[0], Elems(labels[1..]));
    }
  }

  /** Reading back what `dump_text` wrote recovers every label's count and
      its last-record time in seconds, and nothing else. */
  lemma DumpRoundTrip(st: CounterState, decodeJson: string -> Result<Dump, DumpError>)
    requires Valid(st)
    ensures ParseDumpFile(DumpText(st), decodeJson) == Ok(Recovered(st))
  {
    DumpTextNoBrace(st);
    TextRoundTrip(st);
  }

  lemma TextRoundTrip(st: CounterState)
    requires Valid(st)
    ensures ParseText(DumpText(st)) == Ok(Recovered(st))
  {
    var labels := SortedKeys(st.counts.Keys);
    DumpLines(st);
    SortedKeysCover(st.counts.Keys);
    RoundTripOver(st, labels);
  }

  /** The ascending listing of a set of labels lists exactly that set. */
  lemma SortedKeysCover(keys: set<string>)
    ensures forall i :: 0 <= i < |SortedKeys(keys)| ==> SortedKeys(keys)[i] in keys
    ensures Elems(SortedKeys(keys)) == keys
  {
  }

  lemma RoundTripOver(st: CounterState, labels: seq<string>)
    requires Valid(st)
    requires SplitLines(DumpText(st)) == Rows(st, labels)
    requires forall i :: 0 <= i < |labels| ==> labels[i] in st.counts
    requires Elems(labels) == st.counts.Keys
    ensures ParseText(DumpText(st)) == Ok(Recovered(st))
  {
    ParseRowsOfRows(st, labels, EmptyDump);
    OverlayAll(st);
  }

  lemma OverlayAll(st: CounterState)
    requires Valid(st)
    ensures Overlay(EmptyDump, st, st.counts.Keys) == Recovered(st)
  {
    var d := Overlay(EmptyDump, st, st.counts.Keys);
    assert d.count == AsReals(st.counts);
    assert d.lastRecord == Seconds(st.lastRecord);
  }
}
