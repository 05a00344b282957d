/** `CounterHandler` (src/logging_plugins/__init__.py): per-label record
    counts and last-record times, and the `dump_text` rendering. The clock
    is a parameter: `now` is `time.time()` in whole milliseconds. */
module Counter {
  import opened Results
  import opened Strings
  import opened Numbers
  import opened Ordering
  import opened Records
  import opened Levels

  predicate LabelChar(c: char)
  {
    'A' <= c <= 'Z' || '0' <= c <= '9' || c == '-'
  }

  /** The shape of every label the handler produces. */
  predicate WellFormedLabel(l: string)
  {
    |l| > 0 && forall i :: 0 <= i < |l| ==> LabelChar(l[i])
  }

  const ExceptionLabel := "EXCEPTION"
  const LevelPrefix := "LEVEL"

  lemma IntToStringChars(n: int)
    ensures forall i :: 0 <= i < |IntToString(n)| ==> LabelChar(IntToString(n)[i])
  {
    if n < 0 {
      assert forall i :: 1 <= i < |IntToString(n)| ==> IntToString(n)[i] == NatToString(-n)[i - 1];
    }
  }

  /** The name of a level with no `LEVELNO_TO_STR` entry. */
  function FallbackLabel(levelno: int): (l: string)
    ensures WellFormedLabel(l)
    ensures |l| > |LevelPrefix| && l[0] == 'L'
    ensures StartsWith(l, LevelPrefix) && ParseInt(l[|LevelPrefix|..]) == Some(levelno)
    ensures CanonicalInt(l[|LevelPrefix|..])
  {
    var d := IntToString(levelno);
    IntToStringChars(levelno);
    ParseIntOfString(levelno);
    assert LevelPrefix[0] == 'L' && forall i :: 0 <= i < |LevelPrefix| ==> LabelChar(LevelPrefix[i]);
    LabelOfParts(LevelPrefix, d);
    LevelPrefix + d
  }

  /** Label characters joined stay label characters, and the parts can be
      read back. */
  lemma LabelOfParts(p: string, d: string)
    requires |p| > 0 && |d| > 0
    requires forall i :: 0 <= i < |p| ==> LabelChar(p[i])
    requires forall i :: 0 <= i < |d| ==> LabelChar(d[i])
    ensures WellFormedLabel(p + d) && (p + d)[0] == p[0]
    ensures StartsWith(p + d, p) && (p + d)[|p|..] == d
  {
    assert (p + d)[..|p|] == p;
  }

  /** Only `LEVEL%d` meets `FallbackLabel`'s contract: no other spelling
      of the number, such as one with a leading zero, does. */
  lemma FallbackLabelUnique(l: string, levelno: int)
    requires StartsWith(l, LevelPrefix)
    requires CanonicalInt(l[|LevelPrefix|..]) && ParseInt(l[|LevelPrefix|..]) == Some(levelno)
    ensures l == FallbackLabel(levelno)
  {
    var f := FallbackLabel(levelno);
    CanonicalIntUnique(l[|LevelPrefix|..], levelno);
    CanonicalIntUnique(f[|LevelPrefix|..], levelno);
    assert l == l[..|LevelPrefix|] + l[|LevelPrefix|..];
    assert f == f[..|LevelPrefix|] + f[|LevelPrefix|..];
  }

  /** The label `CounterHandler.emit` counts a record under: the level's
      name, `LEVEL<n>` for an unnamed level, and EXCEPTION for an ERROR
      record carrying exception info. */
  function Label(rec: LogRecord): (l: string)
    ensures WellFormedLabel(l)
    ensures rec.levelno == ERROR && rec.excInfo.Some? ==> l == ExceptionLabel
    ensures rec.levelno in LevelNoToStr && !(rec.levelno == ERROR && rec.excInfo.Some?) ==> l == LevelNoToStr[rec.levelno]
    ensures rec.levelno !in LevelNoToStr ==> l == FallbackLabel(rec.levelno)
  {
    NamedLabels();
    var name := if rec.levelno in LevelNoToStr then LevelNoToStr[rec.levelno] else FallbackLabel(rec.levelno);
    assert name == "ERROR" <==> rec.levelno == ERROR by {
      if rec.levelno !in LevelNoToStr {
        assert name[0] == 'L' && "ERROR"[0] == 'E';
      }
    }
    if name == "ERROR" && rec.excInfo.Some? then ExceptionLabel else name
  }

  /** Every level name is a well-formed label, and only level 40 is named
      ERROR. */
  lemma NamedLabels()
    ensures forall n :: n in LevelNoToStr ==> WellFormedLabel(LevelNoToStr[n])
    ensures forall n :: n in LevelNoToStr ==> (LevelNoToStr[n] == "ERROR" <==> n == ERROR)
    ensures ERROR in LevelNoToStr && WellFormedLabel(ExceptionLabel)
  {
    LevelNoToStrContents();
    assert "DEBUG"[0] != 'E' && "INFO"[0] != 'E' && "WARNING"[0] != 'E' && "FATAL"[0] != 'E';
    assert WellFormedLabel("DEBUG") && WellFormedLabel("INFO") && WellFormedLabel("WARNING");
    assert WellFormedLabel("ERROR") && WellFormedLabel("FATAL") && WellFormedLabel(ExceptionLabel);
  }

  /** Records of different levels are never counted under one label. */
  lemma LabelSeparatesLevels(a: LogRecord, b: LogRecord)
    requires Label(a) == Label(b)
    ensures a.levelno == b.levelno
  {
    if a.levelno !in LevelNoToStr && b.levelno !in LevelNoToStr {
      assert Some(a.levelno) == ParseInt(Label(a)[|LevelPrefix|..]) == Some(b.levelno);
    } else if a.levelno in LevelNoToStr && b.levelno in LevelNoToStr {
      NamedLabelLevel(a);
      NamedLabelLevel(b);
    } else if a.levelno in LevelNoToStr {
      NamedLabelLevel(a);
    } else {
      NamedLabelLevel(b);
    }
  }

  /** The level a named label stands for; EXCEPTION stands for ERROR. */
  function NamedLevel(l: string): int
  {
    if l == "DEBUG" then 10 else if l == "INFO" then 20 else if l == "WARNING" then 30
    else if l == "FATAL" then 50 else 40
  }

  lemma NamedLabelLevel(rec: LogRecord)
    requires rec.levelno in LevelNoToStr
    ensures Label(rec)[0] != 'L' && NamedLevel(Label(rec)) == rec.levelno
  {
    LevelNoToStrContents();
  }

  /** The handler's `counts` and `last_record` maps. */
  datatype CounterState = CounterState(counts: map<string, nat>, lastRecord: map<string, nat>)

  const Fresh := CounterState(map[], map[])

  /** What `emit` maintains: both maps share their labels, every label is
      well formed and every count is positive. */
  predicate Valid(st: CounterState)
  {
    && st.counts.Keys == st.lastRecord.Keys
    && forall l :: l in st.counts ==> WellFormedLabel(l) && st.counts[l] >= 1
  }

  function CountOf(st: CounterState, l: string): nat
  {
    if l in st.counts then st.counts[l] else 0
  }

  /** `CounterHandler.emit`: one more record under the record's label,
      stamped `now`; every other label keeps its count and time. */
  function Emit(st: CounterState, rec: LogRecord, now: nat): (st': CounterState)
    ensures st'.counts.Keys == st.counts.Keys + {Label(rec)}
    ensures st'.lastRecord.Keys == st.lastRecord.Keys + {Label(rec)}
    ensures CountOf(st', Label(rec)) == CountOf(st, Label(rec)) + 1
    ensures st'.lastRecord[Label(rec)] == now
    ensures forall k :: k != Label(rec) ==> CountOf(st', k) == CountOf(st, k)
    ensures forall k :: k in st.lastRecord && k != Label(rec) ==> st'.lastRecord[k] == st.lastRecord[k]
    ensures Valid(st) ==> Valid(st')
  {
    var l := Label(rec);
    CounterState(st.counts[l := 1 + CountOf(st, l)], st.lastRecord[l := now])
  }

  /** Records emitted in order, the i-th at `times[i]`: the last record's
      label ends up stamped with the last time. */
  function EmitAll(st: CounterState, recs: seq<LogRecord>, times: seq<nat>): (r: CounterState)
    requires |recs| == |times|
    ensures |recs| > 0 ==> Label(recs[|recs| - 1]) in r.lastRecord
                           && r.lastRecord[Label(recs[|recs| - 1])] == times[|times| - 1]
    decreases |recs|
  {
    if |recs| == 0 then st
    else
      assert |recs| > 1 ==> recs[1..][|recs| - 2] == recs[|recs| - 1] && times[1..][|times| - 2] == times[|times| - 1];
      EmitAll(Emit(st, recs[0], times[0]), recs[1..], times[1..])
  }

  /** How many of `recs` carry label `l`. */
  function LabelCount(recs: seq<LogRecord>, l: string): nat
  {
    if |recs| == 0 then 0 else (if Label(recs[0]) == l then 1 else 0) + LabelCount(recs[1..], l)
  }

  /** Emitting a stream adds to each label's count the number of records
      that carry it, and a label is counted once any record carried it. */
  lemma {:induction false} EmitAllCounts(st: CounterState, recs: seq<LogRecord>, times: seq<nat>, l: string)
    requires |recs| == |times|
    ensures CountOf(EmitAll(st, recs, times), l) == CountOf(st, l) + LabelCount(recs, l)
    ensures l in EmitAll(st, recs, times).counts <==> l in st.counts || LabelCount(recs, l) > 0
    decreases |recs|
  {
    if |recs| > 0 {
      EmitAllCounts(Emit(st, recs[0], times[0]), recs[1..], times[1..], l);
    }
  }

  function AsReals(m: map<string, nat>): (r: map<string, real>)
    ensures r.Keys == m.Keys
    ensures forall k :: k in m ==> r[k] == m[k] as real
  {
    map k | k in m :: m[k] as real
  }

  /** The number of records the handler has counted, over all labels. */
  function Total(st: CounterState): real
  {
    SumSet(AsReals(st.counts), st.counts.Keys)
  }

  /** Each `emit` adds exactly one to the total. */
  lemma EmitTotal(st: CounterState, rec: LogRecord, now: nat)
    ensures Total(Emit(st, rec, now)) == Total(st) + 1.0
  {
    var st' := Emit(st, rec, now);
    var l := Label(rec);
    var m, m' := AsReals(st.counts), AsReals(st'.counts);
    assert m'[l] == (if l in st.counts.Keys then m[l] else 0.0) + 1.0 by {
      assert CountOf(st', l) == CountOf(st, l) + 1;
    }
    forall k | k in st.counts.Keys - {l} ensures m[k] == m'[k] {
      assert CountOf(st', k) == CountOf(st, k);
    }
    SumSetBump(m, m', st.counts.Keys, l, 1.0);
  }

  /** Starting fresh, the total is the number of records emitted, and the
      state stays valid. */
  lemma {:induction false} EmitAllTotal(st: CounterState, recs: seq<LogRecord>, times: seq<nat>)
    requires |recs| == |times| && Valid(st)
    ensures Valid(EmitAll(st, recs, times))
    ensures Total(EmitAll(st, recs, times)) == Total(st) + |recs| as real
    decreases |recs|
  {
    if |recs| > 0 {
      EmitTotal(st, recs[0], times[0]);
      EmitAllTotal(Emit(st, recs[0], times[0]), recs[1..], times[1..]);
    }
  }

  function LastOf(st: CounterState, l: string): nat
  {
    if l in st.lastRecord then st.lastRecord[l] else 0
  }

  /** The fields of the dump line for label `l`: "%s %d %.3f". */
  function RowFields(st: CounterState, l: string): seq<string>
  {
    [l, IntToString(CountOf(st, l)), FormatMillis(LastOf(st, l))]
  }

  function Row(st: CounterState, l: string): string
  {
    Join(RowFields(st, l), ' ')
  }

  function Rows(st: CounterState, labels: seq<string>): (r: seq<string>)
    ensures |r| == |labels|
    ensures forall i :: 0 <= i < |labels| ==> r[i] == Row(st, labels[i])
  {
    if |labels| == 0 then [] else [Row(st, labels[0])] + Rows(st, labels[1..])
  }

  /** `CounterHandler.dump_text`: one line per counted label, labels in
      ascending order. */
  function DumpText(st: CounterState): (s: string)
    ensures |s| == 0 <==> |st.counts| == 0
    ensures |s| > 0 ==> s[|s| - 1] == '\n'
  {
    Lines(Rows(st, SortedKeys(st.counts.Keys)))
  }

  /** Characters that can appear on a dump line. */
  predicate DumpChar(c: char)
  {
    LabelChar(c) || c == ' ' || c == '.'
  }

  lemma DumpCharIsPlain(c: char)
    requires DumpChar(c)
    ensures !IsLineBreak(c) && c != '{'
  {
  }

  lemma FormatMillisChars(ms: nat)
    ensures forall i :: 0 <= i < |FormatMillis(ms)| ==> IsDigit(FormatMillis(ms)[i]) || FormatMillis(ms)[i] == '.'
  {
    var a, b := NatToString(ms / 1000), Pad3(ms % 1000);
    assert FormatMillis(ms) == a + "." + b;
  }

  /** A dump line is made of dump characters, and its fields hold no space. */
  lemma RowShape(st: CounterState, l: string)
    requires WellFormedLabel(l)
    ensures forall i :: 0 <= i < |Row(st, l)| ==> DumpChar(Row(st, l)[i])
    ensures NoLineBreak(Row(st, l))
    ensures forall i :: 0 <= i < |RowFields(st, l)| ==> ' ' !in RowFields(st, l)[i]
  {
    var c, t := IntToString(CountOf(st, l)), FormatMillis(LastOf(st, l));
    IntToStringChars(CountOf(st, l));
    FormatMillisChars(LastOf(st, l));
    assert RowFields(st, l)[1..] == [c, t] && [c, t][1..] == [t];
    assert Join([c, t], ' ') == c + " " + t;
    assert Row(st, l) == l + " " + (c + " " + t);
    assert forall i :: 0 <= i < |c| ==> c[i] != ' ';
    assert forall i :: 0 <= i < |t| ==> t[i] != ' ';
    forall i | 0 <= i < |Row(st, l)| ensures !IsLineBreak(Row(st, l)[i]) {
      DumpCharIsPlain(Row(st, l)[i]);
    }
  }

  lemma {:induction false} LinesChars(lines: seq<string>)
    requires forall k, i :: 0 <= k < |lines| && 0 <= i < |lines[k]| ==> DumpChar(lines[k][i])
    ensures forall i :: 0 <= i < |Lines(lines)| ==> DumpChar(Lines(lines)[i]) || Lines(lines)[i] == '\n'
  {
    if |lines| > 0 {
      LinesChars(lines[1..]);
      var h, t := lines[0], Lines(lines[1..]);
      assert Lines(lines) == h + "\n" + t;
      forall i | 0 <= i < |Lines(lines)|
        ensures DumpChar(Lines(lines)[i]) || Lines(lines)[i] == '\n'
      {
        if i < |h| {
          assert DumpChar(lines[0][i]);
        } else if i > |h| {
          assert Lines(lines)[i] == t[i - |h| - 1];
        }
      }
    }
  }

  /** The dump has one line per counted label, in ascending label order
      (the order `SortedKeys` promises); each line splits on spaces into the
      label, its count and its last-record time; no line holds a brace. */
  lemma DumpTextLines(st: CounterState)
    requires Valid(st)
    ensures SplitLines(DumpText(st)) == Rows(st, SortedKeys(st.counts.Keys))
    ensures forall l :: l in st.counts ==> Split(Row(st, l), ' ') == RowFields(st, l)
    ensures '{' !in DumpText(st)
  {
    DumpLines(st);
    DumpTextNoBrace(st);
    forall l | l in st.counts
      ensures Split(Row(st, l), ' ') == RowFields(st, l)
    {
      RowShape(st, l);
      SplitJoin(RowFields(st, l), ' ');
    }
  }

  lemma DumpLines(st: CounterState)
    requires Valid(st)
    ensures SplitLines(DumpText(st)) == Rows(st, SortedKeys(st.counts.Keys))
  {
    var labels := SortedKeys(st.counts.Keys);
    assert forall k :: 0 <= k < |labels| ==> labels[k] in st.counts;
    RowsShape(st, labels);
    SplitLinesOfLines(Rows(st, labels));
  }

  lemma DumpTextNoBrace(st: CounterState)
    requires Valid(st)
    ensures '{' !in DumpText(st)
  {
    var labels := SortedKeys(st.counts.Keys);
    assert forall k :: 0 <= k < |labels| ==> labels[k] in st.counts;
    RowsShape(st, labels);
    LinesNoBrace(Rows(st, labels));
  }

  lemma LinesNoBrace(lines: seq<string>)
    requires forall k, i :: 0 <= k < |lines| && 0 <= i < |lines[k]| ==> DumpChar(lines[k][i])
    ensures '{' !in Lines(lines)
  {
    LinesChars(lines);
    var text := Lines(lines);
    assert forall i :: 0 <= i < |text| ==> text[i] != '{';
  }

  lemma RowsShape(st: CounterState, labels: seq<string>)
    requires forall k :: 0 <= k < |labels| ==> WellFormedLabel(labels[k])
    ensures forall k :: 0 <= k < |labels| ==> NoLineBreak(Rows(st, labels)[k])
    ensures forall k, i :: 0 <= k < |labels| && 0 <= i < |Rows(st, labels)[k]| ==> DumpChar(Rows(st, labels)[k][i])
  {
    forall k | 0 <= k < |labels|
      ensures NoLineBreak(Rows(st, labels)[k])
      ensures forall i :: 0 <= i < |Rows(st, labels)[k]| ==> DumpChar(Rows(st, labels)[k][i])
    {
      RowShape(st, labels[k]);
    }
  }

  /** Emitting two lists one after the other. */
  lemma {:induction false} EmitAllAppend(st: CounterState, a: seq<LogRecord>, ta: seq<nat>, b: seq<LogRecord>, tb: seq<nat>)
    requires |a| == |ta| && |b| == |tb|
    ensures EmitAll(st, a + b, ta + tb) == EmitAll(EmitAll(st, a, ta), b, tb)
    decreases |a|
  {
    if |a| > 0 {
      assert (a + b)[1..] == a[1..] + b;
      assert (ta + tb)[1..] == ta[1..] + tb;
      EmitAllAppend(Emit(st, a[0], ta[0]), a[1..], ta[1..], b, tb);
    } else {
      assert a + b == b && ta + tb == tb;
    }
  }

  /** The records of the counting test: one DEBUG, two INFO, three ERROR
      and one `logger.exception`, which logs at ERROR with exception info. */
  const DebugAndInfo: seq<LogRecord> := [
    LogRecord(10, None, "Debug message"),
    LogRecord(20, None, "Some info message"),
    LogRecord(20, None, "Some info message")
  ]
  const Errors: seq<LogRecord> := [
    LogRecord(ERROR, None, "Error message 1"),
    LogRecord(ERROR, None, "Error message 2"),
    LogRecord(ERROR, None, "Error message 3")
  ]
  const ExceptionRecord := LogRecord(ERROR, Some(ExcInfo(Some("ValueError"), "Foobar")), "Exception message")
  const TestRecords: seq<LogRecord> := DebugAndInfo + Errors + [ExceptionRecord]

  function Times(n: nat, t: nat): (r: seq<nat>)
    ensures |r| == n
  {
    seq(n, _ => t)
  }

  lemma TestLabels()
    ensures Label(DebugAndInfo[0]) == "DEBUG"
    ensures Label(DebugAndInfo[1]) == Label(DebugAndInfo[2]) == "INFO"
    ensures Label(Errors[0]) == Label(Errors[1]) == Label(Errors[2]) == "ERROR"
    ensures Label(ExceptionRecord) == ExceptionLabel
  {
    LevelNoToStrContents();
  }

  /** Emitting three records, one step at a time. */
  lemma EmitThree(st: CounterState, recs: seq<LogRecord>, t: nat)
    requires |recs| == 3
    ensures EmitAll(st, recs, Times(3, t)) == Emit(Emit(Emit(st, recs[0], t), recs[1], t), recs[2], t)
  {
    var ts := Times(3, t);
    assert ts[0] == ts[1] == ts[2] == t;
    EmitThreeAt(st, recs, ts);
  }

  lemma EmitThreeAt(st: CounterState, recs: seq<LogRecord>, ts: seq<nat>)
    requires |recs| == |ts| == 3
    ensures EmitAll(st, recs, ts) == Emit(Emit(Emit(st, recs[0], ts[0]), recs[1], ts[1]), recs[2], ts[2])
  {
    var r1, t1 := recs[1..], ts[1..];
    var r2, t2 := r1[1..], t1[1..];
    EmitAllStep(st, recs, ts);
    EmitAllStep(Emit(st, recs[0], ts[0]), r1, t1);
    EmitAllOne(Emit(Emit(st, recs[0], ts[0]), r1[0], t1[0]), r2, t2);
  }

  lemma EmitAllOne(st: CounterState, recs: seq<LogRecord>, ts: seq<nat>)
    requires |recs| == |ts| == 1
    ensures EmitAll(st, recs, ts) == Emit(st, recs[0], ts[0])
  {
    EmitAllStep(st, recs, ts);
  }

  lemma EmitAllStep(st: CounterState, recs: seq<LogRecord>, ts: seq<nat>)
    requires |recs| == |ts| > 0
    ensures EmitAll(st, recs, ts) == EmitAll(Emit(st, recs[0], ts[0]), recs[1..], ts[1..])
  {
  }

  /** The counting test: the handler ends with DEBUG 1, INFO 2, ERROR 3
      and EXCEPTION 1, and nothing else. */
  lemma CountScenario(t: nat)
    ensures var st := EmitAll(Fresh, TestRecords, Times(7, t));
      && st.counts.Keys == {"DEBUG", "INFO", "ERROR", ExceptionLabel}
      && CountOf(st, "DEBUG") == 1 && CountOf(st, "INFO") == 2
      && CountOf(st, "ERROR") == 3 && CountOf(st, ExceptionLabel) == 1
  {
    var t3 := Times(3, t);
    assert Times(7, t) == t3 + t3 + [t];
    EmitAllAppend(Fresh, DebugAndInfo + Errors, t3 + t3, [ExceptionRecord], [t]);
    EmitAllAppend(Fresh, DebugAndInfo, t3, Errors, t3);
    ErrorsScenario(t);
    OneException(EmitAll(EmitAll(Fresh, DebugAndInfo, t3), Errors, t3), t);
  }

  lemma OneException(st: CounterState, t: nat)
    requires st.counts.Keys == {"DEBUG", "INFO", "ERROR"}
    requires CountOf(st, "DEBUG") == 1 && CountOf(st, "INFO") == 2 && CountOf(st, "ERROR") == 3
    ensures var st' := EmitAll(st, [ExceptionRecord], [t]);
      && st'.counts.Keys == {"DEBUG", "INFO", "ERROR", ExceptionLabel}
      && CountOf(st', "DEBUG") == 1 && CountOf(st', "INFO") == 2
      && CountOf(st', "ERROR") == 3 && CountOf(st', ExceptionLabel) == 1
  {
    TestLabels();
    assert EmitAll(st, [ExceptionRecord], [t]) == Emit(st, ExceptionRecord, t);
  }

  /** After the first six records: DEBUG 1, INFO 2, ERROR 3. */
  lemma ErrorsScenario(t: nat)
    ensures var st := EmitAll(EmitAll(Fresh, DebugAndInfo, Times(3, t)), Errors, Times(3, t));
      && st.counts.Keys == {"DEBUG", "INFO", "ERROR"}
      && CountOf(st, "DEBUG") == 1 && CountOf(st, "INFO") == 2 && CountOf(st, "ERROR") == 3
  {
    DebugInfoScenario(t);
    ThreeErrors(EmitAll(Fresh, DebugAndInfo, Times(3, t)), t);
  }

  lemma ThreeErrors(st: CounterState, t: nat)
    requires st.counts.Keys == {"DEBUG", "INFO"}
    requires CountOf(st, "DEBUG") == 1 && CountOf(st, "INFO") == 2
    ensures var st' := EmitAll(st, Errors, Times(3, t));
      && st'.counts.Keys == {"DEBUG", "INFO", "ERROR"}
      && CountOf(st', "DEBUG") == 1 && CountOf(st', "INFO") == 2 && CountOf(st', "ERROR") == 3
  {
    TestLabels();
    ErrorRun(st, Errors, t);
  }

  lemma ErrorRun(st: CounterState, recs: seq<LogRecord>, t: nat)
    requires |recs| == 3 && Label(recs[0]) == "ERROR" && Label(recs[1]) == "ERROR" && Label(recs[2]) == "ERROR"
    requires st.counts.Keys == {"DEBUG", "INFO"}
    requires CountOf(st, "DEBUG") == 1 && CountOf(st, "INFO") == 2
    ensures var st' := EmitAll(st, recs, Times(3, t));
      && st'.counts.Keys == {"DEBUG", "INFO", "ERROR"}
      && CountOf(st', "DEBUG") == 1 && CountOf(st', "INFO") == 2 && CountOf(st', "ERROR") == 3
  {
    EmitThree(st, recs, t);
    var s1 := Emit(st, recs[0], t);
    ErrorStep(st, s1, recs[0], t, 0);
    var s2 := Emit(s1, recs[1], t);
    ErrorStep(s1, s2, recs[1], t, 1);
    ErrorStep(s2, Emit(s2, recs[2], t), recs[2], t, 2);
  }

  lemma ErrorStep(st: CounterState, st': CounterState, rec: LogRecord, t: nat, n: nat)
    requires Label(rec) == "ERROR" && st' == Emit(st, rec, t)
    requires st.counts.Keys == {"DEBUG", "INFO"} + (if n == 0 then {} else {"ERROR"})
    requires CountOf(st, "DEBUG") == 1 && CountOf(st, "INFO") == 2 && CountOf(st, "ERROR") == n
    ensures st'.counts.Keys == {"DEBUG", "INFO", "ERROR"}
    ensures CountOf(st', "DEBUG") == 1 && CountOf(st', "INFO") == 2 && CountOf(st', "ERROR") == n + 1
  {
  }

  /** After the first three records: DEBUG 1, INFO 2. */
  lemma DebugInfoScenario(t: nat)
    ensures var st := EmitAll(Fresh, DebugAndInfo, Times(3, t));
      && st.counts.Keys == {"DEBUG", "INFO"}
      && CountOf(st, "DEBUG") == 1 && CountOf(st, "INFO") == 2
  {
    EmitThree(Fresh, DebugAndInfo, t);
    TestLabels();
  }

  /** The order of the counting test's dump: DEBUG, ERROR, EXCEPTION, INFO. */
  lemma CountScenarioOrder()
    ensures SortedKeys({"DEBUG", "INFO", "ERROR", ExceptionLabel}) == ["DEBUG", "ERROR", ExceptionLabel, "INFO"]
  {
    var want := ["DEBUG", "ERROR", ExceptionLabel, "INFO"];
    assert Below("DEBUG", "ERROR") && Below("DEBUG", ExceptionLabel) && Below("DEBUG", "INFO");
    assert Below("ERROR", ExceptionLabel) by {
      assert "ERROR"[1..] == "RROR" && ExceptionLabel[1..] == "XCEPTION";
    }
    assert Below("ERROR", "INFO") && Below(ExceptionLabel, "INFO");
    assert StrictlySorted(want);
    var got := SortedKeys({"DEBUG", "INFO", "ERROR", ExceptionLabel});
    SortedUnique(got, want);
  }

  /** A dump line's first two fields: the label and the count. */
  predicate RowStarts(line: string, l: string, count: string)
  {
    var f := Split(line, ' ');
    |f| >= 2 && f[0] == l && f[1] == count
  }

  lemma RowStartsOf(st: CounterState, l: string, count: int)
    requires Valid(st) && l in st.counts && CountOf(st, l) == count
    ensures RowStarts(Row(st, l), l, IntToString(count))
  {
    RowShape(st, l);
    SplitJoin(RowFields(st, l), ' ');
  }

  /** Line i of the dump starts with the i-th label in ascending order and
      that label's count. */
  lemma DumpColumns(st: CounterState, labels: seq<string>, counts: seq<int>)
    requires Valid(st) && SortedKeys(st.counts.Keys) == labels && |counts| == |labels|
    requires forall i :: 0 <= i < |labels| ==> CountOf(st, labels[i]) == counts[i]
    ensures |SplitLines(DumpText(st))| == |labels|
    ensures forall i :: 0 <= i < |labels| ==> RowStarts(SplitLines(DumpText(st))[i], labels[i], IntToString(counts[i]))
  {
    var rows := SplitLines(DumpText(st));
    DumpLines(st);
    forall i | 0 <= i < |labels|
      ensures RowStarts(rows[i], labels[i], IntToString(counts[i]))
    {
      assert labels[i] in st.counts;
      RowStartsOf(st, labels[i], counts[i]);
    }
  }

  /** The counting test's dump: labels DEBUG, ERROR, EXCEPTION, INFO with
      counts 1, 3, 1, 2, one per line in that order. */
  lemma CountScenarioDump(t: nat)
    ensures var rows := SplitLines(DumpText(EmitAll(Fresh, TestRecords, Times(7, t))));
      && |rows| == 4
      && RowStarts(rows[0], "DEBUG", "1") && RowStarts(rows[1], "ERROR", "3")
      && RowStarts(rows[2], ExceptionLabel, "1") && RowStarts(rows[3], "INFO", "2")
  {
    EmitAllTotal(Fresh, TestRecords, Times(7, t));
    CountScenario(t);
    CountDump(EmitAll(Fresh, TestRecords, Times(7, t)));
  }

  lemma CountDump(st: CounterState)
    requires Valid(st)
    requires st.counts.Keys == {"DEBUG", "INFO", "ERROR", ExceptionLabel}
    requires CountOf(st, "DEBUG") == 1 && CountOf(st, "INFO") == 2
    requires CountOf(st, "ERROR") == 3 && CountOf(st, ExceptionLabel) == 1
    ensures var rows := SplitLines(DumpText(st));
      && |rows| == 4
      && RowStarts(rows[0], "DEBUG", "1") && RowStarts(rows[1], "ERROR", "3")
      && RowStarts(rows[2], ExceptionLabel, "1") && RowStarts(rows[3], "INFO", "2")
  {
    CountScenarioOrder();
    assert IntToString(1) == "1" && IntToString(2) == "2" && IntToString(3) == "3";
    FourRows(st, "DEBUG", "ERROR", ExceptionLabel, "INFO", 1, 3, 1, 2);
  }

  lemma FourRows(st: CounterState, a: string, b: string, c: string, d: string, na: int, nb: int, nc: int, nd: int)
    requires Valid(st) && SortedKeys(st.counts.Keys) == [a, b, c, d]
    requires CountOf(st, a) == na && CountOf(st, b) == nb && CountOf(st, c) == nc && CountOf(st, d) == nd
    ensures var rows := SplitLines(DumpText(st));
      && |rows| == 4
      && RowStarts(rows[0], a, IntToString(na)) && RowStarts(rows[1], b, IntToString(nb))
      && RowStarts(rows[2], c, IntToString(nc)) && RowStarts(rows[3], d, IntToString(nd))
  {
    DumpLines(st);
    FourRowsOf(st, SplitLines(DumpText(st)), a, b, c, d, na, nb, nc, nd);
  }

  lemma FourRowsOf(st: CounterState, rows: seq<string>, a: string, b: string, c: string, d: string,
                   na: int, nb: int, nc: int, nd: int)
    requires Valid(st) && rows == Rows(st, [a, b, c, d])
    requires a in st.counts && b in st.counts && c in st.counts && d in st.counts
    requires CountOf(st, a) == na && CountOf(st, b) == nb && CountOf(st, c) == nc && CountOf(st, d) == nd
    ensures && |rows| == 4
            && RowStarts(rows[0], a, IntToString(na)) && RowStarts(rows[1], b, IntToString(nb))
            && RowStarts(rows[2], c, IntToString(nc)) && RowStarts(rows[3], d, IntToString(nd))
  {
    RowStartsOf(st, a, na);
    RowStartsOf(st, b, nb);
    RowStartsOf(st, c, nc);
    RowStartsOf(st, d, nd);
  }
}
