/** The record filters of src/logging_plugins/__init__.py: `SkipException`,
    `SkipExceptionMsg`, `SkipExceptionMsgRateLimit`, `RateLimiterFilter`,
    `OnlyExcFilter` and `LevelRangeFilter`. A filter returns true to keep a
    record. The regex engine and the rate limiter are parameters. */
module Filters {
  import opened Results
  import opened Strings
  import opened Records
  import opened Levels

  /** The configured exception names of `SkipException(exceptions)` given a
      string: the comma-separated pieces, untrimmed, or the whole string. */
  function ExceptionNames(spec: string): (r: seq<string>)
    ensures |r| >= 1
    ensures Join(r, ',') == spec
    ensures forall i :: 0 <= i < |r| ==> ',' !in r[i]
  {
    if ',' in spec then
      JoinSplit(spec, ',');
      SplitPiecesFree(spec, ',');
      Split(spec, ',')
    else [spec]
  }

  /** The pieces are the only comma-free list that joins back to the string. */
  lemma ExceptionNamesUnique(spec: string, names: seq<string>)
    requires |names| >= 1 && Join(names, ',') == spec
    requires forall i :: 0 <= i < |names| ==> ',' !in names[i]
    ensures ExceptionNames(spec) == names
  {
    SplitJoin(names, ',');
    SplitJoin(ExceptionNames(spec), ',');
  }

  /** Pieces are not trimmed: a blank after a comma stays in the name. */
  lemma ExceptionNamesUntrimmed()
    ensures ExceptionNames("RuntimeError, ValueError") == ["RuntimeError", " ValueError"]
  {
    var b := ["RuntimeError", " ValueError"];
    assert Join(b[1..], ',') == " ValueError";
    assert Join(b, ',') == "RuntimeError" + "," + " ValueError";
    assert forall i :: 0 <= i < |b| ==> ',' !in b[i];
    ExceptionNamesUnique("RuntimeError, ValueError", b);
  }

  /** A `SkipException` filter: its configured exception names. */
  datatype SkipException = SkipException(exceptions: seq<string>)

  function NewSkipException(spec: string): SkipException
  {
    SkipException(ExceptionNames(spec))
  }

  /** `import_class` failed for a configured name, or `issubclass` was
      handed None for the record's class (a TypeError). */
  datatype FilterError = UnresolvedClass(name: string) | NotAClass

  /** The `exception_classes` property: every name resolved, in order; the
      first unresolvable name raises. */
  function ResolveAll(names: seq<string>, table: ClassTable): (r: Result<seq<ClassId>, FilterError>)
    ensures r.Ok? <==> forall i :: 0 <= i < |names| ==> names[i] in table.resolve
    ensures r.Ok? ==> |r.value| == |names|
    ensures r.Ok? ==> forall i :: 0 <= i < |names| ==> r.value[i] == table.resolve[names[i]]
    ensures r.Err? ==> r.error.UnresolvedClass? && r.error.name in names && r.error.name !in table.resolve
  {
    if |names| == 0 then Ok([])
    else if names[0] !in table.resolve then Err(UnresolvedClass(names[0]))
    else
      var rest :- ResolveAll(names[1..], table);
      Ok([table.resolve[names[0]]] + rest)
  }

  /** `issubclass(kind, cls)`: a TypeError when either argument is not a
      class, which includes a record class of None. */
  function IsSubclass(kind: Option<ClassId>, cls: ClassId, table: ClassTable): (r: Result<bool, FilterError>)
    ensures r.Err? <==> kind.None? || !table.isClass(kind.value) || !table.isClass(cls)
    ensures r.Err? ==> r.error == NotAClass
  {
    if kind.None? || !table.isClass(kind.value) || !table.isClass(cls) then Err(NotAClass)
    else Ok(table.isSubclass(kind.value, cls))
  }

  /** Class `i` is the first whose `issubclass` answer is not a plain False:
      the loop stops there, with a match or with a TypeError. */
  predicate FirstDecisive(kind: Option<ClassId>, classes: seq<ClassId>, table: ClassTable, i: int)
  {
    && 0 <= i < |classes|
    && IsSubclass(kind, classes[i], table) != Ok(false)
    && forall j :: 0 <= j < i ==> IsSubclass(kind, classes[j], table) == Ok(false)
  }

  /** The loop of `SkipException.filter`: `issubclass` against each class in
      order. It answers False when every class answers False, and otherwise
      gives the first answer that is not False. */
  function AnySuperclass(kind: Option<ClassId>, classes: seq<ClassId>, table: ClassTable): (r: Result<bool, FilterError>)
    ensures r == Ok(false) <==> forall i :: 0 <= i < |classes| ==> IsSubclass(kind, classes[i], table) == Ok(false)
    ensures forall i :: FirstDecisive(kind, classes, table, i) ==> r == IsSubclass(kind, classes[i], table)
  {
    if |classes| == 0 then Ok(false)
    else
      var a := IsSubclass(kind, classes[0], table);
      if a != Ok(false) then a
      else
        var r := AnySuperclass(kind, classes[1..], table);
        assert forall i :: 1 <= i < |classes| ==> classes[i] == classes[1..][i - 1];
        assert forall i :: FirstDecisive(kind, classes, table, i) ==> FirstDecisive(kind, classes[1..], table, i - 1) by {
          forall i | FirstDecisive(kind, classes, table, i)
            ensures FirstDecisive(kind, classes[1..], table, i - 1)
          {
            assert i != 0;
            forall j | 0 <= j < i - 1
              ensures IsSubclass(kind, classes[1..][j], table) == Ok(false)
            {
              assert classes[1..][j] == classes[j + 1];
            }
          }
        }
        r
  }

  /** `SkipException.filter`: keeps records without exception info.
      Otherwise the classes are resolved first; then the loop drops the
      record at the first configured class it is a subclass of, and raises
      at the first `issubclass` call that cannot be made (a None class or a
      configured object that is not a class) before any match. */
  function SkipExceptionKeep(f: SkipException, table: ClassTable, rec: LogRecord): (r: Result<bool, FilterError>)
    ensures rec.excInfo.None? ==> r == Ok(true)
    ensures rec.excInfo.Some? && ResolveAll(f.exceptions, table).Err? ==> r == Err(ResolveAll(f.exceptions, table).error)
    ensures rec.excInfo.Some? && ResolveAll(f.exceptions, table).Ok? ==>
      var kind, classes := rec.excInfo.value.kind, ResolveAll(f.exceptions, table).value;
      && (r == Ok(true) <==> forall i :: 0 <= i < |classes| ==> IsSubclass(kind, classes[i], table) == Ok(false))
      && (forall i :: FirstDecisive(kind, classes, table, i) ==>
            (r == Ok(false) <==> IsSubclass(kind, classes[i], table) == Ok(true)) && (r.Err? ==> r.error == NotAClass))
  {
    match rec.excInfo
    case None => Ok(true)
    case Some(info) =>
      var classes :- ResolveAll(f.exceptions, table);
      match AnySuperclass(info.kind, classes, table)
      case Err(e) => Err(e)
      case Ok(matched) => Ok(!matched)
  }

  /** A `SkipExceptionMsg` filter: the base filter, the message patterns
      (`skip_exc_messages`) and whether they are regular expressions. */
  datatype SkipExceptionMsg = SkipExceptionMsg(base: SkipException, messages: seq<string>, regex: bool)

  function NewSkipExceptionMsg(spec: string, messages: seq<string>, regex: bool): SkipExceptionMsg
  {
    SkipExceptionMsg(NewSkipException(spec), messages, regex)
  }

  /** One pattern against an exception's text: `re.match` (through the
      abstract `reMatch`) or plain substring containment. */
  predicate PatternMatches(pattern: string, text: string, regex: bool, reMatch: (string, string) -> bool)
  {
    if regex then reMatch(pattern, text) else Contains(text, pattern)
  }

  /** The loop over `skip_exc_messages`: does some pattern match? */
  function AnyPatternMatches(patterns: seq<string>, text: string, regex: bool, reMatch: (string, string) -> bool): (r: bool)
    ensures r <==> exists i :: 0 <= i < |patterns| && PatternMatches(patterns[i], text, regex, reMatch)
  {
    if |patterns| == 0 then false
    else if PatternMatches(patterns[0], text, regex, reMatch) then true
    else
      assert forall i :: 1 <= i < |patterns| ==> patterns[i] == patterns[1..][i - 1];
      AnyPatternMatches(patterns[1..], text, regex, reMatch)
  }

  /** `SkipExceptionMsg.filter`: with no patterns, the base decision;
      otherwise a record is dropped iff the base drops it and some pattern
      matches its exception text. It never drops a record the base keeps. */
  function SkipExceptionMsgKeep(f: SkipExceptionMsg, table: ClassTable, reMatch: (string, string) -> bool, rec: LogRecord)
    : (r: Result<bool, FilterError>)
    ensures |f.messages| == 0 ==> r == SkipExceptionKeep(f.base, table, rec)
    ensures r.Ok? <==> SkipExceptionKeep(f.base, table, rec).Ok?
    ensures r.Err? ==> r.error == SkipExceptionKeep(f.base, table, rec).error
    ensures r.Ok? && SkipExceptionKeep(f.base, table, rec).value ==> r.value
    ensures r.Ok? && |f.messages| > 0 ==>
      (!r.value <==> !SkipExceptionKeep(f.base, table, rec).value && rec.excInfo.Some?
                     && exists i :: 0 <= i < |f.messages| && PatternMatches(f.messages[i], rec.excInfo.value.text, f.regex, reMatch))
  {
    var ret :- SkipExceptionKeep(f.base, table, rec);
    if |f.messages| == 0 then Ok(ret)
    else if !ret then Ok(!AnyPatternMatches(f.messages, rec.excInfo.value.text, f.regex, reMatch))
    else Ok(true)
  }

  /** `SkipExceptionMsgRateLimit.filter`. The limiter is `admit`: from its
      state it answers admit or deny and moves to a new state. A record the
      message filter keeps is kept without consulting the limiter (the state
      is returned unchanged); any other record gets the limiter's answer. */
  function SkipExceptionMsgRateLimitKeep<S>(f: SkipExceptionMsg, table: ClassTable, reMatch: (string, string) -> bool,
                                            admit: S -> (bool, S), st: S, rec: LogRecord)
    : (r: Result<(bool, S), FilterError>)
    ensures r.Ok? <==> SkipExceptionMsgKeep(f, table, reMatch, rec).Ok?
    ensures r.Ok? && SkipExceptionMsgKeep(f, table, reMatch, rec).value ==> r.value == (true, st)
    ensures r.Ok? && !SkipExceptionMsgKeep(f, table, reMatch, rec).value ==> r.value == admit(st)
  {
    var ret :- SkipExceptionMsgKeep(f, table, reMatch, rec);
    if ret then Ok((true, st)) else Ok(admit(st))
  }

  /** `RateLimiterFilter.filter`: the limiter's answer, whatever the record. */
  function RateLimiterKeep<S>(admit: S -> (bool, S), st: S, rec: LogRecord): (bool, S)
  {
    admit(st)
  }

  /** The record plays no part in a `RateLimiterFilter`'s decision or in
      the state it leaves behind. */
  lemma RateLimiterKeepIgnoresRecord<S>(admit: S -> (bool, S), st: S, a: LogRecord, b: LogRecord)
    ensures RateLimiterKeep(admit, st, a) == RateLimiterKeep(admit, st, b)
  {
  }

  /** `OnlyExcFilter.filter`: keep exactly the records with exception info. */
  function OnlyExcKeep(rec: LogRecord): (r: bool)
    ensures r <==> rec.excInfo.Some?
  {
    if rec.excInfo.Some? then true else false
  }

  /** A record `SkipException` drops always passes `OnlyExcFilter`. */
  lemma OnlyExcKeepsSkipped(f: SkipException, table: ClassTable, rec: LogRecord)
    requires SkipExceptionKeep(f, table, rec) == Ok(false)
    ensures OnlyExcKeep(rec)
  {
  }

  /** A `LevelRangeFilter`: inclusive bounds. */
  datatype LevelRange = LevelRange(minLevel: int, maxLevel: int)

  /** `LevelRangeFilter(min_level, max_level)`: both bounds through
      `parse_level`, the minimum first. */
  function NewLevelRange(minArg: LevelArg, maxArg: LevelArg): (r: Result<LevelRange, string>)
    ensures r.Ok? <==> ParseLevel(minArg).Ok? && ParseLevel(maxArg).Ok?
    ensures r.Ok? ==> r.value.minLevel == ParseLevel(minArg).value && r.value.maxLevel == ParseLevel(maxArg).value
    ensures ParseLevel(minArg).Err? ==> r == Err(ParseLevel(minArg).error)
  {
    var lo :- ParseLevel(minArg);
    var hi :- ParseLevel(maxArg);
    Ok(LevelRange(lo, hi))
  }

  /** `LevelRangeFilter.filter`: keep iff min <= levelno <= max. */
  function LevelRangeKeep(f: LevelRange, rec: LogRecord): (r: bool)
    ensures r <==> f.minLevel <= rec.levelno <= f.maxLevel
  {
    if rec.levelno < f.minLevel then false
    else if rec.levelno > f.maxLevel then false
    else true
  }

  /** Two range filters in a chain keep what the intersected range keeps. */
  lemma LevelRangesCompose(f: LevelRange, g: LevelRange, rec: LogRecord)
    ensures LevelRangeKeep(f, rec) && LevelRangeKeep(g, rec)
            <==> LevelRangeKeep(LevelRange(Max(f.minLevel, g.minLevel), Min(f.maxLevel, g.maxLevel)), rec)
  {
  }

  function Max(a: int, b: int): int { if a >= b then a else b }
  function Min(a: int, b: int): int { if a <= b then a else b }

  // ----- Filters applied to a stream of records -----

  /** The limiter's first `n` answers from state `st`, and its state after them. */
  function Answers<S>(admit: S -> (bool, S), st: S, n: nat): (r: (seq<bool>, S))
    ensures |r.0| == n
  {
    if n == 0 then ([], st)
    else
      var (b, s1) := admit(st);
      var (bs, s2) := Answers(admit, s1, n - 1);
      ([b] + bs, s2)
  }

  /** The first answer, then the answers from the state it leaves. */
  lemma AnswersCons<S>(admit: S -> (bool, S), st: S, n: nat)
    ensures n > 0 ==>
      var rest := Answers(admit, admit(st).1, n - 1);
      Answers(admit, st, n) == ([admit(st).0] + rest.0, rest.1)
  {
  }

  function CountTrue(bs: seq<bool>): nat
  {
    if |bs| == 0 then 0 else (if bs[0] then 1 else 0) + CountTrue(bs[1..])
  }

  function CountFalse(bs: seq<bool>): nat
  {
    if |bs| == 0 then 0 else (if bs[0] then 0 else 1) + CountFalse(bs[1..])
  }

  /** Interleaves the limiter's answers into the drop positions of `keeps`:
      a kept position stays kept, and the k-th dropped position takes the
      k-th answer. */
  function Merge(keeps: seq<bool>, answers: seq<bool>): (m: seq<bool>)
    requires |answers| == CountFalse(keeps)
    ensures |m| == |keeps|
    ensures forall i :: 0 <= i < |keeps| && keeps[i] ==> m[i]
  {
    if |keeps| == 0 then []
    else if keeps[0] then [true] + Merge(keeps[1..], answers)
    else [answers[0]] + Merge(keeps[1..], answers[1..])
  }

  /** The elements of `xs` whose mask bit is set, in order. */
  function Select<T>(xs: seq<T>, mask: seq<bool>): (r: seq<T>)
    requires |xs| == |mask|
    ensures |r| == CountTrue(mask)
  {
    if |xs| == 0 then []
    else (if mask[0] then [xs[0]] else []) + Select(xs[1..], mask[1..])
  }

  /** The records a `RateLimiterFilter` lets through, and the limiter's
      final state: exactly the records at the positions the limiter's
      answers admit, so the records' contents play no part. */
  function RunRateLimiter<S>(admit: S -> (bool, S), st: S, recs: seq<LogRecord>): (r: (seq<LogRecord>, S))
    ensures r.0 == Select(recs, Answers(admit, st, |recs|).0)
    ensures r.1 == Answers(admit, st, |recs|).1
  {
    if |recs| == 0 then ([], st)
    else
      var (keep, s1) := RateLimiterKeep(admit, st, recs[0]);
      var (rest, s2) := RunRateLimiter(admit, s1, recs[1..]);
      ((if keep then [recs[0]] else []) + rest, s2)
  }

  /** Two streams of equal length pass a `RateLimiterFilter` in equal
      numbers and leave it in the same state. */
  lemma RateLimiterIgnoresRecords<S>(admit: S -> (bool, S), st: S, a: seq<LogRecord>, b: seq<LogRecord>)
    requires |a| == |b|
    ensures |RunRateLimiter(admit, st, a).0| == |RunRateLimiter(admit, st, b).0|
    ensures RunRateLimiter(admit, st, a).1 == RunRateLimiter(admit, st, b).1
  {
  }

  /** Every record of the stream gets a decision from the message filter. */
  predicate AllDecided(f: SkipExceptionMsg, table: ClassTable, reMatch: (string, string) -> bool, recs: seq<LogRecord>)
  {
    forall i :: 0 <= i < |recs| ==> SkipExceptionMsgKeep(f, table, reMatch, recs[i]).Ok?
  }

  /** The message filter's decision for each record of the stream. */
  function Decisions(f: SkipExceptionMsg, table: ClassTable, reMatch: (string, string) -> bool, recs: seq<LogRecord>): (ds: seq<bool>)
    requires AllDecided(f, table, reMatch, recs)
    ensures |ds| == |recs|
    ensures forall i :: 0 <= i < |recs| ==> ds[i] == SkipExceptionMsgKeep(f, table, reMatch, recs[i]).value
  {
    seq(|recs|, i requires 0 <= i < |recs| => SkipExceptionMsgKeep(f, table, reMatch, recs[i]).value)
  }

  /** How many records of the stream the message filter alone would drop:
      the records whose decision is false. */
  function DroppedCount(f: SkipExceptionMsg, table: ClassTable, reMatch: (string, string) -> bool, recs: seq<LogRecord>): (n: nat)
    requires AllDecided(f, table, reMatch, recs)
    ensures n <= |recs|
  {
    if |recs| == 0 then 0
    else
      (if SkipExceptionMsgKeep(f, table, reMatch, recs[0]).value then 0 else 1) + DroppedCount(f, table, reMatch, recs[1..])
  }

  /** The dropped records are the ones whose decision is false. */
  lemma {:induction false} DroppedCountFalse(f: SkipExceptionMsg, table: ClassTable, reMatch: (string, string) -> bool, recs: seq<LogRecord>)
    requires AllDecided(f, table, reMatch, recs)
    ensures DroppedCount(f, table, reMatch, recs) == CountFalse(Decisions(f, table, reMatch, recs))
    decreases |recs|
  {
    if |recs| > 0 {
      var rest := recs[1..];
      assert forall i :: 0 <= i < |rest| ==> rest[i] == recs[i + 1];
      assert Decisions(f, table, reMatch, recs)[1..] == Decisions(f, table, reMatch, rest);
      DroppedCountFalse(f, table, reMatch, rest);
    }
  }

  /** The records a `SkipExceptionMsgRateLimit` lets through, and the
      limiter's final state; the first record without a decision raises. */
  function RunSkipRateLimit<S>(f: SkipExceptionMsg, table: ClassTable, reMatch: (string, string) -> bool,
                               admit: S -> (bool, S), st: S, recs: seq<LogRecord>)
    : (r: Result<(seq<LogRecord>, S), FilterError>)
    ensures r.Ok? <==> AllDecided(f, table, reMatch, recs)
    ensures r.Ok? ==>
      var dropped := DroppedCount(f, table, reMatch, recs);
      && r.value.1 == Answers(admit, st, dropped).1
      && |r.value.0| == |recs| - dropped + CountTrue(Answers(admit, st, dropped).0)
  {
    if |recs| == 0 then Ok(([], st))
    else
      DecidedCons(f, table, reMatch, recs);
      match SkipExceptionMsgRateLimitKeep(f, table, reMatch, admit, st, recs[0])
      case Err(e) => Err(e)
      case Ok((keep, s1)) =>
        match RunSkipRateLimit(f, table, reMatch, admit, s1, recs[1..])
        case Err(e) => Err(e)
        case Ok((rest, s2)) =>
          AnswersCons(admit, st, DroppedCount(f, table, reMatch, recs));
          Ok(((if keep then [recs[0]] else []) + rest, s2))
  }

  /** A stream is decided iff its head and its tail are, and its dropped
      count is the head's share plus the tail's. */
  lemma DecidedCons(f: SkipExceptionMsg, table: ClassTable, reMatch: (string, string) -> bool, recs: seq<LogRecord>)
    requires |recs| > 0
    ensures AllDecided(f, table, reMatch, recs)
            <==> SkipExceptionMsgKeep(f, table, reMatch, recs[0]).Ok? && AllDecided(f, table, reMatch, recs[1..])
    ensures AllDecided(f, table, reMatch, recs) ==>
      DroppedCount(f, table, reMatch, recs)
      == (if SkipExceptionMsgKeep(f, table, reMatch, recs[0]).value then 0 else 1) + DroppedCount(f, table, reMatch, recs[1..])
  {
    assert forall i :: 1 <= i < |recs| ==> recs[i] == recs[1..][i - 1];
  }

  /** One step of `Select` over a merged mask: a kept head is selected,
      and a dropped head is selected exactly when the first answer admits it. */
  lemma MergeSelectStep<T>(xs: seq<T>, ds: seq<bool>, answers: seq<bool>)
    requires |xs| == |ds| > 0 && |answers| == CountFalse(ds)
    ensures ds[0] ==> Select(xs, Merge(ds, answers)) == [xs[0]] + Select(xs[1..], Merge(ds[1..], answers))
    ensures !ds[0] ==> Select(xs, Merge(ds, answers))
                       == (if answers[0] then [xs[0]] else []) + Select(xs[1..], Merge(ds[1..], answers[1..]))
  {
    var m := Merge(ds, answers);
    if ds[0] {
      assert m[1..] == Merge(ds[1..], answers);
    } else {
      assert m[1..] == Merge(ds[1..], answers[1..]);
    }
  }

  /** One record of `RunSkipRateLimit`: the head is kept when the message
      filter keeps it or the limiter admits it, and the limiter's state
      moves on only in the second case. */
  lemma RunSkipRateLimitStep<S>(f: SkipExceptionMsg, table: ClassTable, reMatch: (string, string) -> bool,
                                admit: S -> (bool, S), st: S, recs: seq<LogRecord>)
    requires |recs| > 0 && AllDecided(f, table, reMatch, recs) && AllDecided(f, table, reMatch, recs[1..])
    ensures
      var keep0 := SkipExceptionMsgKeep(f, table, reMatch, recs[0]).value;
      var s1 := if keep0 then st else admit(st).1;
      RunSkipRateLimit(f, table, reMatch, admit, st, recs).value.0
      == (if keep0 || admit(st).0 then [recs[0]] else []) + RunSkipRateLimit(f, table, reMatch, admit, s1, recs[1..]).value.0
  {
  }

  /** `SkipExceptionMsgRateLimit` over a stream keeps exactly the records
      the message filter keeps, together with the dropped ones the limiter
      admits, its k-th answer going to the k-th dropped record. */
  lemma {:induction false} RunSkipRateLimitSelects<S>(f: SkipExceptionMsg, table: ClassTable, reMatch: (string, string) -> bool,
                                                      admit: S -> (bool, S), st: S, recs: seq<LogRecord>)
    requires AllDecided(f, table, reMatch, recs)
    ensures RunSkipRateLimit(f, table, reMatch, admit, st, recs).Ok?
    ensures DroppedCount(f, table, reMatch, recs) == CountFalse(Decisions(f, table, reMatch, recs))
    ensures RunSkipRateLimit(f, table, reMatch, admit, st, recs).value.0
         == Select(recs, Merge(Decisions(f, table, reMatch, recs),
                               Answers(admit, st, DroppedCount(f, table, reMatch, recs)).0))
  {
    if |recs| > 0 {
      var rest := recs[1..];
      assert forall i :: 0 <= i < |rest| ==> rest[i] == recs[i + 1];
      var ds := Decisions(f, table, reMatch, recs);
      assert ds[1..] == Decisions(f, table, reMatch, rest);
      DroppedCountFalse(f, table, reMatch, recs);
      var n := DroppedCount(f, table, reMatch, recs);
      var answers := Answers(admit, st, n).0;
      MergeSelectStep(recs, ds, answers);
      RunSkipRateLimitStep(f, table, reMatch, admit, st, recs);
      var s1 := if ds[0] then st else admit(st).1;
      var tail := if ds[0] then answers else answers[1..];
      AnswersCons(admit, st, n);
      assert n == (if ds[0] then 0 else 1) + DroppedCount(f, table, reMatch, rest);
      assert tail == Answers(admit, s1, DroppedCount(f, table, reMatch, rest)).0;
      RunSkipRateLimitSelects(f, table, reMatch, admit, s1, rest);
    }
  }


  // ----- The scenarios of the filter tests -----

  const ZeroDivisionError: ClassId := "ZeroDivisionError"
  const TypeError: ClassId := "TypeError"
  const ValueError: ClassId := "ValueError"
  const RuntimeError: ClassId := "RuntimeError"

  const Len: ClassId := "len"

  /** The builtin classes the tests raise, each resolved under its own
      name: each is a subclass of itself and of Exception, and
      ZeroDivisionError is also an ArithmeticError. The builtin function
      `len` resolves too, but is not a class. */
  const Builtins := ClassTable(
    map[ZeroDivisionError := ZeroDivisionError, TypeError := TypeError,
        ValueError := ValueError, RuntimeError := RuntimeError, Len := Len],
    (c: ClassId) => c != Len,
    (a: ClassId, b: ClassId) => a == b || b == "Exception" || (a == ZeroDivisionError && b == "ArithmeticError"))

  /** A record logged by `logger.exception` while handling `kind(text)`. */
  function ExcRecord(kind: ClassId, text: string): LogRecord
  {
    LogRecord(ERROR, Some(ExcInfo(Some(kind), text)), "")
  }

  lemma ExceptionNamesOfTwo()
    ensures ExceptionNames(RuntimeError + "," + ValueError) == [RuntimeError, ValueError]
  {
    var a := [RuntimeError, ValueError];
    assert Join(a[1..], ',') == ValueError;
    assert ',' !in RuntimeError && ',' !in ValueError;
    assert forall i :: 0 <= i < |a| ==> ',' !in a[i];
    ExceptionNamesUnique(RuntimeError + "," + ValueError, a);
  }

  lemma SkipExceptionScenario()
    ensures SkipExceptionKeep(NewSkipException(ZeroDivisionError), Builtins,
                              ExcRecord(ZeroDivisionError, "division by zero")) == Ok(false)
    ensures SkipExceptionKeep(NewSkipException(ZeroDivisionError), Builtins,
                              ExcRecord(TypeError, "unsupported operand")) == Ok(true)
  {
    assert ',' !in ZeroDivisionError;
    var f := NewSkipException(ZeroDivisionError);
    assert f.exceptions == [ZeroDivisionError];
    ResolveOne(ZeroDivisionError);
    assert !Builtins.isSubclass(TypeError, ZeroDivisionError);
    assert FirstDecisive(Some(ZeroDivisionError), [ZeroDivisionError], Builtins, 0);
  }

  /** A record logged by `logger.exception` outside an `except` block:
      its exc_info is `(None, None, None)`. */
  const BareExcRecord := LogRecord(ERROR, Some(ExcInfo(None, "None")), "")

  /** Such a record passes `OnlyExcFilter`, but `SkipException` raises on it
      once its classes resolve, and the message filter passes that on. */
  lemma BareExcInfoRaises(messages: seq<string>, regex: bool, reMatch: (string, string) -> bool)
    ensures OnlyExcKeep(BareExcRecord)
    ensures SkipExceptionKeep(NewSkipException(ZeroDivisionError), Builtins, BareExcRecord) == Err(NotAClass)
    ensures SkipExceptionMsgKeep(NewSkipExceptionMsg(ZeroDivisionError, messages, regex), Builtins, reMatch, BareExcRecord)
            == Err(NotAClass)
  {
    assert ',' !in ZeroDivisionError;
    assert NewSkipException(ZeroDivisionError).exceptions == [ZeroDivisionError];
    ResolveOne(ZeroDivisionError);
  }

  /** `SkipException("len")` raises on a ZeroDivisionError record: `len`
      resolves, but it is not a class. */
  lemma NonClassRaises()
    ensures SkipExceptionKeep(NewSkipException(Len), Builtins, ExcRecord(ZeroDivisionError, "division by zero"))
            == Err(NotAClass)
  {
    assert ',' !in Len;
    assert NewSkipException(Len).exceptions == [Len];
    ResolveOne(Len);
    assert FirstDecisive(Some(ZeroDivisionError), [Len], Builtins, 0);
  }

  /** With "ZeroDivisionError,len" the first class already matches, so the
      record is dropped before `len` is reached. */
  lemma NonClassAfterMatch()
    ensures SkipExceptionKeep(NewSkipException(ZeroDivisionError + "," + Len), Builtins,
                              ExcRecord(ZeroDivisionError, "division by zero")) == Ok(false)
  {
    var names := [ZeroDivisionError, Len];
    ExceptionNamesZeroDivLen();
    ResolveTwo(ZeroDivisionError, Len);
    assert FirstDecisive(Some(ZeroDivisionError), names, Builtins, 0);
  }

  lemma ExceptionNamesZeroDivLen()
    ensures ExceptionNames(ZeroDivisionError + "," + Len) == [ZeroDivisionError, Len]
  {
    var a := [ZeroDivisionError, Len];
    assert Join(a[1..], ',') == Len;
    assert ',' !in ZeroDivisionError && ',' !in Len;
    assert forall i :: 0 <= i < |a| ==> ',' !in a[i];
    ExceptionNamesUnique(ZeroDivisionError + "," + Len, a);
  }

  lemma ResolveTwo(a: ClassId, b: ClassId)
    requires a in Builtins.resolve && Builtins.resolve[a] == a
    requires b in Builtins.resolve && Builtins.resolve[b] == b
    ensures ResolveAll([a, b], Builtins) == Ok([a, b])
  {
    assert [a, b][1..] == [b];
    ResolveOne(b);
    assert [a] + [b] == [a, b];
  }

  lemma ResolveOne(name: ClassId)
    requires name in Builtins.resolve && Builtins.resolve[name] == name
    ensures ResolveAll([name], Builtins) == Ok([name])
  {
    assert [name][1..] == [];
    assert ResolveAll([], Builtins) == Ok([]);
    assert [name] + [] == [name];
  }

  /** The filter of the message tests: RuntimeError and ValueError. */
  function TestMsgFilter(patterns: seq<string>, regex: bool): SkipExceptionMsg
  {
    NewSkipExceptionMsg(RuntimeError + "," + ValueError, patterns, regex)
  }

  lemma TestBaseDecision(patterns: seq<string>, regex: bool, kind: ClassId, text: string)
    requires kind in Builtins.resolve && Builtins.isClass(kind)
    ensures SkipExceptionKeep(TestMsgFilter(patterns, regex).base, Builtins, ExcRecord(kind, text))
            == Ok(kind != RuntimeError && kind != ValueError)
  {
    ExceptionNamesOfTwo();
    var names := [RuntimeError, ValueError];
    assert TestMsgFilter(patterns, regex).base.exceptions == names;
    assert names[1..] == [ValueError];
    ResolveOne(ValueError);
    assert ResolveAll(names, Builtins) == Ok([RuntimeError] + [ValueError]);
    assert [RuntimeError] + [ValueError] == names;
    assert AnySuperclass(Some(kind), names, Builtins)
           == Ok(Builtins.isSubclass(kind, names[0]) || Builtins.isSubclass(kind, names[1]));
  }

  lemma SkipExceptionMsgDropsMatching()
    ensures SkipExceptionMsgKeep(TestMsgFilter(["foobar"], false), Builtins, (p, t) => false,
                                 ExcRecord(ValueError, "Hello foobar")) == Ok(false)
    ensures SkipExceptionMsgKeep(TestMsgFilter(["foobar"], false), Builtins, (p, t) => false,
                                 ExcRecord(RuntimeError, "foobar is great")) == Ok(false)
  {
    FoobarOccurs("Hello foobar", "foobar is great", "foobar");
    DroppedWhenContained(ValueError, "Hello foobar", "foobar", (p, t) => false);
    DroppedWhenContained(RuntimeError, "foobar is great", "foobar", (p, t) => false);
  }

  lemma FoobarOccurs(a: string, b: string, pattern: string)
    requires a == "Hello foobar" && b == "foobar is great" && pattern == "foobar"
    ensures Contains(a, pattern) && Contains(b, pattern)
  {
    assert OccursAt(a, pattern, 6);
    assert OccursAt(b, pattern, 0);
  }

  /** A configured exception whose text contains the one plain pattern is
      dropped. */
  lemma DroppedWhenContained(kind: ClassId, text: string, pattern: string, reMatch: (string, string) -> bool)
    requires kind == RuntimeError || kind == ValueError
    requires Contains(text, pattern)
    ensures SkipExceptionMsgKeep(TestMsgFilter([pattern], false), Builtins, reMatch, ExcRecord(kind, text)) == Ok(false)
  {
    TestBaseDecision([pattern], false, kind, text);
    assert PatternMatches([pattern][0], text, false, reMatch);
  }

  lemma SkipExceptionMsgKeepsUnmatched()
    ensures SkipExceptionMsgKeep(TestMsgFilter(["foobar"], false), Builtins, (p, t) => false,
                                 ExcRecord(RuntimeError, "Hello")) == Ok(true)
    ensures SkipExceptionMsgKeep(TestMsgFilter(["foobar"], false), Builtins, (p, t) => false,
                                 ExcRecord(ZeroDivisionError, "division by zero")) == Ok(true)
  {
    TestBaseDecision(["foobar"], false, RuntimeError, "Hello");
    TestBaseDecision(["foobar"], false, ZeroDivisionError, "division by zero");
    assert !Contains("Hello", "foobar");
  }

  /** A record the message patterns do not match is kept and leaves the
      limiter untouched, whatever the limiter would answer: in the
      rate-limit test, "foobar 10 error" escapes ".*foobar [0-9] .*". */
  lemma UnmatchedMessageBypassesLimiter<S>(reMatch: (string, string) -> bool, admit: S -> (bool, S), st: S)
    requires !reMatch(".*foobar [0-9] .*", "foobar 10 error")
    ensures SkipExceptionMsgRateLimitKeep(TestMsgFilter([".*foobar [0-9] .*"], true),
                                          Builtins, reMatch, admit, st, ExcRecord(RuntimeError, "foobar 10 error"))
            == Ok((true, st))
  {
    TestBaseDecision([".*foobar [0-9] .*"], true, RuntimeError, "foobar 10 error");
    assert !AnyPatternMatches([".*foobar [0-9] .*"], "foobar 10 error", true, reMatch);
  }
}
