/** `check_log_dump` (src/logging_plugins/cli.py): signal a process to
    dump its counters, wait for the dump file to change, read it and judge
    the rules. The process, the file system, the clock and the JSON decoder
    are parameters. */
module Check {
  import opened Results
  import opened Numbers
  import opened Levels
  import opened DumpReader
  import opened Rules
  import opened Counter

  /** Attempts to see the dump file change before giving up. */
  const PollLimit := 10

  /** Exit status when the dump file never changes. */
  const NotUpdated := 2

  /** `_get_m_time`: the modification time, or 0 when `os.stat` fails
      (`None`). */
  function MTime(stat: Option<real>): (t: real)
    ensures stat.None? ==> t == 0.0
    ensures stat.Some? ==> t == stat.value
  {
    match stat
    case None => 0.0
    case Some(t) => t
  }

  /** The polling loop from attempt `i` on: attempt `j` sees `statAt(j)`,
      and the loop stops at the first time later than `m0` or after the
      last attempt. Gives the last time seen and the attempts made. */
  function Poll(m0: real, statAt: nat -> Option<real>, i: nat): (r: (real, nat))
    requires i < PollLimit
    ensures i < r.1 <= PollLimit
    ensures r.0 == MTime(statAt(r.1 - 1))
    ensures forall j :: i <= j < r.1 - 1 ==> MTime(statAt(j)) <= m0
    ensures r.0 <= m0 ==> r.1 == PollLimit
    decreases PollLimit - i
  {
    var m := MTime(statAt(i));
    if m > m0 || i == PollLimit - 1 then (m, i + 1) else Poll(m0, statAt, i + 1)
  }

  /** The file counts as updated exactly when some attempt saw a time later
      than the one read before signalling. */
  lemma PollSeesUpdate(m0: real, statAt: nat -> Option<real>)
    ensures Poll(m0, statAt, 0).0 > m0 <==> exists j :: 0 <= j < PollLimit && MTime(statAt(j)) > m0
  {
    var r := Poll(m0, statAt, 0);
    if r.0 <= m0 {
      PollNoUpdate(m0, statAt, r);
    } else {
      assert 0 <= r.1 - 1 < PollLimit && MTime(statAt(r.1 - 1)) > m0;
    }
  }

  lemma PollNoUpdate(m0: real, statAt: nat -> Option<real>, r: (real, nat))
    requires r == Poll(m0, statAt, 0) && r.0 <= m0
    ensures forall j :: 0 <= j < PollLimit ==> MTime(statAt(j)) <= m0
  {
    assert r.1 == PollLimit;
    assert MTime(statAt(PollLimit - 1)) <= m0;
  }

  datatype CheckError =
    | BadPid(pid: string)            // `int(pid)` rejects the argument
    | BadSignal(message: string)     // `parse_signal` finds no such signal
    | NoSuchProcess                  // `os.kill` fails
    | BadDump(dumpError: DumpError)
    | BadRule(ruleError: RuleError)

  /** What the outside world shows one run of `check_log_dump`. */
  datatype World = World(
    signals: map<string, int>,        // the signal module's names
    before: Option<real>,             // stat of the file before signalling
    delivered: bool,                  // whether `os.kill` succeeds
    statAt: nat -> Option<real>,      // stat of the file at each attempt
    content: string,                  // the file's text once it changed
    decodeJson: string -> Result<Dump, DumpError>,
    nowAt: nat -> real)               // `time.time()` when rule j is judged

  /** `check_log_dump`: 0 when every rule holds, 2 when the file never
      changes, 3 + k when rule k is the first to fail; Python exceptions
      are errors. */
  function CheckLogDump(pid: string, sig: SignalArg, rules: seq<string>, w: World): (r: Result<nat, CheckError>)
    ensures ParseInt(pid).None? ==> r == Err(BadPid(pid))
    ensures r == Ok(NotUpdated) <==>
      && ParseInt(pid).Some? && ParseSignal(sig, w.signals).Ok? && w.delivered
      && forall j :: 0 <= j < PollLimit ==> MTime(w.statAt(j)) <= MTime(w.before)
    ensures ParseInt(pid).Some? && ParseSignal(sig, w.signals).Err? ==>
      r == Err(BadSignal(ParseSignal(sig, w.signals).error))
    ensures ParseInt(pid).Some? && ParseSignal(sig, w.signals).Ok? && !w.delivered ==> r == Err(NoSuchProcess)
    ensures Responds(pid, sig, w) && ParseDumpFile(w.content, w.decodeJson).Err? ==>
      r == Err(BadDump(ParseDumpFile(w.content, w.decodeJson).error))
    ensures Responds(pid, sig, w) && ParseDumpFile(w.content, w.decodeJson).Ok?
            && EvalRules(ParseDumpFile(w.content, w.decodeJson).value, rules, w.nowAt).Err? ==>
      r == Err(BadRule(EvalRules(ParseDumpFile(w.content, w.decodeJson).value, rules, w.nowAt).error))
    ensures r.Ok? && r.value != NotUpdated ==>
      && (exists j :: 0 <= j < PollLimit && MTime(w.statAt(j)) > MTime(w.before))
      && ParseDumpFile(w.content, w.decodeJson).Ok?
      && Ok(r.value) == EvalRules(ParseDumpFile(w.content, w.decodeJson).value, rules, w.nowAt)
  {
    match ParseInt(pid)
    case None => Err(BadPid(pid))
    case Some(_) =>
      var m0 := MTime(w.before);
      match ParseSignal(sig, w.signals)
      case Err(msg) => Err(BadSignal(msg))
      case Ok(_) =>
        if !w.delivered then Err(NoSuchProcess)
        else
          var (m, _) := Poll(m0, w.statAt, 0);
          PollSeesUpdate(m0, w.statAt);
          if m <= m0 then Ok(NotUpdated)
          else
            match ParseDumpFile(w.content, w.decodeJson)
            case Err(e) => Err(BadDump(e))
            case Ok(d) =>
              match EvalRules(d, rules, w.nowAt)
              case Err(e) => Err(BadRule(e))
              case Ok(code) =>
                assert code != NotUpdated;
                Ok(code)
  }

  /** The process takes the signal and the dump file changes in time. */
  predicate Responds(pid: string, sig: SignalArg, w: World)
  {
    && ParseInt(pid).Some? && ParseSignal(sig, w.signals).Ok? && w.delivered
    && exists j :: 0 <= j < PollLimit && MTime(w.statAt(j)) > MTime(w.before)
  }

  /** Once the process responds, the exit status is the rules' verdict on
      the dump. */
  lemma RespondingCheck(pid: string, sig: SignalArg, rules: seq<string>, w: World, d: Dump)
    requires Responds(pid, sig, w)
    requires ParseDumpFile(w.content, w.decodeJson) == Ok(d)
    requires EvalRules(d, rules, w.nowAt).Ok?
    ensures CheckLogDump(pid, sig, rules, w) == Ok(EvalRules(d, rules, w.nowAt).value)
  {
    PollSeesUpdate(MTime(w.before), w.statAt);
  }

  /** A file that never exists is never updated: status 2, whatever the
      rules. */
  lemma NeverWritten(pid: string, sig: SignalArg, rules: seq<string>, w: World)
    requires ParseInt(pid).Some? && ParseSignal(sig, w.signals).Ok? && w.delivered
    requires w.before.None? && forall j :: w.statAt(j).None?
    ensures CheckLogDump(pid, sig, rules, w) == Ok(NotUpdated)
  {
  }

  /** With no rules a responding process passes. */
  lemma NoRulesPass(pid: string, sig: SignalArg, w: World)
    requires Responds(pid, sig, w)
    requires ParseDumpFile(w.content, w.decodeJson).Ok?
    ensures CheckLogDump(pid, sig, [], w) == Ok(0)
  {
    RespondingCheck(pid, sig, [], w, ParseDumpFile(w.content, w.decodeJson).value);
  }

  /** "info count gt 2" fails as rule 0 (status 3) while at most two INFO
      records were counted. */
  lemma FewInfoRecords(d: Dump, rules: seq<string>, nowAt: nat -> real)
    requires rules == ["info count gt 2"]
    requires "INFO" in d.count ==> d.count["INFO"] <= 2.0
    ensures EvalRules(d, rules, nowAt) == Ok(3)
  {
    InfoCountGtTwo(rules[0]);
    InfoCountVerdict(d, rules[0], nowAt(0));
    FirstRuleFails(d, rules, nowAt);
  }

  lemma InfoCountVerdict(d: Dump, rule: string, now: real)
    requires ParseRule(rule) == Ok(Rule("INFO", Count, Gt, 2.0))
    ensures Judge(d, rule, now) == Ok("INFO" in d.count && d.count["INFO"] > 2.0)
  {
  }

  lemma AnyCountVerdict(d: Dump, rule: string, now: real)
    requires ParseRule(rule) == Ok(Rule(AnyLabel, Count, Lt, 1.0))
    requires "INFO" in d.count && d.count["INFO"] == 3.0
    requires forall k :: k in d.count ==> d.count[k] >= 0.0
    ensures Judge(d, rule, now) == Ok(false)
  {
    AnyCountBound(d, "INFO");
  }

  lemma FirstRuleFails(d: Dump, rules: seq<string>, nowAt: nat -> real)
    requires |rules| >= 1 && Judge(d, rules[0], nowAt(0)) == Ok(false)
    ensures EvalRules(d, rules, nowAt) == Ok(3)
  {
    EvalRulesFirstFailure(d, rules, nowAt, 0);
  }

  lemma SecondRuleFails(d: Dump, rules: seq<string>, nowAt: nat -> real)
    requires |rules| >= 2 && Judge(d, rules[0], nowAt(0)) == Ok(true) && Judge(d, rules[1], nowAt(1)) == Ok(false)
    ensures EvalRules(d, rules, nowAt) == Ok(4)
  {
    var vs := Verdicts(d, rules, nowAt);
    assert vs[0] == Ok(true) && vs[1] == Ok(false);
    assert AllHold(vs, 0, 1);
    ScanFirstFalse(vs, 0, 1);
  }

  /** With three INFO records "info count gt 2" holds and "any count lt 1"
      fails as rule 1 (status 4). */
  lemma ThreeInfoRecords(d: Dump, rules: seq<string>, nowAt: nat -> real)
    requires rules == ["info count gt 2", "any count lt 1"]
    requires "INFO" in d.count && d.count["INFO"] == 3.0
    requires forall k :: k in d.count ==> d.count[k] >= 0.0
    ensures EvalRules(d, rules, nowAt) == Ok(4)
  {
    InfoCountGtTwo(rules[0]);
    InfoCountVerdict(d, rules[0], nowAt(0));
    AnyCountLtOne(rules[1]);
    AnyCountVerdict(d, rules[1], nowAt(1));
    SecondRuleFails(d, rules, nowAt);
  }

  /** "info last_record gt -2" holds while the last INFO record is less
      than two seconds old. */
  lemma RecentInfoRecord(d: Dump, rules: seq<string>, nowAt: nat -> real)
    requires rules == ["info last_record gt -2"]
    requires nowAt(0) >= 2.0
    requires "INFO" in d.lastRecord && d.lastRecord["INFO"] > nowAt(0) - 2.0
    ensures EvalRules(d, rules, nowAt) == Ok(0)
  {
    InfoLastRecordGtMinusTwo(rules[0]);
    RecentRecord(d, "INFO", 2.0, nowAt(0));
  }

  /** The clock is read per rule: the same last_record rule given twice
      holds when judged first and fails when judged second if the record
      went stale in between, so the answer is status 4. */
  lemma ClockAdvancesBetweenRules(d: Dump, rules: seq<string>, nowAt: nat -> real)
    requires rules == ["info last_record gt -2", "info last_record gt -2"]
    requires 2.0 <= nowAt(0) <= nowAt(1)
    requires "INFO" in d.lastRecord && nowAt(0) - 2.0 < d.lastRecord["INFO"] <= nowAt(1) - 2.0
    ensures EvalRules(d, rules, nowAt) == Ok(4)
  {
    InfoLastRecordGtMinusTwo(rules[0]);
    RecentRecord(d, "INFO", 2.0, nowAt(0));
    RecentRecord(d, "INFO", 2.0, nowAt(1));
    SecondRuleFails(d, rules, nowAt);
  }

  /** "any last_record gt -1.5" fails (status 3) once every label's last
      record is at least 1.5 seconds old. */
  lemma StaleRecords(d: Dump, rules: seq<string>, nowAt: nat -> real)
    requires rules == ["any last_record gt -1.5"]
    requires |d.lastRecord| > 0
    requires forall k :: k in d.lastRecord ==> d.lastRecord[k] <= nowAt(0) - 1.5
    ensures EvalRules(d, rules, nowAt) == Ok(3)
  {
    AnyLastRecordGtMinusOneAndAHalf(rules[0]);
    AnyRecentRecord(d, 1.5, nowAt(0));
    FirstRuleFails(d, rules, nowAt);
  }

  /** End to end on a text dump: a handler that counted three INFO records
      answers "info count gt 2", "any count lt 1" with status 4. */
  lemma TextDumpThreeInfo(pid: string, sig: SignalArg, rules: seq<string>, w: World, st: CounterState)
    requires Valid(st) && CountOf(st, "INFO") == 3
    requires Responds(pid, sig, w) && w.content == DumpText(st)
    requires rules == ["info count gt 2", "any count lt 1"]
    ensures CheckLogDump(pid, sig, rules, w) == Ok(4)
  {
    DumpRoundTrip(st, w.decodeJson);
    var d := Recovered(st);
    ThreeInfoRecords(d, rules, w.nowAt);
    RespondingCheck(pid, sig, rules, w, d);
  }
}
