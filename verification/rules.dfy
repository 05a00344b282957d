/** The threshold rules of `check_log_dump` (src/logging_plugins/cli.py):
    `parse_rule` and the loop that judges each rule against a dump. */
module Rules {
  import opened Results
  import opened Strings
  import opened Numbers
  import opened Ordering
  import opened DumpReader

  datatype Variable = Count | LastRecord
  datatype Comparison = Lt | Gt

  /** A parsed rule: the label (upper-cased), the table it reads, the
      comparison and the threshold. */
  datatype Rule = Rule(logType: string, variable: Variable, comp: Comparison, value: real)

  datatype RuleError =
    | MissingToken(index: nat)      // `rule_parts[index]` past the end
    | UnknownVariable(name: string) // neither count nor last_record
    | UnknownComparison(name: string)
    | BadThreshold(field: string)   // `float()` rejects the threshold
    | NoRecords                     // `max()` of an empty last_record table

  const AnyLabel := "ANY"

  function VariableName(v: Variable): string
  {
    match v
    case Count => "count"
    case LastRecord => "last_record"
  }

  function ComparisonName(c: Comparison): string
  {
    match c
    case Lt => "lt"
    case Gt => "gt"
  }

  function VariableOf(name: string): Option<Variable>
  {
    if name == "count" then Some(Count)
    else if name == "last_record" then Some(LastRecord)
    else None
  }

  function ComparisonOf(name: string): Option<Comparison>
  {
    if name == "lt" then Some(Lt)
    else if name == "gt" then Some(Gt)
    else None
  }

  /** `parse_rule` on the tokens of a rule: the label is upper-cased,
      variable and comparison are lower-cased and checked in that order,
      and the fourth token is the threshold. Later tokens are ignored. */
  function ParseTokens(t: seq<string>): (r: Result<Rule, RuleError>)
    ensures r.Ok? <==> && |t| >= 4
                       && VariableOf(Lower(t[1])).Some?
                       && ComparisonOf(Lower(t[2])).Some?
                       && ParseDecimal(t[3]).Some?
    ensures r.Ok? ==> && r.value.logType == Upper(t[0])
                      && VariableName(r.value.variable) == Lower(t[1])
                      && ComparisonName(r.value.comp) == Lower(t[2])
                      && Some(r.value.value) == ParseDecimal(t[3])
    ensures r.Err? && r.error.UnknownComparison? ==> |t| >= 3 && VariableOf(Lower(t[1])).Some?
  {
    if |t| < 2 then Err(MissingToken(1))
    else
      match VariableOf(Lower(t[1]))
      case None => Err(UnknownVariable(Lower(t[1])))
      case Some(variable) =>
        if |t| < 3 then Err(MissingToken(2))
        else
          match ComparisonOf(Lower(t[2]))
          case None => Err(UnknownComparison(Lower(t[2])))
          case Some(comp) =>
            if |t| < 4 then Err(MissingToken(3))
            else
              match ParseDecimal(t[3])
              case None => Err(BadThreshold(t[3]))
              case Some(value) => Ok(Rule(Upper(t[0]), variable, comp, value))
  }

  /** `parse_rule`: tokens split on single spaces. A rule parses exactly
      when it has four tokens whose second and third name a variable and a
      comparison in any case and whose fourth is a number; its label is the
      first token upper-cased. */
  function ParseRule(rule: string): (r: Result<Rule, RuleError>)
    ensures r.Ok? <==> var t := Split(rule, ' ');
                       && |t| >= 4
                       && VariableOf(Lower(t[1])).Some?
                       && ComparisonOf(Lower(t[2])).Some?
                       && ParseDecimal(t[3]).Some?
    ensures r.Ok? ==> && r.value.logType == Upper(Split(rule, ' ')[0])
                      && VariableName(r.value.variable) == Lower(Split(rule, ' ')[1])
                      && ComparisonName(r.value.comp) == Lower(Split(rule, ' ')[2])
                      && Some(r.value.value) == ParseDecimal(Split(rule, ' ')[3])
    ensures ' ' !in rule ==> r == Err(MissingToken(1))
  {
    SplitHead(rule, ' ');
    ParseTokens(Split(rule, ' '))
  }

  /** The value a rule reads from a dump: its label's entry (0 when absent),
      or for ANY the total count or the latest record time. */
  function Observed(d: Dump, r: Rule): (v: Result<real, RuleError>)
    ensures v.Err? <==> r.logType == AnyLabel && r.variable == LastRecord && |d.lastRecord| == 0
    ensures v.Ok? && r.logType == AnyLabel && r.variable == Count ==> v.value == SumSet(d.count, d.count.Keys)
    ensures v.Ok? && r.logType == AnyLabel && r.variable == LastRecord ==>
      (exists k :: k in d.lastRecord && d.lastRecord[k] == v.value) &&
      (forall k :: k in d.lastRecord ==> d.lastRecord[k] <= v.value)
    ensures v.Ok? && r.logType != AnyLabel ==>
      var table := if r.variable == Count then d.count else d.lastRecord;
      v.value == if r.logType in table then table[r.logType] else 0.0
  {
    if r.logType == AnyLabel then
      if r.variable == Count then Ok(SumSet(d.count, d.count.Keys))
      else if |d.lastRecord| == 0 then
        assert r.variable == LastRecord;
        Err(NoRecords)
      else
        assert d.lastRecord.Keys != {} by { var k :| k in d.lastRecord; }
        Ok(MaxSet(d.lastRecord, d.lastRecord.Keys))
    else
      var table := if r.variable == Count then d.count else d.lastRecord;
      Ok(if r.logType in table then table[r.logType] else 0.0)
  }

  /** The value a rule compares against: its number, or for last_record
      that many seconds from `now`. */
  function Threshold(r: Rule, now: real): (t: real)
    ensures r.variable == Count ==> t == r.value
    ensures r.variable == LastRecord ==> t - now == r.value
  {
    if r.variable == LastRecord then r.value + now else r.value
  }

  /** Whether a rule holds of a dump at time `now` (seconds): a strict
      comparison, with a last_record threshold taken relative to `now`. */
  function Holds(d: Dump, r: Rule, now: real): (h: Result<bool, RuleError>)
    ensures h.Ok? <==> Observed(d, r).Ok?
    ensures h.Ok? && r.comp == Lt ==> (h.value <==> Observed(d, r).value < Threshold(r, now))
    ensures h.Ok? && r.comp == Gt ==> (h.value <==> Observed(d, r).value > Threshold(r, now))
    ensures h.Err? ==> h.error == NoRecords
  {
    var observed :- Observed(d, r);
    var threshold := Threshold(r, now);
    Ok(if r.comp == Lt then observed < threshold else observed > threshold)
  }

  /** A value equal to the threshold satisfies neither comparison: a rule
      and its opposite both fail there. */
  lemma EqualityFailsBoth(d: Dump, r: Rule, now: real)
    requires Observed(d, r).Ok? && Observed(d, r).value == Threshold(r, now)
    ensures Holds(d, r.(comp := Lt), now) == Ok(false)
    ensures Holds(d, r.(comp := Gt), now) == Ok(false)
  {
    assert Observed(d, r.(comp := Lt)) == Observed(d, r) == Observed(d, r.(comp := Gt));
  }

  /** Away from the threshold exactly one of a rule and its opposite holds. */
  lemma OppositeComparisons(d: Dump, r: Rule, now: real)
    requires Observed(d, r).Ok? && Observed(d, r).value != Threshold(r, now)
    ensures Holds(d, r.(comp := Lt), now).Ok? && Holds(d, r.(comp := Gt), now).Ok?
    ensures Holds(d, r.(comp := Lt), now).value != Holds(d, r.(comp := Gt), now).value
  {
    assert Observed(d, r.(comp := Lt)) == Observed(d, r) == Observed(d, r.(comp := Gt));
  }

  /** One rule's verdict: parse it, then judge it. */
  function Judge(d: Dump, rule: string, now: real): (v: Result<bool, RuleError>)
    ensures ParseRule(rule).Err? ==> v == Err(ParseRule(rule).error)
    ensures ParseRule(rule).Ok? ==> v == Holds(d, ParseRule(rule).value, now)
  {
    var r :- ParseRule(rule);
    Holds(d, r, now)
  }

  type Verdict = Result<bool, RuleError>

  /** Verdicts `i` up to `k` are all "holds". */
  predicate AllHold(vs: seq<Verdict>, i: nat, k: nat)
    requires i <= k <= |vs|
  {
    forall j :: i <= j < k ==> vs[j] == Ok(true)
  }

  /** The exit status of the rule loop given each rule's verdict, from rule
      `i` on: 0 when every verdict holds, 3 + k for the first rule k that
      fails, and the first error otherwise. */
  function Scan(vs: seq<Verdict>, i: nat): (r: Result<nat, RuleError>)
    requires i <= |vs|
    ensures r == Ok(0) <==> AllHold(vs, i, |vs|)
    ensures r.Ok? && r.value != 0 ==>
      && 3 + i <= r.value < 3 + |vs|
      && AllHold(vs, i, r.value - 3)
      && vs[r.value - 3] == Ok(false)
    ensures r.Err? ==> exists k :: i <= k < |vs| && AllHold(vs, i, k) && vs[k] == Err(r.error)
    decreases |vs| - i
  {
    if i == |vs| then Ok(0)
    else
      var verdict := vs[i];
      if verdict.Err? then
        assert AllHold(vs, i, i);
        Err(verdict.error)
      else if !verdict.value then
        assert AllHold(vs, i, i);
        Ok(3 + i)
      else
        var r := Scan(vs, i + 1);
        assert forall k :: i + 1 <= k <= |vs| ==> (AllHold(vs, i, k) <==> AllHold(vs, i + 1, k));
        r
  }

  /** Each rule's verdict, rule `j` judged at `nowAt(j)`, the clock reading
      taken when the loop reaches it. */
  function Verdicts(d: Dump, rules: seq<string>, nowAt: nat -> real): (vs: seq<Verdict>)
    ensures |vs| == |rules|
    ensures forall j :: 0 <= j < |rules| ==> vs[j] == Judge(d, rules[j], nowAt(j))
  {
    seq(|rules|, j requires 0 <= j < |rules| => Judge(d, rules[j], nowAt(j)))
  }

  /** The rule loop of `check_log_dump`: 0 when every rule holds, 3 + k for
      the first rule k that does not, and the first parse or evaluation
      error otherwise; no rule after the deciding one matters. The clock is
      read afresh for each rule: rule `j` sees `nowAt(j)`. */
  function EvalRules(d: Dump, rules: seq<string>, nowAt: nat -> real): (r: Result<nat, RuleError>)
    ensures r == Ok(0) <==> forall j :: 0 <= j < |rules| ==> Judge(d, rules[j], nowAt(j)) == Ok(true)
    ensures r.Ok? && r.value != 0 ==>
      && 3 <= r.value < 3 + |rules|
      && Judge(d, rules[r.value - 3], nowAt(r.value - 3)) == Ok(false)
      && forall j :: 0 <= j < r.value - 3 ==> Judge(d, rules[j], nowAt(j)) == Ok(true)
    ensures r.Err? ==>
      exists k :: 0 <= k < |rules| && Judge(d, rules[k], nowAt(k)) == Err(r.error)
                  && forall j :: 0 <= j < k ==> Judge(d, rules[j], nowAt(j)) == Ok(true)
  {
    Scan(Verdicts(d, rules, nowAt), 0)
  }

  /** A run of holding verdicts followed by a failing one decides the scan,
      whatever comes after. */
  lemma {:induction false} ScanFirstFalse(vs: seq<Verdict>, i: nat, k: nat)
    requires i <= k < |vs| && AllHold(vs, i, k) && vs[k] == Ok(false)
    ensures Scan(vs, i) == Ok(3 + k)
    decreases k - i
  {
    if i < k {
      assert vs[i] == Ok(true);
      ScanFirstFalse(vs, i + 1, k);
    }
  }

  /** The status is 3 + k when rule k is the first not to hold, whatever
      the rules after it say. */
  lemma EvalRulesFirstFailure(d: Dump, rules: seq<string>, nowAt: nat -> real, k: nat)
    requires k < |rules| && Judge(d, rules[k], nowAt(k)) == Ok(false)
    requires forall j :: 0 <= j < k ==> Judge(d, rules[j], nowAt(j)) == Ok(true)
    ensures EvalRules(d, rules, nowAt) == Ok(3 + k)
  {
    ScanFirstFalse(Verdicts(d, rules, nowAt), 0, k);
  }

  lemma LowerOfLower(s: string)
    requires forall i :: 0 <= i < |s| ==> !('A' <= s[i] <= 'Z')
    ensures Lower(s) == s
  {
  }

  lemma NamesAreLower(v: Variable, c: Comparison)
    ensures Lower(VariableName(v)) == VariableName(v) && ' ' !in VariableName(v)
    ensures Lower(ComparisonName(c)) == ComparisonName(c) && ' ' !in ComparisonName(c)
  {
    LowerOfLower(VariableName(v));
    LowerOfLower(ComparisonName(c));
  }

  lemma JoinFour(a: string, b: string, c: string, t: string)
    ensures Join([a, b, c, t], ' ') == a + " " + b + " " + c + " " + t
  {
    var p := [a, b, c, t];
    assert p[1..] == [b, c, t] && p[1..][1..] == [c, t] && p[1..][1..][1..] == [t];
    assert Join([t], ' ') == t;
    assert Join([c, t], ' ') == c + " " + t;
    assert Join([b, c, t], ' ') == b + " " + c + " " + t;
  }

  /** A rule written as its four tokens parses to those tokens' meaning. */
  lemma ParseRuleOfTokens(logType: string, v: Variable, c: Comparison, threshold: string)
    requires ' ' !in logType && ' ' !in threshold
    requires ParseDecimal(threshold).Some?
    ensures ParseRule(Join([logType, VariableName(v), ComparisonName(c), threshold], ' '))
         == Ok(Rule(Upper(logType), v, c, ParseDecimal(threshold).value))
  {
    var p := [logType, VariableName(v), ComparisonName(c), threshold];
    FourTokens(p, Join(p, ' '));
    TokensMeaning(logType, v, c, threshold);
  }

  lemma FourTokens(p: seq<string>, rule: string)
    requires |p| == 4 && rule == Join(p, ' ')
    requires ' ' !in p[0] && ' ' !in p[1] && ' ' !in p[2] && ' ' !in p[3]
    ensures ParseRule(rule) == ParseTokens(p)
  {
    assert forall i :: 0 <= i < |p| ==> ' ' !in p[i];
    TokensOfJoin(p, rule);
  }

  /** A rule written as space-free tokens is split back into them. */
  lemma TokensOfJoin(p: seq<string>, rule: string)
    requires |p| >= 1 && rule == Join(p, ' ')
    requires forall i :: 0 <= i < |p| ==> ' ' !in p[i]
    ensures ParseRule(rule) == ParseTokens(p)
  {
    SplitJoin(p, ' ');
  }

  lemma TokensMeaning(logType: string, v: Variable, c: Comparison, threshold: string)
    requires ParseDecimal(threshold).Some?
    ensures ParseTokens([logType, VariableName(v), ComparisonName(c), threshold])
         == Ok(Rule(Upper(logType), v, c, ParseDecimal(threshold).value))
  {
    NamesAreLower(v, c);
  }

  function RenderRule(logType: string, v: Variable, c: Comparison, n: int): string
  {
    Join([logType, VariableName(v), ComparisonName(c), IntToString(n)], ' ')
  }

  lemma NoSpaceInNumber(n: int)
    ensures ' ' !in IntToString(n)
  {
    var m := NatToString(if n < 0 then -n else n);
    assert forall i :: 0 <= i < |m| ==> IsDigit(m[i]);
    if n < 0 {
      assert IntToString(n) == "-" + m;
    }
  }

  /** A rule with a whole-number threshold, rendered and parsed back, is
      the rule with its label upper-cased. */
  lemma ParseRenderedRule(logType: string, v: Variable, c: Comparison, n: int)
    requires ' ' !in logType
    ensures ParseRule(RenderRule(logType, v, c, n)) == Ok(Rule(Upper(logType), v, c, n as real))
  {
    NoSpaceInNumber(n);
    ParseDecimalOfInt(n);
    ParseRuleOfTokens(logType, v, c, IntToString(n));
  }

  /** Label, variable and comparison may be written in any case. */
  lemma ParseRuleIgnoresCase(a: string, b: string, c: string, t: string, a': string, b': string, c': string)
    requires forall x :: x in [a, b, c, t, a', b', c'] ==> ' ' !in x
    requires Upper(a) == Upper(a') && Lower(b) == Lower(b') && Lower(c) == Lower(c')
    ensures ParseRule(Join([a, b, c, t], ' ')) == ParseRule(Join([a', b', c', t], ' '))
  {
    var xs := [a, b, c, t, a', b', c'];
    assert xs[0] in xs && xs[1] in xs && xs[2] in xs && xs[3] in xs;
    assert xs[4] in xs && xs[5] in xs && xs[6] in xs;
    var p, p' := [a, b, c, t], [a', b', c', t];
    FourTokens(p, Join(p, ' '));
    FourTokens(p', Join(p', ' '));
    TokensIgnoreCase(p, p');
  }

  lemma TokensIgnoreCase(t: seq<string>, t': seq<string>)
    requires |t| == |t'| == 4 && t[3] == t'[3]
    requires Upper(t[0]) == Upper(t'[0]) && Lower(t[1]) == Lower(t'[1]) && Lower(t[2]) == Lower(t'[2])
    ensures ParseTokens(t) == ParseTokens(t')
  {
  }

  /** Tokens after the fourth do not change a rule. */
  lemma ParseRuleIgnoresTail(tokens: seq<string>)
    requires |tokens| >= 4
    requires forall i :: 0 <= i < |tokens| ==> ' ' !in tokens[i]
    ensures ParseRule(Join(tokens, ' ')) == ParseRule(Join(tokens[..4], ' '))
  {
    var head := tokens[..4];
    assert forall i :: 0 <= i < |head| ==> head[i] == tokens[i];
    TokensOfJoin(tokens, Join(tokens, ' '));
    TokensOfJoin(head, Join(head, ' '));
    TokensPrefix(tokens);
  }

  lemma TokensPrefix(t: seq<string>)
    requires |t| >= 4
    ensures ParseTokens(t) == ParseTokens(t[..4])
  {
  }

  /** "<label> last_record gt -<s>" holds exactly when the label's last
      record is less than `s` seconds old. */
  lemma RecentRecord(d: Dump, logType: string, s: real, now: real)
    requires logType != AnyLabel && 0.0 <= s <= now
    ensures Holds(d, Rule(logType, LastRecord, Gt, -s), now)
         == Ok(logType in d.lastRecord && d.lastRecord[logType] > now - s)
  {
  }

  /** "any last_record gt -<s>" holds exactly when some label logged less
      than `s` seconds ago; with nothing logged it is an error. */
  lemma AnyRecentRecord(d: Dump, s: real, now: real)
    ensures |d.lastRecord| == 0 ==> Holds(d, Rule(AnyLabel, LastRecord, Gt, -s), now).Err?
    ensures |d.lastRecord| > 0 ==>
      Holds(d, Rule(AnyLabel, LastRecord, Gt, -s), now) == Ok(exists k :: k in d.lastRecord && d.lastRecord[k] > now - s)
  {
  }

  /** "any count" is at least each label's count when counts are not
      negative. */
  lemma AnyCountBound(d: Dump, l: string)
    requires l in d.count
    requires forall k :: k in d.count ==> d.count[k] >= 0.0
    ensures Observed(d, Rule(AnyLabel, Count, Lt, 0.0)).Ok?
    ensures d.count[l] <= Observed(d, Rule(AnyLabel, Count, Lt, 0.0)).value
  {
    SumSetBound(d.count, d.count.Keys, l);
  }

  /** The rules the command-line tests use parse as intended. */
  lemma InfoCountGtTwo(rule: string)
    requires rule == "info count gt 2"
    ensures ParseRule(rule) == Ok(Rule("INFO", Count, Gt, 2.0))
  {
    InfoCountGtTwoText(rule);
    RenderedTestRule(rule, "info", "INFO", Count, Gt, 2);
  }

  lemma InfoCountGtTwoText(rule: string)
    requires rule == "info count gt 2"
    ensures rule == RenderRule("info", Count, Gt, 2) && Upper("info") == "INFO"
  {
    JoinFour("info", "count", "gt", "2");
    assert IntToString(2) == "2";
  }

  lemma AnyCountLtOne(rule: string)
    requires rule == "any count lt 1"
    ensures ParseRule(rule) == Ok(Rule(AnyLabel, Count, Lt, 1.0))
  {
    AnyCountLtOneText(rule);
    RenderedTestRule(rule, "any", AnyLabel, Count, Lt, 1);
  }

  lemma AnyCountLtOneText(rule: string)
    requires rule == "any count lt 1"
    ensures rule == RenderRule("any", Count, Lt, 1) && Upper("any") == AnyLabel
  {
    JoinFour("any", "count", "lt", "1");
    assert IntToString(1) == "1";
  }

  lemma InfoLastRecordGtMinusTwo(rule: string)
    requires rule == "info last_record gt -2"
    ensures ParseRule(rule) == Ok(Rule("INFO", LastRecord, Gt, -2.0))
  {
    InfoLastRecordGtMinusTwoText(rule);
    RenderedTestRule(rule, "info", "INFO", LastRecord, Gt, -2);
  }

  lemma InfoLastRecordGtMinusTwoText(rule: string)
    requires rule == "info last_record gt -2"
    ensures rule == RenderRule("info", LastRecord, Gt, -2) && Upper("info") == "INFO"
  {
    JoinFour("info", "last_record", "gt", "-2");
    MinusTwo(-2);
  }

  lemma MinusTwo(n: int)
    requires n == -2
    ensures IntToString(n) == "-2"
  {
    assert NatToString(2) == "2";
  }

  lemma RenderedTestRule(rule: string, logType: string, upper: string, v: Variable, c: Comparison, n: int)
    requires ' ' !in logType && Upper(logType) == upper
    requires rule == RenderRule(logType, v, c, n)
    ensures ParseRule(rule) == Ok(Rule(upper, v, c, n as real))
  {
    ParseRenderedRule(logType, v, c, n);
  }

  lemma AnyLastRecordGtMinusOneAndAHalf(rule: string)
    requires rule == "any last_record gt -1.5"
    ensures ParseRule(rule) == Ok(Rule(AnyLabel, LastRecord, Gt, -1.5))
  {
    AnyLastRecordText(rule);
    MinusOneAndAHalf("-1.5");
    TestRule(rule, "any", AnyLabel, LastRecord, Gt, "-1.5");
  }

  lemma AnyLastRecordText(rule: string)
    requires rule == "any last_record gt -1.5"
    ensures rule == Join(["any", VariableName(LastRecord), ComparisonName(Gt), "-1.5"], ' ')
    ensures Upper("any") == AnyLabel && ' ' !in "-1.5"
  {
    JoinFour("any", "last_record", "gt", "-1.5");
  }

  lemma TestRule(rule: string, logType: string, upper: string, v: Variable, c: Comparison, t: string)
    requires ' ' !in logType && ' ' !in t && ParseDecimal(t).Some? && Upper(logType) == upper
    requires rule == Join([logType, VariableName(v), ComparisonName(c), t], ' ')
    ensures ParseRule(rule) == Ok(Rule(upper, v, c, ParseDecimal(t).value))
  {
    ParseRuleOfTokens(logType, v, c, t);
  }

  lemma MinusOneAndAHalf(t: string)
    requires t == "-1.5"
    ensures ParseDecimal(t) == Some(-1.5)
  {
    var body := t[1..];
    assert body == "1.5";
    IndexOfUnique(body, '.', 1);
    assert body[..1] == "1" && body[2..] == "5";
    assert DigitsValue("1") == 1 && DigitsValue("5") == 5;
  }
}
