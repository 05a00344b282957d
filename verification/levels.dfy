/** Level names and numbers of the host logging framework, `parse_level`
    and `parse_signal` (src/logging_plugins/__init__.py). */
module Levels {
  import opened Results
  import opened Strings

  /** `STANDARD_LEVELS`: the names `parse_level` accepts. */
  const StandardLevels: seq<string> := ["CRITICAL", "DEBUG", "ERROR", "FATAL", "INFO", "NOTSET", "WARN", "WARNING"]

  /** `getattr(logging, name)` for each standard name. */
  const LevelByName: map<string, int> := map[
    "CRITICAL" := 50, "DEBUG" := 10, "ERROR" := 40, "FATAL" := 50,
    "INFO" := 20, "NOTSET" := 0, "WARN" := 30, "WARNING" := 30]

  const ERROR := 40

  /** Keys of a dict display, entries in source order. */
  function EntryKeys(entries: seq<(int, string)>): set<int>
  {
    set e | e in entries :: e.0
  }

  /** Python's evaluation of a dict display: a later entry for a key
      replaces an earlier one. */
  function DictDisplay(entries: seq<(int, string)>): (d: map<int, string>)
  {
    if |entries| == 0 then map[]
    else
      var last := entries[|entries| - 1];
      DictDisplay(entries[..|entries| - 1])[last.0 := last.1]
  }

  /** A dict display has one key per distinct entry key, and each key
      holds the value of its LAST entry. */
  lemma {:induction false} DictDisplayLastWins(entries: seq<(int, string)>)
    ensures DictDisplay(entries).Keys == EntryKeys(entries)
    ensures forall i :: 0 <= i < |entries| && (forall j :: i < j < |entries| ==> entries[j].0 != entries[i].0)
                        ==> DictDisplay(entries)[entries[i].0] == entries[i].1
  {
    if |entries| > 0 {
      var init := entries[..|entries| - 1];
      var last := entries[|entries| - 1];
      DictDisplayLastWins(init);
      assert entries == init + [last];
      DictDisplayStep(init, last);
      assert EntryKeys(entries) == EntryKeys(init) + {last.0};
      forall i | 0 <= i < |entries| && (forall j :: i < j < |entries| ==> entries[j].0 != entries[i].0)
        ensures DictDisplay(entries)[entries[i].0] == entries[i].1
      {
        if i < |init| {
          LastWinsInit(entries, init, i);
        }
      }
    }
  }

  lemma LastWinsInit(entries: seq<(int, string)>, init: seq<(int, string)>, i: nat)
    requires |entries| > 0 && init == entries[..|entries| - 1] && i < |init|
    requires forall j :: i < j < |entries| ==> entries[j].0 != entries[i].0
    ensures entries[i] == init[i] && entries[i].0 != entries[|entries| - 1].0
    ensures forall j :: i < j < |init| ==> init[j].0 != init[i].0
  {
  }

  /** The `LEVELNO_TO_STR` display as written: CRITICAL and FATAL share 50. */
  const LevelEntries: seq<(int, string)> := [(50, "CRITICAL"), (10, "DEBUG"), (40, "ERROR"), (50, "FATAL"), (20, "INFO"), (30, "WARNING")]

  const LevelNoToStr: map<int, string> := DictDisplay(LevelEntries)

  lemma DictDisplayStep(entries: seq<(int, string)>, last: (int, string))
    ensures DictDisplay(entries + [last]) == DictDisplay(entries)[last.0 := last.1]
  {
    assert (entries + [last])[..|entries|] == entries;
  }

  /** The later FATAL entry wins, so level 50 is named "FATAL". */
  lemma LevelNoToStrContents()
    ensures LevelNoToStr == map[10 := "DEBUG", 20 := "INFO", 30 := "WARNING", 40 := "ERROR", 50 := "FATAL"]
  {
    var e0, e1, e2, e3, e4, e5 := (50, "CRITICAL"), (10, "DEBUG"), (40, "ERROR"), (50, "FATAL"), (20, "INFO"), (30, "WARNING");
    assert LevelEntries == [] + [e0] + [e1] + [e2] + [e3] + [e4] + [e5];
    DictDisplayStep([], e0);
    DictDisplayStep([e0], e1);
    assert [e0] + [e1] == [e0, e1];
    DictDisplayStep([e0, e1], e2);
    assert [e0, e1] + [e2] == [e0, e1, e2];
    DictDisplayStep([e0, e1, e2], e3);
    assert [e0, e1, e2] + [e3] == [e0, e1, e2, e3];
    DictDisplayStep([e0, e1, e2, e3], e4);
    assert [e0, e1, e2, e3] + [e4] == [e0, e1, e2, e3, e4];
    DictDisplayStep([e0, e1, e2, e3, e4], e5);
    assert [e0, e1, e2, e3, e4] + [e5] == LevelEntries;
  }

  /** An argument of `parse_level`: a string, an int, or anything else. */
  datatype LevelArg = LevelName(name: string) | LevelNumber(n: int) | OtherLevel

  /** `parse_level`: a standard name gives its number, an int passes
      through, anything else raises. */
  function ParseLevel(arg: LevelArg): (r: Result<int, string>)
    ensures r.Ok? <==> arg.LevelNumber? || (arg.LevelName? && arg.name in StandardLevels)
    ensures arg.LevelNumber? ==> r == Ok(arg.n)
    ensures arg.LevelName? && r.Ok? ==> r.value == LevelByName[arg.name] && r.value in {0, 10, 20, 30, 40, 50}
  {
    if arg.LevelName? && arg.name in StandardLevels then
      assert arg.name in LevelByName;
      Ok(LevelByName[arg.name])
    else if arg.LevelNumber? then Ok(arg.n)
    else Err("Invalid loglevel")
  }

  /** The four lower standard names parse to their own level numbers. */
  lemma LowerLevelNumbers()
    ensures ParseLevel(LevelName("NOTSET")) == Ok(0) && ParseLevel(LevelName("DEBUG")) == Ok(10)
    ensures ParseLevel(LevelName("INFO")) == Ok(20) && ParseLevel(LevelName("WARNING")) == Ok(30)
  {
    assert StandardLevels[1] == "DEBUG" && StandardLevels[4] == "INFO";
    assert StandardLevels[5] == "NOTSET" && StandardLevels[7] == "WARNING";
  }

  /** The four upper standard names parse to their own level numbers. */
  lemma UpperLevelNumbers()
    ensures ParseLevel(LevelName("WARN")) == Ok(30) && ParseLevel(LevelName("ERROR")) == Ok(40)
    ensures ParseLevel(LevelName("CRITICAL")) == Ok(50) && ParseLevel(LevelName("FATAL")) == Ok(50)
  {
    assert StandardLevels[0] == "CRITICAL" && StandardLevels[2] == "ERROR";
    assert StandardLevels[3] == "FATAL" && StandardLevels[6] == "WARN";
  }

  /** Every name the counter uses for a level parses back to that level. */
  lemma ParseLevelOfLevelName(n: int)
    requires n in LevelNoToStr
    ensures ParseLevel(LevelName(LevelNoToStr[n])) == Ok(n)
  {
    LevelNoToStrContents();
    assert n in {10, 20, 30, 40, 50};
    assert StandardLevels[1] == "DEBUG" && StandardLevels[4] == "INFO" && StandardLevels[7] == "WARNING";
    assert StandardLevels[2] == "ERROR" && StandardLevels[3] == "FATAL";
  }

  lemma ParseLevelError()
    ensures ParseLevel(LevelName("ERROR")) == Ok(40)
    ensures ParseLevel(LevelName("error")).Err?
  {
    assert "error" != "ERROR";
  }

  /** An argument of `parse_signal`: a number or a name. */
  datatype SignalArg = SignalNumber(n: int) | SignalName(name: string)

  /** The name `parse_signal` looks up: upper-cased, "SIG" added if missing. */
  function NormaliseSignalName(name: string): (r: string)
    ensures StartsWith(r, "SIG")
    ensures Upper(r) == r
    ensures StartsWith(Upper(name), "SIG") ==> r == Upper(name)
    ensures !StartsWith(Upper(name), "SIG") ==> r == "SIG" + Upper(name)
  {
    var u := Upper(name);
    UpperIdempotent(name);
    if StartsWith(u, "SIG") then u
    else
      UpperAppend("SIG", u);
      "SIG" + u
  }

  /** `parse_signal`: an int passes through; a name is normalised and looked
      up in the signal module (`table`), which raises when it is absent. */
  function ParseSignal(arg: SignalArg, table: map<string, int>): (r: Result<int, string>)
    ensures arg.SignalNumber? ==> r == Ok(arg.n)
    ensures arg.SignalName? ==> (r.Ok? <==> NormaliseSignalName(arg.name) in table)
    ensures arg.SignalName? && r.Ok? ==> r.value == table[NormaliseSignalName(arg.name)]
  {
    match arg
    case SignalNumber(n) => Ok(n)
    case SignalName(name) =>
      var key := NormaliseSignalName(name);
      if key in table then Ok(table[key]) else Err("unknown signal")
  }

  lemma NormaliseIdempotent(name: string)
    ensures NormaliseSignalName(NormaliseSignalName(name)) == NormaliseSignalName(name)
  {
  }

  /** Names that differ only in letter case resolve alike. */
  lemma NormaliseIgnoresCase(a: string, b: string)
    requires Upper(a) == Upper(b)
    ensures NormaliseSignalName(a) == NormaliseSignalName(b)
  {
  }

  /** The "SIG" prefix, in any case, is optional. */
  lemma NormalisePrefixOptional(prefix: string, name: string)
    requires Upper(prefix) == "SIG"
    requires !StartsWith(Upper(name), "SIG")
    ensures NormaliseSignalName(prefix + name) == NormaliseSignalName(name)
  {
    UpperAppend(prefix, name);
    assert (Upper(prefix) + Upper(name))[..3] == "SIG";
  }

  lemma Usr2Spellings()
    ensures NormaliseSignalName("usr2") == "SIGUSR2"
    ensures NormaliseSignalName("USR2") == "SIGUSR2"
    ensures NormaliseSignalName("sigusr2") == "SIGUSR2"
  {
    Usr2Texts("usr2", "USR2", "sigusr2", "SIGUSR2");
    NormaliseUnprefixed("usr2", "USR2");
    NormaliseUnprefixed("USR2", "USR2");
    NormalisePrefixed("sigusr2", "SIGUSR2");
  }

  lemma Usr2Texts(a: string, b: string, c: string, d: string)
    requires a == "usr2" && b == "USR2" && c == "sigusr2" && d == "SIGUSR2"
    ensures Upper(a) == b && Upper(b) == b && Upper(c) == d
    ensures !StartsWith(b, "SIG") && StartsWith(d, "SIG") && "SIG" + b == d
  {
    assert b[..3][0] == 'U';
  }

  lemma NormaliseUnprefixed(name: string, u: string)
    requires Upper(name) == u && !StartsWith(u, "SIG")
    ensures NormaliseSignalName(name) == "SIG" + u
  {
  }

  lemma NormalisePrefixed(name: string, u: string)
    requires Upper(name) == u && StartsWith(u, "SIG")
    ensures NormaliseSignalName(name) == u
  {
  }
}
