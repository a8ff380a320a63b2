/** The history over a whole run of banks. */
module HistoryRuns {
  import opened CStrings
  import opened GemBank
  import opened BankNames
  import opened Throttle
  import opened HistoryLogger

  ghost predicate AllLoggable(banks: seq<seq<octet>>)
  {
    forall i | 0 <= i < |banks| :: Loggable(banks[i])
  }

  /** The variables and the writes after logging the banks one after the other. */
  function LogAll(vars: seq<Variable>, banks: seq<seq<octet>>, host: bytestring, defaultPeriod: int)
    : (r: (seq<Variable>, seq<Write>))
    requires AllSound(vars) && AllLoggable(banks)
    ensures AllSound(r.0)
    decreases |banks|
  {
    if banks == [] then (vars, [])
    else
      var r := Log(vars, banks[0], host, defaultPeriod);
      var (last, later) := LogAll(r.vars, banks[1..], host, defaultPeriod);
      (last, r.writes + later)
  }

  /** One variable per category and name. */
  ghost predicate UniqueKeys(vars: seq<Variable>)
  {
    forall i, j | 0 <= i < j < |vars| :: !SameKey(vars[i], vars[j])
  }

  predicate SameKey(v: Variable, w: Variable)
  {
    v.category == w.category && v.name == w.name
  }

  ghost predicate HasKey(vars: seq<Variable>, b: seq<octet>)
    requires |b| >= BANK_HEADER
  {
    exists i :: 0 <= i < |vars| && IsFor(vars[i], b)
  }

  lemma LogKeepsUnique(vars: seq<Variable>, b: seq<octet>, host: bytestring, defaultPeriod: int)
    requires AllSound(vars) && Loggable(b) && UniqueKeys(vars)
    ensures |b| >= BANK_HEADER
    ensures UniqueKeys(Log(vars, b, host, defaultPeriod).vars)
    ensures HasKey(Log(vars, b, host, defaultPeriod).vars, b)
    ensures KeysKept(vars, Log(vars, b, host, defaultPeriod).vars)
  {
    hide Log, Category, VariableName, UpdateVariable, WithVariable, IndexFor;
    LogIs(vars, b, host, defaultPeriod);
    var i := IndexFor(vars, b);
    var all := WithVariable(vars, b, host, defaultPeriod);
    WithVariableUnique(vars, b, host, defaultPeriod);
    UpdateKeepsKey(all[i], b);
    UpdatedKeys(all, i, UpdateVariable(all[i], b).variable, b);
    WithVariableKeeps(vars, all, UpdateVariable(all[i], b).variable, i);
  }

  lemma UpdateKeepsKey(v: Variable, b: seq<octet>)
    requires Sound(v) && Loggable(b)
    ensures SameKey(UpdateVariable(v, b).variable, v)
  {
    hide LastTime, LastEntry, Due;
  }

  lemma WithVariableKeeps(vars: seq<Variable>, all: seq<Variable>, v: Variable, i: nat)
    requires vars <= all && i < |all| && SameKey(v, all[i])
    ensures KeysKept(vars, all[i := v])
  {
  }

  lemma WithVariableUnique(vars: seq<Variable>, b: seq<octet>, host: bytestring, defaultPeriod: int)
    requires |b| >= BANK_HEADER && UniqueKeys(vars) && AllSound(vars)
    ensures UniqueKeys(WithVariable(vars, b, host, defaultPeriod)) && AllSound(WithVariable(vars, b, host, defaultPeriod))
  {
    hide Category, VariableName, HistoryPeriod, Shortened;
  }

  lemma UpdatedKeys(all: seq<Variable>, i: nat, v: Variable, b: seq<octet>)
    requires i < |all| && SameKey(v, all[i]) && UniqueKeys(all) && |b| >= BANK_HEADER && IsFor(all[i], b)
    ensures UniqueKeys(all[i := v]) && HasKey(all[i := v], b) && KeysKept(all, all[i := v])
  {
    assert IsFor(all[i := v][i], b);
  }

  /** The list only grows, and every place keeps its key. */
  ghost predicate KeysKept(vars: seq<Variable>, r: seq<Variable>)
  {
    |vars| <= |r| && forall k | 0 <= k < |vars| :: SameKey(r[k], vars[k])
  }

  /** After any run there is exactly one variable for every name that was logged. */
  lemma {:induction false} OneVariablePerName(vars: seq<Variable>, banks: seq<seq<octet>>,
                                              host: bytestring, defaultPeriod: int)
    requires AllSound(vars) && AllLoggable(banks) && UniqueKeys(vars)
    ensures var last := LogAll(vars, banks, host, defaultPeriod).0;
            UniqueKeys(last) && KeysKept(vars, last) && AllHaveKeys(last, banks)
    decreases |banks|
  {
    hide Log, Loggable, HasKey, KeysKept, AllHaveKeys, UniqueKeys;
    if banks == [] {
      NoneLogged(vars);
    } else {
      var r := Log(vars, banks[0], host, defaultPeriod);
      LogKeepsUnique(vars, banks[0], host, defaultPeriod);
      OneVariablePerName(r.vars, banks[1..], host, defaultPeriod);
      KeysKeptTwice(vars, r.vars, LogAll(vars, banks, host, defaultPeriod).0);
      FirstHasKey(r.vars, LogAll(vars, banks, host, defaultPeriod).0, banks);
    }
  }

  ghost predicate AllHaveKeys(vars: seq<Variable>, banks: seq<seq<octet>>)
  {
    forall i | 0 <= i < |banks| :: |banks[i]| >= BANK_HEADER && HasKey(vars, banks[i])
  }

  lemma NoneLogged(vars: seq<Variable>)
    ensures KeysKept(vars, vars) && AllHaveKeys(vars, [])
  {
  }

  lemma KeysKeptTwice(vars: seq<Variable>, r: seq<Variable>, last: seq<Variable>)
    requires KeysKept(vars, r) && KeysKept(r, last)
    ensures KeysKept(vars, last)
  {
  }

  lemma FirstHasKey(vars: seq<Variable>, last: seq<Variable>, banks: seq<seq<octet>>)
    requires banks != [] && |banks[0]| >= BANK_HEADER && HasKey(vars, banks[0]) && KeysKept(vars, last)
    requires AllHaveKeys(last, banks[1..])
    ensures AllHaveKeys(last, banks)
  {
    hide HasKey;
    KeyStays(vars, last, banks[0]);
    assert forall i | 0 < i < |banks| :: banks[i] == banks[1..][i - 1];
  }

  lemma KeyStays(vars: seq<Variable>, r: seq<Variable>, b: seq<octet>)
    requires |b| >= BANK_HEADER && HasKey(vars, b) && KeysKept(vars, r)
    ensures HasKey(r, b)
  {
    var i :| 0 <= i < |vars| && IsFor(vars[i], b);
    assert IsFor(r[i], b);
  }

  // ---------- the writes of one variable ----------

  /** The last-entry times of the banks with this category and name. */
  function TimesOf(banks: seq<seq<octet>>, category: string, name: string): seq<int>
    requires AllLoggable(banks)
    decreases |banks|
  {
    if banks == [] then []
    else if Category(banks[0]) == category && VariableName(banks[0]) == name then
      [LastTime(banks[0])] + TimesOf(banks[1..], category, name)
    else TimesOf(banks[1..], category, name)
  }

  function WriteTimes(writes: seq<Write>, category: string, name: string): seq<int>
  {
    if writes == [] then []
    else if writes[0].category == category && writes[0].name == name then
      [writes[0].time] + WriteTimes(writes[1..], category, name)
    else WriteTimes(writes[1..], category, name)
  }

  function ExpectedTimes(v: Variable, times: seq<int>): seq<int>
    requires Sound(v)
  {
    if v.period == 0 then [] else Written(times, v.last.value, v.period)
  }

  /** What one variable writes depends on its own banks only: it is the throttle run over their times. */
  lemma {:induction false} VariableWrites(vars: seq<Variable>, i: nat, banks: seq<seq<octet>>,
                                          host: bytestring, defaultPeriod: int)
    requires AllSound(vars) && AllLoggable(banks) && UniqueKeys(vars) && i < |vars|
    ensures WriteTimes(LogAll(vars, banks, host, defaultPeriod).1, vars[i].category, vars[i].name) ==
            ExpectedTimes(vars[i], TimesOf(banks, vars[i].category, vars[i].name))
    decreases |banks|
  {
    hide Log, LastTime, LastEntry, Renamed, IndexFor, Category, VariableName;
    if banks != [] {
      var b, v := banks[0], vars[i];
      var r := Log(vars, b, host, defaultPeriod);
      LogIs(vars, b, host, defaultPeriod);
      LogKeepsUnique(vars, b, host, defaultPeriod);
      VariableWrites(r.vars, i, banks[1..], host, defaultPeriod);
      var later := LogAll(r.vars, banks[1..], host, defaultPeriod).1;
      PrependWrites(r.writes, later, v.category, v.name);
      if IsFor(v, b) {
        IndexForIs(vars, b, i);
      }
    }
  }

  /** The first bank with this name decides the period. */
  function FirstOf(banks: seq<seq<octet>>, category: string, name: string): (i: nat)
    requires AllLoggable(banks)
    ensures i <= |banks|
    ensures i < |banks| ==> Category(banks[i]) == category && VariableName(banks[i]) == name
    decreases |banks|
  {
    if banks == [] || (Category(banks[0]) == category && VariableName(banks[0]) == name) then 0
    else 1 + FirstOf(banks[1..], category, name)
  }

  function FirstPeriod(b: seq<octet>, defaultPeriod: int): int
    requires |b| >= BANK_HEADER
  {
    if HistoryPeriod(b) != 65535 then HistoryPeriod(b) else defaultPeriod
  }

  ghost predicate NoKey(vars: seq<Variable>, category: string, name: string)
  {
    forall i | 0 <= i < |vars| :: !(vars[i].category == category && vars[i].name == name)
  }

  /** The throttle run over the times of one name, as if last written at time zero, with the period its
      first bank asks for. */
  function ExpectedHistory(banks: seq<seq<octet>>, category: string, name: string, defaultPeriod: int): seq<int>
    requires AllLoggable(banks)
  {
    var i := FirstOf(banks, category, name);
    if i == |banks| || FirstPeriod(banks[i], defaultPeriod) == 0 then []
    else Written(TimesOf(banks, category, name), 0, FirstPeriod(banks[i], defaultPeriod))
  }

  lemma ExpectedLater(banks: seq<seq<octet>>, category: string, name: string, defaultPeriod: int)
    requires AllLoggable(banks) && banks != [] && FirstOf(banks, category, name) > 0
    ensures ExpectedHistory(banks, category, name, defaultPeriod) ==
            ExpectedHistory(banks[1..], category, name, defaultPeriod)
  {
  }

  /** A name not seen before is written as expected, whatever other banks come between. */
  lemma {:induction false} NewVariableWrites(vars: seq<Variable>, banks: seq<seq<octet>>, category: string, name: string,
                                             host: bytestring, defaultPeriod: int)
    requires AllSound(vars) && AllLoggable(banks) && UniqueKeys(vars) && NoKey(vars, category, name)
    ensures WriteTimes(LogAll(vars, banks, host, defaultPeriod).1, category, name) ==
            ExpectedHistory(banks, category, name, defaultPeriod)
    decreases |banks|
  {
    hide Log, ExpectedHistory, WriteTimes;
    if banks == [] {
      NothingExpected(category, name, defaultPeriod);
    } else {
      if FirstOf(banks, category, name) == 0 {
        FirstBankWrites(vars, banks, host, defaultPeriod);
      } else {
        OtherBankSkipped(vars, banks, category, name, host, defaultPeriod);
        ExpectedLater(banks, category, name, defaultPeriod);
        NewVariableWrites(Log(vars, banks[0], host, defaultPeriod).vars, banks[1..], category, name, host, defaultPeriod);
      }
    }
  }

  lemma NothingExpected(category: string, name: string, defaultPeriod: int)
    ensures WriteTimes([], category, name) == ExpectedHistory([], category, name, defaultPeriod)
  {
  }

  lemma FirstBankWrites(vars: seq<Variable>, banks: seq<seq<octet>>, host: bytestring, defaultPeriod: int)
    requires AllSound(vars) && AllLoggable(banks) && UniqueKeys(vars) && banks != []
    requires NoKey(vars, Category(banks[0]), VariableName(banks[0]))
    ensures WriteTimes(LogAll(vars, banks, host, defaultPeriod).1, Category(banks[0]), VariableName(banks[0])) ==
            ExpectedHistory(banks, Category(banks[0]), VariableName(banks[0]), defaultPeriod)
  {
    hide Log, LastTime, LastEntry, Renamed, Due, IndexFor, Category, VariableName;
    var b := banks[0];
    var r := Log(vars, b, host, defaultPeriod);
    IndexForIs(vars, b, |vars|);
    LogIs(vars, b, host, defaultPeriod);
    LogKeepsUnique(vars, b, host, defaultPeriod);
    VariableWrites(r.vars, |vars|, banks[1..], host, defaultPeriod);
    PrependWrites(r.writes, LogAll(r.vars, banks[1..], host, defaultPeriod).1, Category(b), VariableName(b));
  }

  lemma OtherBankSkipped(vars: seq<Variable>, banks: seq<seq<octet>>, category: string, name: string,
                         host: bytestring, defaultPeriod: int)
    requires AllSound(vars) && AllLoggable(banks) && UniqueKeys(vars) && NoKey(vars, category, name)
    requires banks != [] && FirstOf(banks, category, name) > 0
    ensures var r := Log(vars, banks[0], host, defaultPeriod);
            && UniqueKeys(r.vars) && NoKey(r.vars, category, name)
            && WriteTimes(LogAll(vars, banks, host, defaultPeriod).1, category, name) ==
                 WriteTimes(LogAll(r.vars, banks[1..], host, defaultPeriod).1, category, name)
  {
    hide Log, LastTime, LastEntry, Renamed, Due, Category, VariableName;
    var b := banks[0];
    var r := Log(vars, b, host, defaultPeriod);
    LogIs(vars, b, host, defaultPeriod);
    LogKeepsUnique(vars, b, host, defaultPeriod);
    PrependWrites(r.writes, LogAll(r.vars, banks[1..], host, defaultPeriod).1, category, name);
  }

  lemma PrependWrites(writes: seq<Write>, later: seq<Write>, category: string, name: string)
    requires |writes| <= 1
    ensures WriteTimes(writes + later, category, name) ==
            if writes != [] && writes[0].category == category && writes[0].name == name
            then [writes[0].time] + WriteTimes(later, category, name)
            else WriteTimes(later, category, name)
  {
    if writes == [] {
      assert writes + later == later;
    } else {
      assert (writes + later)[1..] == later;
    }
  }

  /** The history of every variable consists of times it was offered, spaced by its period; it is the intended
      one exactly when every test stays in reach, and then as dense as any spaced choice of these times. */
  lemma HistoryIsOptimal(banks: seq<seq<octet>>, category: string, name: string, host: bytestring, defaultPeriod: int)
    requires AllLoggable(banks) && FirstOf(banks, category, name) < |banks|
    requires FirstPeriod(banks[FirstOf(banks, category, name)], defaultPeriod) > 0
    requires Ascending(TimesOf(banks, category, name), 0)
    ensures Optimal(WriteTimes(LogAll([], banks, host, defaultPeriod).1, category, name),
                    TimesOf(banks, category, name), FirstPeriod(banks[FirstOf(banks, category, name)], defaultPeriod))
  {
    hide Optimal, Ascending;
    NewVariableWrites([], banks, category, name, host, defaultPeriod);
    ThrottleOptimal(TimesOf(banks, category, name), FirstPeriod(banks[FirstOf(banks, category, name)], defaultPeriod));
  }
}
