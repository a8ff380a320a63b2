/** The history after a walk: that of its data banks, logged one after the other. */
module WalkHistory {
  import opened CStrings
  import opened GemBank
  import opened HistoryLogger
  import opened Throttle
  import opened HistoryRuns
  import opened FrontEnd
  import opened WalkRuns

  /** The banks among the first `n` that go to the history. */
  function DataBanks(banks: seq<seq<octet>>, n: nat): (r: seq<seq<octet>>)
    requires AllWellFormed(banks) && n <= |banks|
    ensures AllLoggable(r)
  {
    if n == 0 then []
    else if RouteOf(banks[n - 1]) == ToHistory then DataBanks(banks, n - 1) + [banks[n - 1]]
    else DataBanks(banks, n - 1)
  }

  lemma {:induction false} LogOneMore(vars: seq<Variable>, banks: seq<seq<octet>>, b: seq<octet>, c: Config)
    requires AllSound(vars) && AllLoggable(banks) && Loggable(b)
    ensures var (before, writes) := LogAll(vars, banks, c.host, c.defaultPeriod);
            && AllSound(before)
            && var r := Log(before, b, c.host, c.defaultPeriod);
               LogAll(vars, banks + [b], c.host, c.defaultPeriod) == (r.vars, writes + r.writes)
    decreases |banks|
  {
    hide Log, Loggable;
    if banks == [] {
      assert banks + [b] == [b] && [b][1..] == [];
      assert Log(vars, b, c.host, c.defaultPeriod).writes + [] == Log(vars, b, c.host, c.defaultPeriod).writes;
      assert [] + Log(vars, b, c.host, c.defaultPeriod).writes == Log(vars, b, c.host, c.defaultPeriod).writes;
    } else {
      var first := Log(vars, banks[0], c.host, c.defaultPeriod);
      assert (banks + [b])[0] == banks[0] && (banks + [b])[1..] == banks[1..] + [b];
      LogOneMore(first.vars, banks[1..], b, c);
      var (before, writes) := LogAll(first.vars, banks[1..], c.host, c.defaultPeriod);
      RegroupWrites(first.writes, writes, Log(before, b, c.host, c.defaultPeriod).writes);
    }
  }

  lemma RegroupWrites(x: seq<Write>, y: seq<Write>, z: seq<Write>)
    ensures x + (y + z) == (x + y) + z
  {
  }

  /** One bank that fits: only a data bank touches the variables and the history. */
  lemma HandleLogs(s: State, b: seq<octet>, c: Config)
    requires AllSound(s.vars) && WellFormed(b) && |b| <= s.settings.eventSize
    ensures var r := Handle(s, b, c).state;
            if RouteOf(b) == ToHistory then
              var l := Log(s.vars, b, c.host, c.defaultPeriod);
              r.vars == l.vars && r.history == s.history + l.writes
            else r.vars == s.vars && r.history == s.history
  {
    hide Log;
    BlockFits(b);
    HandleIs(s, b, c);
    DispatchIs(s, b, c);
  }

  lemma NoOutcomes(s: State, banks: seq<seq<octet>>, c: Config)
    requires AllSound(s.vars) && AllWellFormed(banks)
    ensures StateAfter(s, Outcomes(s, banks, 0, c)) == s
  {
  }

  lemma NextOutcome(s: State, banks: seq<seq<octet>>, n: nat, c: Config)
    requires AllSound(s.vars) && AllWellFormed(banks) && 0 < n <= |banks|
    ensures AllSound(StateAfter(s, Outcomes(s, banks, n - 1, c)).vars)
    ensures StateAfter(s, Outcomes(s, banks, n, c)) ==
            Handle(StateAfter(s, Outcomes(s, banks, n - 1, c)), banks[n - 1], c).state
  {
    hide Handle;
  }

  /** The variables and the history after the walk over banks that fit the event size. */
  lemma {:induction false} WalkLogsDataBanks(s: State, banks: seq<seq<octet>>, n: nat, c: Config)
    requires AllSound(s.vars) && AllWellFormed(banks) && n <= |banks|
    requires forall i | 0 <= i < |banks| :: |banks[i]| <= s.settings.eventSize
    ensures var r := StateAfter(s, Outcomes(s, banks, n, c));
            var (vars, writes) := LogAll(s.vars, DataBanks(banks, n), c.host, c.defaultPeriod);
            r.vars == vars && r.history == s.history + writes
  {
    hide Outcomes, Handle, Log, RouteOf, Loggable, WellFormed;
    if n == 0 {
      NoOutcomes(s, banks, c);
      assert s.history + [] == s.history;
    } else {
      var before, b := StateAfter(s, Outcomes(s, banks, n - 1, c)), banks[n - 1];
      WalkLogsDataBanks(s, banks, n - 1, c);
      EventSizeNeverShrinks(s, banks, n - 1, c);
      NextOutcome(s, banks, n, c);
      HandleLogs(before, b, c);
      LoggableOf(b);
      if RouteOf(b) == ToHistory {
        LogOneMore(s.vars, DataBanks(banks, n - 1), b, c);
        var (vars, writes) := LogAll(s.vars, DataBanks(banks, n - 1), c.host, c.defaultPeriod);
        RegroupWrites(s.history, writes, Log(vars, b, c.host, c.defaultPeriod).writes);
      }
    }
  }

  lemma LoggableOf(b: seq<octet>)
    requires WellFormed(b)
    ensures Loggable(b) && |b| >= BANK_HEADER
  {
  }

  // ---------- one array after the other ----------

  function ArraySize(banks: seq<seq<octet>>): nat
  {
    ARRAY_HEADER + |Concat(banks)|
  }

  lemma ArraySizeIs(a: seq<octet>, banks: seq<seq<octet>>)
    requires IsArray(a, banks)
    ensures ArraySize(banks) == |a|
  {
    hide Concat, AllBanks;
  }

  /** What one array leaves; one over the event size of the moment is refused. */
  function HandleArray(s: State, banks: seq<seq<octet>>, c: Config): (r: State)
    requires AllSound(s.vars) && AllWellFormed(banks)
    ensures AllSound(r.vars)
  {
    if ArraySize(banks) > s.settings.eventSize then s else StateAfter(s, Outcomes(s, banks, |banks|, c))
  }

  ghost predicate ArraysWellFormed(arrays: seq<seq<seq<octet>>>)
  {
    forall i | 0 <= i < |arrays| :: AllWellFormed(arrays[i])
  }

  function HandleArrays(s: State, arrays: seq<seq<seq<octet>>>, c: Config): (r: State)
    requires AllSound(s.vars) && ArraysWellFormed(arrays)
    ensures AllSound(r.vars)
    decreases |arrays|
  {
    if arrays == [] then s else HandleArrays(HandleArray(s, arrays[0], c), arrays[1..], c)
  }

  function Accepted(s: State, banks: seq<seq<octet>>): (r: seq<seq<octet>>)
    requires AllWellFormed(banks)
    ensures AllLoggable(r)
  {
    if ArraySize(banks) > s.settings.eventSize then [] else DataBanks(banks, |banks|)
  }

  /** The data banks of all arrays that are not refused, in order. */
  function DataOf(s: State, arrays: seq<seq<seq<octet>>>, c: Config): (r: seq<seq<octet>>)
    requires AllSound(s.vars) && ArraysWellFormed(arrays)
    ensures AllLoggable(r)
    decreases |arrays|
  {
    if arrays == [] then [] else Accepted(s, arrays[0]) + DataOf(HandleArray(s, arrays[0], c), arrays[1..], c)
  }

  lemma {:induction false} LogAllConcat(vars: seq<Variable>, xs: seq<seq<octet>>, ys: seq<seq<octet>>, c: Config)
    requires AllSound(vars) && AllLoggable(xs) && AllLoggable(ys)
    ensures var (v, w) := LogAll(vars, xs, c.host, c.defaultPeriod);
            && AllSound(v)
            && var (v', w') := LogAll(v, ys, c.host, c.defaultPeriod);
               LogAll(vars, xs + ys, c.host, c.defaultPeriod) == (v', w + w')
    decreases |xs|
  {
    hide Log, Loggable;
    if xs == [] {
      assert xs + ys == ys;
      var w' := LogAll(vars, ys, c.host, c.defaultPeriod).1;
      assert [] + w' == w';
    } else {
      var r := Log(vars, xs[0], c.host, c.defaultPeriod);
      assert (xs + ys)[0] == xs[0] && (xs + ys)[1..] == xs[1..] + ys;
      LogAllConcat(r.vars, xs[1..], ys, c);
      var (v, w) := LogAll(r.vars, xs[1..], c.host, c.defaultPeriod);
      RegroupWrites(r.writes, w, LogAll(v, ys, c.host, c.defaultPeriod).1);
    }
  }

  lemma ArrayLogsDataBanks(s: State, banks: seq<seq<octet>>, c: Config)
    requires AllSound(s.vars) && AllWellFormed(banks)
    ensures var r := HandleArray(s, banks, c);
            var (vars, writes) := LogAll(s.vars, Accepted(s, banks), c.host, c.defaultPeriod);
            r.vars == vars && r.history == s.history + writes
  {
    hide Outcomes, DataBanks, WellFormed;
    if ArraySize(banks) > s.settings.eventSize {
      assert s.history + [] == s.history;
    } else {
      forall i | 0 <= i < |banks| ensures |banks[i]| <= s.settings.eventSize {
        BankAtOffset(banks, i);
      }
      WalkLogsDataBanks(s, banks, |banks|, c);
    }
  }

  /** After any arrays the variables and the history are those of all data banks logged in turn. */
  lemma {:induction false} ArraysLogDataBanks(s: State, arrays: seq<seq<seq<octet>>>, c: Config)
    requires AllSound(s.vars) && ArraysWellFormed(arrays)
    ensures var r := HandleArrays(s, arrays, c);
            var (vars, writes) := LogAll(s.vars, DataOf(s, arrays, c), c.host, c.defaultPeriod);
            r.vars == vars && r.history == s.history + writes
    decreases |arrays|
  {
    hide HandleArray, Accepted, AllWellFormed, Log;
    if arrays == [] {
      assert s.history + [] == s.history;
    } else {
      var first := HandleArray(s, arrays[0], c);
      var more := DataOf(first, arrays[1..], c);
      ArrayLogsDataBanks(s, arrays[0], c);
      ArraysLogDataBanks(first, arrays[1..], c);
      LogAllConcat(s.vars, Accepted(s, arrays[0]), more, c);
      RegroupWrites(s.history, LogAll(s.vars, Accepted(s, arrays[0]), c.host, c.defaultPeriod).1,
                    LogAll(first.vars, more, c.host, c.defaultPeriod).1);
    }
  }

  /** Over all the arrays a worker ever handles, whatever they mix: one variable for each name, and the history
      of each name is optimal for the times that came and the period its first bank asked for. */
  lemma HistoryOfAllArraysIsOptimal(s: State, arrays: seq<seq<seq<octet>>>, c: Config, category: string, name: string)
    requires s.vars == [] && s.history == [] && ArraysWellFormed(arrays)
    requires var data := DataOf(s, arrays, c);
             && FirstOf(data, category, name) < |data|
             && FirstPeriod(data[FirstOf(data, category, name)], c.defaultPeriod) > 0
             && Ascending(TimesOf(data, category, name), 0)
    ensures var data := DataOf(s, arrays, c);
            var r := HandleArrays(s, arrays, c);
            && UniqueKeys(r.vars) && AllHaveKeys(r.vars, data)
            && Optimal(WriteTimes(r.history, category, name), TimesOf(data, category, name),
                       FirstPeriod(data[FirstOf(data, category, name)], c.defaultPeriod))
  {
    hide HandleArrays, DataOf, LogAll, TimesOf, FirstOf, WriteTimes, AllHaveKeys, Optimal, Ascending;
    var data := DataOf(s, arrays, c);
    ArraysLogDataBanks(s, arrays, c);
    OneVariablePerName([], data, c.host, c.defaultPeriod);
    HistoryIsOptimal(data, category, name, c.host, c.defaultPeriod);
    assert [] + LogAll([], data, c.host, c.defaultPeriod).1 == LogAll([], data, c.host, c.defaultPeriod).1;
  }

  /** From any state with one variable for each name, the names stay unique over all arrays that follow, and
      every variable keeps its place. */
  lemma ArraysKeepOneVariablePerName(s: State, arrays: seq<seq<seq<octet>>>, c: Config)
    requires AllSound(s.vars) && UniqueKeys(s.vars) && ArraysWellFormed(arrays)
    ensures var r := HandleArrays(s, arrays, c);
            UniqueKeys(r.vars) && KeysKept(s.vars, r.vars) && AllHaveKeys(r.vars, DataOf(s, arrays, c))
  {
    hide HandleArrays, DataOf, LogAll;
    ArraysLogDataBanks(s, arrays, c);
    OneVariablePerName(s.vars, DataOf(s, arrays, c), c.host, c.defaultPeriod);
  }

  /** And what a variable already there writes is the throttle over its own times, going on from its last write. */
  lemma ArraysContinueHistory(s: State, arrays: seq<seq<seq<octet>>>, c: Config, i: nat)
    requires AllSound(s.vars) && UniqueKeys(s.vars) && ArraysWellFormed(arrays) && i < |s.vars|
    ensures var v := s.vars[i];
            WriteTimes(HandleArrays(s, arrays, c).history, v.category, v.name) ==
            WriteTimes(s.history, v.category, v.name) +
              ExpectedTimes(v, TimesOf(DataOf(s, arrays, c), v.category, v.name))
  {
    hide HandleArrays, DataOf, LogAll, TimesOf, WriteTimes, ExpectedTimes;
    var v := s.vars[i];
    ArraysLogDataBanks(s, arrays, c);
    VariableWrites(s.vars, i, DataOf(s, arrays, c), c.host, c.defaultPeriod);
    WriteTimesConcat(s.history, LogAll(s.vars, DataOf(s, arrays, c), c.host, c.defaultPeriod).1, v.category, v.name);
  }

  lemma {:induction false} WriteTimesConcat(xs: seq<Write>, ys: seq<Write>, category: string, name: string)
    ensures WriteTimes(xs + ys, category, name) == WriteTimes(xs, category, name) + WriteTimes(ys, category, name)
  {
    if xs == [] {
      assert xs + ys == ys;
    } else {
      assert (xs + ys)[1..] == xs[1..] + ys;
      WriteTimesConcat(xs[1..], ys, category, name);
    }
  }
}
