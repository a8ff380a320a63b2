/** src/feGEMClass.cxx: the walk of a worker over the banks of an array. */
module FrontEnd {
  import opened CStrings
  import opened GemBank
  import opened BankNames
  import opened HistoryLogger

  // ---------- dispatch ----------

  /** Where LogBank, HandleStrBank and the size check send a bank. */
  datatype Route = ToHistory | Commands | Talk | ClientInfo | Elog
                 | SaveSettings | LoadSettings | ListSettings | ToStrArray | ToFile | Rejected

  function StringRoute(b: seq<octet>): Route
    requires |b| >= BANK_HEADER
  {
    var category, name := b[CATEGORY_AT..VARNAME_AT], b[VARNAME_AT..EQUIPMENT_AT];
    if SameUpTo(name, "COMMAND", 7) then Commands
    else if SameUpTo(name, "TALK", 4) then Talk
    else if SameUpTo(category, "CLIENT_INFO", 14) then ClientInfo
    else if SameUpTo(category, "ELOG", 4) then Elog
    else if SameUpTo(category, "SETTINGS_FILE", 13) then
      if SameUpTo(name, "SAVE", 4) then SaveSettings
      else if SameUpTo(name, "LOAD", 4) then LoadSettings
      else if SameUpTo(name, "LIST", 4) then ListSettings
      else ToHistory
    else ToHistory
  }

  function RouteOf(b: seq<octet>): Route
    requires |b| >= BANK_HEADER
  {
    match KindOf(b)
    case StrArray => ToStrArray
    case Str => StringRoute(b)
    case FileKind => ToFile
    case _ => ToHistory
  }

  // ---------- commands ----------

  predicate Space(c: char)
  {
    c == ' ' || ('\t' <= c <= '\r')
  }

  /** atoi: spaces, a sign, digits. */
  function Atoi(s: string): int
  {
    if s == "" then 0
    else if Space(s[0]) then Atoi(s[1..])
    else if s[0] == '-' then -Digits(s[1..], 0)
    else if s[0] == '+' then Digits(s[1..], 0)
    else Digits(s, 0)
  }

  function Digits(s: string, value: int): int
    decreases |s|
  {
    if s == "" || !('0' <= s[0] <= '9') then value
    else Digits(s[1..], 10 * value + (s[0] as int - '0' as int))
  }

  const MINIMUM_EVENT_SIZE: int := 10000

  datatype Settings = Settings(eventSize: int, debugMode: int)

  predicate CommandIs(b: seq<octet>, word: string, n: nat)
    requires |b| >= BANK_HEADER && n <= EQUIPMENT_SIZE && |word| <= EQUIPMENT_SIZE
  {
    SameUpTo(b[EQUIPMENT_AT..EQUIPMENT_AT + EQUIPMENT_SIZE], word, n)
  }

  /** Commands whose handlers assert that they run in the supervisor. */
  predicate SupervisorCommand(b: seq<octet>)
    requires |b| >= BANK_HEADER
  {
    CommandIs(b, "START_FRONTEND", 14) || CommandIs(b, "GIVE_ME_ADDRESS", 15) || CommandIs(b, "GIVE_ME_PORT", 12)
  }

  function EntryText(e: seq<octet>): string
    requires |e| >= TIMESTAMP_SIZE
  {
    CStr(e[TIMESTAMP_SIZE..])
  }

  /** One entry of a command bank: what it does to the settings the walk depends on. */
  function Command(s: Settings, b: seq<octet>, e: seq<octet>): Settings
    requires |b| >= BANK_HEADER && |e| >= TIMESTAMP_SIZE
  {
    if CommandIs(b, "ENABLE_DEBUG_MODE", 17) then s.(debugMode := 1)
    else if CommandIs(b, "DISABLE_DEBUG_MODE", 18) then s.(debugMode := 0)
    else if CommandIs(b, "SET_EVENT_SIZE", 14) then s.(eventSize := NewEventSize(s.eventSize, Atoi(EntryText(e))))
    else s
  }

  /** The size never shrinks and never stays below the minimum. */
  function NewEventSize(size: int, requested: int): (r: int)
    ensures r >= size && r >= requested && r >= MINIMUM_EVENT_SIZE
    ensures r == size || r == requested || r == MINIMUM_EVENT_SIZE
  {
    var larger := if requested > size then requested else size;
    if larger < MINIMUM_EVENT_SIZE then MINIMUM_EVENT_SIZE else larger
  }

  function CommandsFrom(s: Settings, b: seq<octet>, i: nat): (r: Settings)
    requires IsBank(b) && BlockSize(b) >= TIMESTAMP_SIZE && i <= NumberOfEntries(b)
    ensures r.eventSize >= s.eventSize
    decreases NumberOfEntries(b) - i
  {
    if i == NumberOfEntries(b) then s else CommandsFrom(Command(s, b, Entry(b, i)), b, i + 1)
  }

  // ---------- the walk as a function ----------

  /** A bank a worker can handle without stopping: of a known type, loggable, and with every command text
      terminated and meant for a worker. */
  predicate WellFormed(b: seq<octet>)
  {
    && Loggable(b) && KindOf(b) != Unknown
    && (RouteOf(b) == Commands ==>
          !SupervisorCommand(b) && forall i | 0 <= i < NumberOfEntries(b) :: NUL in Entry(b, i)[TIMESTAMP_SIZE..])
  }

  ghost predicate AllWellFormed(banks: seq<seq<octet>>)
  {
    forall i | 0 <= i < |banks| :: WellFormed(banks[i])
  }

  /** What the walk changes besides the buffer. */
  datatype State = State(settings: Settings, vars: seq<Variable>, history: seq<Write>)

  datatype Config = Config(host: bytestring, defaultPeriod: int)

  datatype One = One(state: State, bank: seq<octet>, count: int, route: Route)

  predicate Fits(s: State, b: seq<octet>)
    requires |b| >= BANK_HEADER
  {
    BlockSize(b) + BANK_HEADER <= s.settings.eventSize
  }

  function Handle(s: State, b: seq<octet>, c: Config): (r: One)
    requires AllSound(s.vars) && WellFormed(b)
    ensures AllSound(r.state.vars) && SameButEquipment(r.bank, b)
    ensures r.state.settings.eventSize >= s.settings.eventSize
  {
    if Fits(s, b) then Dispatch(s, b, c) else One(s, b, -1, Rejected)
  }

  function Dispatch(s: State, b: seq<octet>, c: Config): (r: One)
    requires AllSound(s.vars) && WellFormed(b)
    ensures AllSound(r.state.vars) && SameButEquipment(r.bank, b)
    ensures r.state.settings.eventSize >= s.settings.eventSize
  {
    match RouteOf(b)
    case ToHistory =>
      var l := Log(s.vars, b, c.host, c.defaultPeriod);
      One(State(s.settings, l.vars, s.history + l.writes), l.bank, NumberOfEntries(b), ToHistory)
    case Commands =>
      One(s.(settings := CommandsFrom(s.settings, b, 0)), b, NumberOfEntries(b), Commands)
    case route => One(s, b, NumberOfEntries(b), route)
  }

  lemma HandleIs(s: State, b: seq<octet>, c: Config)
    requires AllSound(s.vars) && WellFormed(b)
    ensures Handle(s, b, c) == if Fits(s, b) then Dispatch(s, b, c) else One(s, b, -1, Rejected)
    ensures Dispatch(s, b, c).count == NumberOfEntries(b)
  {
  }

  lemma DispatchIs(s: State, b: seq<octet>, c: Config)
    requires AllSound(s.vars) && WellFormed(b)
    ensures Dispatch(s, b, c).route == RouteOf(b)
    ensures RouteOf(b) == ToHistory ==>
              var l := Log(s.vars, b, c.host, c.defaultPeriod);
              Dispatch(s, b, c).state == State(s.settings, l.vars, s.history + l.writes) && Dispatch(s, b, c).bank == l.bank
    ensures RouteOf(b) != ToHistory ==> Dispatch(s, b, c).bank == b
    ensures RouteOf(b) == Commands ==>
              Dispatch(s, b, c).state == State(CommandsFrom(s.settings, b, 0), s.vars, s.history)
    ensures RouteOf(b) != ToHistory && RouteOf(b) != Commands ==> Dispatch(s, b, c).state == s
  {
  }

  lemma BlockFits(b: seq<octet>)
    requires Loggable(b)
    ensures BlockSize(b) + BANK_HEADER <= |b|
  {
    EntryInBank(b, 0);
  }

  /** The outcomes of the first `n` banks, each starting from the state the one before left. */
  function Outcomes(s: State, banks: seq<seq<octet>>, n: nat, c: Config): (r: seq<One>)
    requires AllSound(s.vars) && AllWellFormed(banks) && n <= |banks|
    ensures |r| == n && AllSound(StateAfter(s, r).vars)
  {
    if n == 0 then []
    else
      var before := Outcomes(s, banks, n - 1, c);
      before + [Handle(StateAfter(s, before), banks[n - 1], c)]
  }

  function StateAfter(s: State, ones: seq<One>): State
  {
    if ones == [] then s else ones[|ones| - 1].state
  }

  /** The banks as they are sent on. */
  function Sent(ones: seq<One>): (r: seq<seq<octet>>)
    ensures |r| == |ones| && forall i | 0 <= i < |r| :: r[i] == ones[i].bank
  {
    seq(|ones|, i requires 0 <= i < |ones| => ones[i].bank)
  }

  function Count(ones: seq<One>): int
  {
    if ones == [] then 0 else Count(ones[..|ones| - 1]) + ones[|ones| - 1].count
  }

  /** Where a bank went, and at which offset of the array it was found. */
  datatype Call = Call(offset: nat, route: Route)

  function Calls(ones: seq<One>, banks: seq<seq<octet>>): (r: seq<Call>)
    requires |ones| <= |banks|
    ensures |r| == |ones|
    ensures forall i | 0 <= i < |r| :: r[i].offset == Offset(banks, ARRAY_HEADER, i) && r[i].route == ones[i].route
  {
    if ones == [] then []
    else
      var n := |ones| - 1;
      Calls(ones[..n], banks) + [Call(Offset(banks, ARRAY_HEADER, n), ones[n].route)]
  }

  lemma Appended(ones: seq<One>, one: One, banks: seq<seq<octet>>)
    requires |ones| < |banks|
    ensures StateAfter(one.state, ones + [one]) == one.state
    ensures Sent(ones + [one]) == Sent(ones) + [one.bank]
    ensures Count(ones + [one]) == Count(ones) + one.count
    ensures Calls(ones + [one], banks) == Calls(ones, banks) + [Call(Offset(banks, ARRAY_HEADER, |ones|), one.route)]
  {
    assert (ones + [one])[..|ones|] == ones;
  }

  // ---------- the class ----------

  class FeGem {
    var fEventSize: int
    var fDebugMode: int
    const logger: HistoryLogger

    /** A worker starts with no variables and no history, and names its banks after its client. */
    constructor (hostname: bytestring, gHistoryPeriod: int, eventSize: nat)
      ensures Valid() && fresh(logger) && logger.Repr == {}
      ensures Value() == State(Settings(eventSize, 0), [], [])
      ensures Configuration() == Config(hostname, gHistoryPeriod)
    {
      var history := new HistoryLogger(gHistoryPeriod);
      history.SetClientHostname(hostname);
      logger := history;
      fEventSize, fDebugMode := eventSize, 0;
    }

    ghost predicate Valid()
      reads this, logger, logger.Repr
    {
      logger.Valid() && fEventSize >= 0
    }

    ghost function Value(): State
      reads this, logger
    {
      State(Settings(fEventSize, fDebugMode), logger.Vars, logger.history)
    }

    ghost function Configuration(): Config
      reads logger
    {
      Config(logger.fFullHostName, logger.gHistoryPeriod)
    }

    /** One entry of a command bank; commands without effect on the walk are left to the parts they address. */
    method HandleCommandBank(buf: array<octet>, pos: nat, ghost b: seq<octet>, i: nat)
      requires Holds(buf[..], pos, b) && Loggable(b) && i < NumberOfEntries(b)
      requires NUL in Entry(b, i)[TIMESTAMP_SIZE..]
      modifies this`fEventSize, this`fDebugMode
      ensures Settings(fEventSize, fDebugMode) == Command(old(Settings(fEventSize, fDebugMode)), b, Entry(b, i))
    {
      var command := ReadCommand(buf, pos, b);
      if SameUpTo(command, "ENABLE_DEBUG_MODE", 17) {
        fDebugMode := 1;
      } else if SameUpTo(command, "DISABLE_DEBUG_MODE", 18) {
        fDebugMode := 0;
      } else if SameUpTo(command, "SET_EVENT_SIZE", 14) {
        var text := ReadEntryText(buf, pos, b, i);
        var new_size := Atoi(text);
        if new_size > fEventSize {
          fEventSize := new_size;
        }
        if fEventSize < MINIMUM_EVENT_SIZE {
          fEventSize := MINIMUM_EVENT_SIZE;
        }
      }
    }

    method HandleCommands(buf: array<octet>, pos: nat, ghost b: seq<octet>)
      requires Holds(buf[..], pos, b) && Loggable(b)
      requires forall i | 0 <= i < NumberOfEntries(b) :: NUL in Entry(b, i)[TIMESTAMP_SIZE..]
      modifies this`fEventSize, this`fDebugMode
      ensures Settings(fEventSize, fDebugMode) == CommandsFrom(old(Settings(fEventSize, fDebugMode)), b, 0)
    {
      HeldNumbers(buf[..], pos, b);
      var n := ReadU32(buf, pos + 84);
      ghost var bytes := buf[..];
      for i := 0 to n
        invariant buf[..] == bytes
        invariant CommandsFrom(Settings(fEventSize, fDebugMode), b, i) ==
                  CommandsFrom(old(Settings(fEventSize, fDebugMode)), b, 0)
      {
        HandleCommandBank(buf, pos, b, i);
      }
    }

    method LogToHistory(buf: array<octet>, pos: nat, ghost b: seq<octet>)
      requires Valid() && Holds(buf[..], pos, b) && WellFormed(b) && RouteOf(b) == ToHistory
      modifies logger, logger.Repr, buf
      ensures Valid() && Configuration() == old(Configuration())
      ensures forall v | v in logger.Repr :: v in old(logger.Repr) || fresh(v)
      ensures var r := Dispatch(old(Value()), b, Configuration());
              Value() == r.state && Replaced(old(buf[..]), pos, r.bank, buf[..])
    {
      DispatchIs(Value(), b, Configuration());
      logger.Update(buf, pos, b);
    }

    method LogBank(buf: array<octet>, pos: nat, ghost b: seq<octet>) returns (route: Route)
      requires Valid() && Holds(buf[..], pos, b) && WellFormed(b)
      modifies this`fEventSize, this`fDebugMode, logger, logger.Repr, buf
      ensures Valid() && Configuration() == old(Configuration())
      ensures forall v | v in logger.Repr :: v in old(logger.Repr) || fresh(v)
      ensures var r := Dispatch(old(Value()), b, Configuration());
              Value() == r.state && route == r.route && Replaced(old(buf[..]), pos, r.bank, buf[..])
    {
      route := ReadRoute(buf, pos, b);
      if route == ToHistory {
        LogToHistory(buf, pos, b);
      } else {
        LogElsewhere(buf, pos, b, route);
      }
      DispatchIs(old(Value()), b, Configuration());
    }

    method LogElsewhere(buf: array<octet>, pos: nat, ghost b: seq<octet>, route: Route)
      requires Valid() && Holds(buf[..], pos, b) && WellFormed(b) && RouteOf(b) == route != ToHistory
      modifies this`fEventSize, this`fDebugMode
      ensures Valid()
      ensures var r := Dispatch(old(Value()), b, Configuration());
              Value() == r.state && Replaced(buf[..], pos, r.bank, buf[..])
    {
      DispatchIs(Value(), b, Configuration());
      ReplacedSame(buf[..], pos, b);
      if route == Commands {
        HandleCommands(buf, pos, b);
      }
    }

    /** `route` is where the bank went, for the record of the walk. */
    method HandleBank(buf: array<octet>, pos: nat, ghost b: seq<octet>) returns (count: int, route: Route)
      requires Valid() && Holds(buf[..], pos, b) && WellFormed(b)
      modifies this`fEventSize, this`fDebugMode, logger, logger.Repr, buf
      ensures Valid() && Configuration() == old(Configuration())
      ensures forall v | v in logger.Repr :: v in old(logger.Repr) || fresh(v)
      ensures var r := Handle(old(Value()), b, Configuration());
              && Value() == r.state && count == r.count && route == r.route
              && Replaced(old(buf[..]), pos, r.bank, buf[..])
    {
      HeldNumbers(buf[..], pos, b);
      BlockFits(b);
      HandleIs(Value(), b, Configuration());
      var size := Wrap32(ReadU32(buf, pos + 80) + BANK_HEADER);
      if size > fEventSize {
        ReplacedSame(buf[..], pos, b);
        return -1, Rejected;
      }
      count := ReadU32(buf, pos + 84);
      route := LogBank(buf, pos, b);
    }

    /** The walk. Each step moves on by the size the header of the bank just handled gives. */
    method HandleBankArray(buf: array<octet>, ptr: nat, ghost a: seq<octet>, ghost banks: seq<seq<octet>>)
      returns (NGEMBanks: int, calls: seq<Call>)
      requires Valid() && Holds(buf[..], ptr, a) && IsArray(a, banks) && AllWellFormed(banks)
      modifies this`fEventSize, this`fDebugMode, logger, logger.Repr, buf
      ensures Valid() && Configuration() == old(Configuration())
      ensures forall v | v in logger.Repr :: v in old(logger.Repr) || fresh(v)
      ensures |a| > old(fEventSize) ==>
                NGEMBanks == -1 && calls == [] && Value() == old(Value()) && buf[..] == old(buf[..])
      ensures |a| <= old(fEventSize) ==>
                var r := Outcomes(old(Value()), banks, |banks|, Configuration());
                && Value() == StateAfter(old(Value()), r) && NGEMBanks == Count(r) && calls == Calls(r, banks)
                && Replaced(old(buf[..]), ptr + ARRAY_HEADER, Concat(Sent(r)), buf[..])
    {
      HeldArray(buf[..], ptr, a, banks);
      var size := Wrap32(ARRAY_HEADER + ReadU32(buf, ptr + 8));
      if size > fEventSize {
        return -1, [];
      }
      NGEMBanks, calls := HandleBanks(buf, ptr, ReadU32(buf, ptr + 12), banks);
    }

    /** The loop of the walk. */
    method HandleBanks(buf: array<octet>, ptr: nat, n: nat, ghost banks: seq<seq<octet>>)
      returns (NGEMBanks: int, calls: seq<Call>)
      requires Valid() && AllWellFormed(banks) && n == |banks|
      requires WalkAt(buf[..], ptr, ptr + ARRAY_HEADER, [], banks, buf[..])
      modifies this`fEventSize, this`fDebugMode, logger, logger.Repr, buf
      ensures Valid() && Configuration() == old(Configuration())
      ensures forall v | v in logger.Repr :: v in old(logger.Repr) || fresh(v)
      ensures var r := Outcomes(old(Value()), banks, |banks|, Configuration());
              && Value() == StateAfter(old(Value()), r) && NGEMBanks == Count(r) && calls == Calls(r, banks)
              && Replaced(old(buf[..]), ptr + ARRAY_HEADER, Concat(Sent(r)), buf[..])
    {
      hide Handle, WalkAt, IsBank, AllSound, Replaced, WellFormed, Count, Calls, Sent, Concat;
      NGEMBanks, calls := 0, [];
      var pos: nat := ptr + ARRAY_HEADER;
      ghost var w, c := Walk(buf[..], ptr, Value(), banks), Configuration();
      ghost var ones := [];
      WalkingStarts(w);
      for i := 0 to n
        invariant Valid() && Configuration() == c
        invariant forall v | v in logger.Repr :: v in old(logger.Repr) || fresh(v)
        invariant ones == Outcomes(w.state, banks, i, c)
        invariant Walking(w, ones, pos, NGEMBanks, calls, buf[..], Value())
      {
        ghost var one, repr := Handle(Value(), banks[i], c), logger.Repr;
        NGEMBanks, calls, pos := HandleNext(buf, ptr, pos, NGEMBanks, calls, w, ones, one);
        ones := ones + [one];
        forall v | v in logger.Repr ensures v in old(logger.Repr) || fresh(v) {
          assert v in repr || fresh({v});
        }
      }
      WalkingEnds(w, ones, pos, NGEMBanks, calls, buf[..], Value());
    }

    /** One turn of the loop. */
    method HandleNext(buf: array<octet>, ptr: nat, pos: nat, NGEMBanks: int, calls: seq<Call>,
                      ghost w: Walk, ghost ones: seq<One>, ghost one: One)
      returns (NGEMBanks': int, calls': seq<Call>, next: nat)
      requires ptr == w.ptr && Valid() && Walking(w, ones, pos, NGEMBanks, calls, buf[..], Value())
      requires |ones| < |w.banks| && WellFormed(w.banks[|ones|])
      requires one == Handle(Value(), w.banks[|ones|], Configuration())
      modifies this`fEventSize, this`fDebugMode, logger, logger.Repr, buf
      ensures Valid() && Configuration() == old(Configuration())
      ensures forall v | v in logger.Repr :: v in old(logger.Repr) || fresh(v)
      ensures Walking(w, ones + [one], next, NGEMBanks', calls', buf[..], Value())
    {
      hide Handle, Fits, Dispatch, KindOf, StringRoute;
      ghost var bytes, b := buf[..], w.banks[|ones|];
      WalkHolds(w.before, w.ptr, pos, Sent(ones), w.banks[|ones|..], bytes);
      var count, route := HandleBank(buf, pos, b);
      WalkingNext(w, ones, one, pos, NGEMBanks, calls, bytes, buf[..]);
      NGEMBanks' := NGEMBanks + count;
      calls' := calls + [Call(pos - ptr, route)];
      next := BehindBank(buf, pos, one.bank, b);
    }
  }

  // ---------- the loop invariant of the walk ----------

  /** In `now`, the payload that starts at ptr + ARRAY_HEADER in `before` has become `done` followed by
      the banks still to come; the walk stands at the first of these. */
  ghost predicate WalkAt(before: seq<octet>, ptr: nat, pos: nat, done: seq<seq<octet>>,
                         rest: seq<seq<octet>>, now: seq<octet>)
  {
    var start := ptr + ARRAY_HEADER;
    && start + |Concat(done)| + |Concat(rest)| <= |before|
    && pos == start + |Concat(done)|
    && Replaced(before, start, Concat(done) + Concat(rest), now)
  }

  /** What a walk starts from. */
  datatype Walk = Walk(before: seq<octet>, ptr: nat, state: State, banks: seq<seq<octet>>)

  /** Where the walk is when the first banks have had these outcomes. */
  ghost predicate Walking(w: Walk, ones: seq<One>, pos: nat, count: int, calls: seq<Call>, now: seq<octet>, s: State)
  {
    && |ones| <= |w.banks|
    && s == StateAfter(w.state, ones) && count == Count(ones) && calls == Calls(ones, w.banks)
    && pos == w.ptr + Offset(w.banks, ARRAY_HEADER, |ones|)
    && WalkAt(w.before, w.ptr, pos, Sent(ones), w.banks[|ones|..], now)
  }

  lemma WalkingStarts(w: Walk)
    requires WalkAt(w.before, w.ptr, w.ptr + ARRAY_HEADER, [], w.banks, w.before)
    ensures Walking(w, [], w.ptr + ARRAY_HEADER, 0, [], w.before, w.state)
  {
    assert w.banks[0..] == w.banks && Sent([]) == [];
  }

  lemma WalkingNext(w: Walk, ones: seq<One>, one: One, pos: nat, count: int, calls: seq<Call>,
                    now: seq<octet>, next: seq<octet>)
    requires |ones| < |w.banks| && |one.bank| == |w.banks[|ones|]|
    requires count == Count(ones) && calls == Calls(ones, w.banks)
    requires pos == w.ptr + Offset(w.banks, ARRAY_HEADER, |ones|)
    requires WalkAt(w.before, w.ptr, pos, Sent(ones), w.banks[|ones|..], now) && Replaced(now, pos, one.bank, next)
    ensures Walking(w, ones + [one], pos + |w.banks[|ones|]|, count + one.count,
                    calls + [Call(pos - w.ptr, one.route)], next, one.state)
  {
    WalkStep(w.before, w.ptr, pos, Sent(ones), w.banks[|ones|..], now, one.bank, next);
    WalkingStep(w, ones, one, pos, count, calls, next);
  }

  lemma WalkingStep(w: Walk, ones: seq<One>, one: One, pos: nat, count: int, calls: seq<Call>, now: seq<octet>)
    requires |ones| < |w.banks|
    requires count == Count(ones) && calls == Calls(ones, w.banks)
    requires pos == w.ptr + Offset(w.banks, ARRAY_HEADER, |ones|)
    requires WalkAt(w.before, w.ptr, pos + |w.banks[|ones|]|, Sent(ones) + [one.bank], w.banks[|ones|..][1..], now)
    ensures Walking(w, ones + [one], pos + |w.banks[|ones|]|, count + one.count,
                    calls + [Call(pos - w.ptr, one.route)], now, one.state)
  {
    Appended(ones, one, w.banks);
    assert w.banks[|ones|..][1..] == w.banks[|ones| + 1..];
  }

  lemma WalkingEnds(w: Walk, ones: seq<One>, pos: nat, count: int, calls: seq<Call>, now: seq<octet>, s: State)
    requires Walking(w, ones, pos, count, calls, now, s) && |ones| == |w.banks|
    ensures Replaced(w.before, w.ptr + ARRAY_HEADER, Concat(Sent(ones)), now)
    ensures s == StateAfter(w.state, ones) && count == Count(ones) && calls == Calls(ones, w.banks)
  {
    WalkEnds(w.before, w.ptr, pos, Sent(ones), w.banks[|ones|..], now);
  }

  lemma HeldArray(buf: seq<octet>, ptr: nat, a: seq<octet>, banks: seq<seq<octet>>)
    requires Holds(buf, ptr, a) && IsArray(a, banks)
    ensures ARRAY_HEADER + U32(buf, ptr + 8) == |a| && U32(buf, ptr + 12) == |banks|
    ensures WalkAt(buf, ptr, ptr + ARRAY_HEADER, [], banks, buf)
  {
    assert forall i | 0 <= i < |a| :: buf[ptr + i] == a[i];
    assert buf[ptr + ARRAY_HEADER..ptr + |a|] == a[ARRAY_HEADER..];
    assert Concat([]) + Concat(banks) == Concat(banks);
    ReplacedSame(buf, ptr + ARRAY_HEADER, Concat([]) + Concat(banks));
  }

  lemma WalkHolds(before: seq<octet>, ptr: nat, pos: nat, done: seq<seq<octet>>, rest: seq<seq<octet>>, now: seq<octet>)
    requires WalkAt(before, ptr, pos, done, rest, now) && rest != []
    ensures Holds(now, pos, rest[0])
  {
    var x, payload := Concat(done), Concat(done) + (rest[0] + Concat(rest[1..]));
    assert now[ptr + ARRAY_HEADER..ptr + ARRAY_HEADER + |payload|] == payload;
    forall i | 0 <= i < |rest[0]| ensures now[pos + i] == rest[0][i] {
      assert payload[|x| + i] == rest[0][i];
    }
    assert now[pos..pos + |rest[0]|] == rest[0];
  }

  lemma WalkStep(before: seq<octet>, ptr: nat, pos: nat, done: seq<seq<octet>>, rest: seq<seq<octet>>, now: seq<octet>,
                 b: seq<octet>, next: seq<octet>)
    requires WalkAt(before, ptr, pos, done, rest, now) && rest != [] && |b| == |rest[0]|
    requires Replaced(now, pos, b, next)
    ensures WalkAt(before, ptr, pos + |b|, done + [b], rest[1..], next)
  {
    ConcatAppend(done, b);
    ReplaceInside(before, ptr + ARRAY_HEADER, Concat(done), rest[0], b, Concat(rest[1..]), now, next);
  }

  lemma ReplaceInside(before: seq<octet>, start: nat, x: seq<octet>, y: seq<octet>, y': seq<octet>, z: seq<octet>,
                      now: seq<octet>, next: seq<octet>)
    requires |y| == |y'| && Replaced(before, start, x + (y + z), now) && Replaced(now, start + |x|, y', next)
    ensures Replaced(before, start, (x + y') + z, next)
  {
    var was, becomes := x + (y + z), (x + y') + z;
    assert forall i | 0 <= i < |was| :: now[start + i] == now[start..start + |was|][i] == was[i];
    assert forall i | 0 <= i < |y'| :: next[start + |x| + i] == next[start + |x|..start + |x| + |y'|][i] == y'[i];
    forall i | 0 <= i < |becomes| ensures next[start + i] == becomes[i] {
      if i < |x| || i >= |x| + |y| {
        assert next[start + i] == now[start + i] == was[i];
      }
    }
    assert next[start..start + |becomes|] == becomes;
  }

  lemma {:induction false} ConcatAppend(banks: seq<seq<octet>>, b: seq<octet>)
    ensures Concat(banks + [b]) == Concat(banks) + b
  {
    if banks == [] {
      assert banks + [b] == [b] && [b][1..] == [];
    } else {
      assert (banks + [b])[1..] == banks[1..] + [b];
      ConcatAppend(banks[1..], b);
    }
  }

  lemma WalkEnds(before: seq<octet>, ptr: nat, pos: nat, done: seq<seq<octet>>, rest: seq<seq<octet>>, now: seq<octet>)
    requires WalkAt(before, ptr, pos, done, rest, now) && |rest| == 0
    ensures Replaced(before, ptr + ARRAY_HEADER, Concat(done), now)
  {
    assert Concat(done) + Concat(rest) == Concat(done);
  }

  /** The increment of the walk, from the header in the buffer. */
  method BehindBank(buf: array<octet>, pos: nat, ghost sent: seq<octet>, ghost b: seq<octet>) returns (next: nat)
    requires Holds(buf[..], pos, sent) && IsBank(b) && SameButEquipment(sent, b)
    ensures next == pos + |b|
  {
    HeldNumbers(buf[..], pos, sent);
    SameButEquipmentReads(sent, b);
    SizeArithmeticExact(b);
    next := pos + Wrap32(BANK_HEADER + Wrap32(ReadU32(buf, pos + 80) * ReadU32(buf, pos + 84)));
  }

  method ReadCommand(buf: array<octet>, pos: nat, ghost b: seq<octet>) returns (command: seq<octet>)
    requires Holds(buf[..], pos, b) && |b| >= BANK_HEADER
    ensures command == b[EQUIPMENT_AT..EQUIPMENT_AT + EQUIPMENT_SIZE]
  {
    command := buf[pos + EQUIPMENT_AT..pos + EQUIPMENT_AT + EQUIPMENT_SIZE];
    assert forall k | 0 <= k < |b| :: buf[pos + k] == b[k];
  }

  /** The dispatch reads three fields of the title in place. */
  method ReadRoute(buf: array<octet>, pos: nat, ghost b: seq<octet>) returns (route: Route)
    requires Holds(buf[..], pos, b) && |b| >= BANK_HEADER
    ensures route == RouteOf(b)
  {
    var header := buf[pos..pos + BANK_HEADER];
    assert header == b[..BANK_HEADER] by {
      assert forall k | 0 <= k < |b| :: buf[pos + k] == b[k];
    }
    RouteFromHeader(b);
    route := RouteOf(header);
  }

  lemma RouteFromHeader(b: seq<octet>)
    requires |b| >= BANK_HEADER
    ensures RouteOf(b[..BANK_HEADER]) == RouteOf(b)
  {
    var h := b[..BANK_HEADER];
    assert h[4..CATEGORY_AT] == b[4..CATEGORY_AT];
    assert h[CATEGORY_AT..VARNAME_AT] == b[CATEGORY_AT..VARNAME_AT];
    assert h[VARNAME_AT..EQUIPMENT_AT] == b[VARNAME_AT..EQUIPMENT_AT];
  }

  /** The C string behind the time stamp of an entry; it ends inside the entry. */
  method ReadEntryText(buf: array<octet>, pos: nat, ghost b: seq<octet>, i: nat) returns (text: string)
    requires Holds(buf[..], pos, b) && Loggable(b) && i < NumberOfEntries(b)
    requires NUL in Entry(b, i)[TIMESTAMP_SIZE..]
    ensures text == EntryText(Entry(b, i))
  {
    HeldNumbers(buf[..], pos, b);
    TextAt(buf[..], pos, b, i);
    var start := pos + BANK_HEADER + Wrap32(ReadU32(buf, pos + 80) * i) + TIMESTAMP_SIZE;
    text := CStr(buf[start..]);
  }

  lemma TextAt(buf: seq<octet>, pos: nat, b: seq<octet>, i: nat)
    requires Holds(buf, pos, b) && Loggable(b) && i < NumberOfEntries(b)
    requires NUL in Entry(b, i)[TIMESTAMP_SIZE..]
    ensures var start := pos + BANK_HEADER + Wrap32(BlockSize(b) * i) + TIMESTAMP_SIZE;
            start <= |buf| && CStr(buf[start..]) == EntryText(Entry(b, i))
  {
    EntryOffsetExact(b, i);
    EntryInBuffer(buf, pos, b, i);
    var data := Entry(b, i)[TIMESTAMP_SIZE..];
    TextEndsInside(data, buf[pos + EntryStart(b, i) + TIMESTAMP_SIZE + |data|..]);
  }

  lemma EntryOffsetExact(b: seq<octet>, i: nat)
    requires IsBank(b) && i < NumberOfEntries(b)
    ensures BANK_HEADER + Wrap32(BlockSize(b) * i) == EntryStart(b, i)
  {
    EntryInBank(b, i);
    MulNonNegative(BlockSize(b), i);
  }

  lemma EntryInBuffer(buf: seq<octet>, pos: nat, b: seq<octet>, i: nat)
    requires Holds(buf, pos, b) && Loggable(b) && i < NumberOfEntries(b)
    ensures var start := pos + EntryStart(b, i) + TIMESTAMP_SIZE;
            var data := Entry(b, i)[TIMESTAMP_SIZE..];
            start + |data| <= |buf| && buf[start..] == data + buf[start + |data|..]
  {
    EntryInBank(b, i);
    var start := pos + EntryStart(b, i) + TIMESTAMP_SIZE;
    var data := Entry(b, i)[TIMESTAMP_SIZE..];
    assert forall k | 0 <= k < |b| :: buf[pos + k] == b[k];
    assert forall k | 0 <= k < |data| :: data[k] == b[EntryStart(b, i) + TIMESTAMP_SIZE + k] == buf[start + k];
    assert buf[start..start + |data|] == data;
  }
}
