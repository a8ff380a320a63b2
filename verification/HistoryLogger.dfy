/** src/HistoryLogger.cxx, include/HistoryLogger.h: the variables written to the history, one per name. */
module HistoryLogger {
  import opened CStrings
  import opened GemBank
  import opened BankNames
  import opened Throttle

  /** A bank that can be logged: at least one entry, each with room for its time stamp. */
  predicate Loggable(b: seq<octet>)
  {
    IsBank(b) && NumberOfEntries(b) > 0 && BlockSize(b) >= TIMESTAMP_SIZE && TitleClosed(b)
  }

  function HistoryPeriod(b: seq<octet>): nat
    requires |b| >= BANK_HEADER
  {
    U16(b, 74)
  }

  function TimestampEndianness(b: seq<octet>): nat
    requires |b| >= BANK_HEADER
  {
    U16(b, 76)
  }

  function DataEndianness(b: seq<octet>): nat
    requires |b| >= BANK_HEADER
  {
    U16(b, 78)
  }

  function LastEntry(b: seq<octet>): (e: seq<octet>)
    requires Loggable(b)
    ensures |e| == BlockSize(b)
  {
    Entry(b, NumberOfEntries(b) - 1)
  }

  function LastTime(b: seq<octet>): int
    requires Loggable(b)
  {
    UnixTimestamp(LastEntry(b), TimestampEndianness(b))
  }

  /** One write to the ODB: the variable, the time and the entry the values come from. */
  datatype Write = Write(category: string, name: string, time: int, entry: seq<octet>)

  /** The value of a history variable. `last` is None while the field has never been assigned. */
  datatype Variable = Variable(
    category: string,
    name: string,
    period: int,
    addHost: bool,
    host: bytestring,
    last: Option<int>)

  /** A period of zero switches the variable off; then, and only then, the last update is not set. */
  predicate Sound(v: Variable)
  {
    && (v.period != 0 ==> v.last.Some?)
    && |v.host| < EQUIPMENT_SIZE
    && (v.addHost ==> |v.category| >= 8 && v.category[..8] == THISHOST)
  }

  function Shortened(host: bytestring): (r: bytestring)
    ensures |r| < EQUIPMENT_SIZE && r <= host
  {
    if |host| < EQUIPMENT_SIZE then host else host[..EQUIPMENT_SIZE - 1]
  }

  function BeginsWithThisHost(category: string): bool
  {
    |category| >= 8 && category[..8] == THISHOST
  }

  function NewVariable(b: seq<octet>, host: bytestring, defaultPeriod: int): (v: Variable)
    requires |b| >= BANK_HEADER
    ensures Sound(v)
  {
    var period := if HistoryPeriod(b) != 65535 then HistoryPeriod(b) else defaultPeriod;
    Variable(Category(b), VariableName(b), period,
             period != 0 && BeginsWithThisHost(Category(b)),
             Shortened(host), if period == 0 then None else Some(0))
  }

  predicate IsFor(v: Variable, b: seq<octet>)
    requires |b| >= BANK_HEADER
  {
    v.category == Category(b) && v.name == VariableName(b)
  }

  // ---------- the header rewrite ----------

  /** `s` copied over `b` from `at` on, with its terminator. */
  function Copied(b: seq<octet>, at: nat, s: bytestring): (r: seq<octet>)
    requires at + |s| < |b|
    ensures |r| == |b|
    ensures r[..at] == b[..at] && r[at + |s| + 1..] == b[at + |s| + 1..]
    ensures r[at..at + |s|] == s && r[at + |s|] == NUL
  {
    b[..at] + s + [NUL] + b[at + |s| + 1..]
  }

  /** The bank with the host name in its equipment field. */
  function Renamed(b: seq<octet>, host: bytestring): (r: seq<octet>)
    requires |b| >= BANK_HEADER && |host| < EQUIPMENT_SIZE
    ensures SameButEquipment(r, b)
    ensures r[EQUIPMENT_AT..EQUIPMENT_AT + |host|] == host && r[EQUIPMENT_AT + |host|] == NUL
  {
    var r := Copied(b, EQUIPMENT_AT, host);
    assert forall i | EQUIPMENT_AT + |host| + 1 <= i < |b| ::
        r[i] == r[EQUIPMENT_AT + |host| + 1..][i - (EQUIPMENT_AT + |host| + 1)];
    assert forall i | 0 <= i < EQUIPMENT_AT :: r[i] == r[..EQUIPMENT_AT][i];
    r
  }

  /** Equal but for the 32 bytes of the equipment field. */
  predicate SameButEquipment(r: seq<octet>, b: seq<octet>)
  {
    |r| == |b| && forall i | 0 <= i < |b| && !(EQUIPMENT_AT <= i < EQUIPMENT_AT + EQUIPMENT_SIZE) :: r[i] == b[i]
  }

  lemma SameButEquipmentReads(r: seq<octet>, b: seq<octet>)
    requires SameButEquipment(r, b) && |b| >= BANK_HEADER
    ensures Category(r) == Category(b) && VariableName(r) == VariableName(b)
    ensures BlockSize(r) == BlockSize(b) && NumberOfEntries(r) == NumberOfEntries(b)
    ensures HistoryPeriod(r) == HistoryPeriod(b) && TimestampEndianness(r) == TimestampEndianness(b)
    ensures DataEndianness(r) == DataEndianness(b)
    ensures r[..CATEGORY_AT] == b[..CATEGORY_AT] && IsThisHost(r) == IsThisHost(b)
    ensures IsBank(r) <==> IsBank(b)
  {
    assert r[CATEGORY_AT..VARNAME_AT] == b[CATEGORY_AT..VARNAME_AT];
    assert r[VARNAME_AT..EQUIPMENT_AT] == b[VARNAME_AT..EQUIPMENT_AT];
  }

  lemma SameButEquipmentEntry(r: seq<octet>, b: seq<octet>, i: nat)
    requires IsBank(b) && SameButEquipment(r, b) && i < NumberOfEntries(b)
    ensures IsBank(r) && NumberOfEntries(r) == NumberOfEntries(b) && Entry(r, i) == Entry(b, i)
  {
    SameButEquipmentReads(r, b);
    EntryInBank(b, i);
    MulNonNegative(BlockSize(b), i);
    var s, e := EntryStart(b, i), EntryStart(b, i + 1);
    assert forall k | s <= k < e :: r[k] == b[k];
    assert r[s..e] == b[s..e];
  }

  lemma RenamedIsClosed(b: seq<octet>, host: bytestring)
    requires |b| >= BANK_HEADER && |host| < EQUIPMENT_SIZE && TitleClosed(b)
    ensures TitleClosed(Renamed(b, host))
  {
    var r := Renamed(b, host);
    assert r[CATEGORY_AT..VARNAME_AT] == b[CATEGORY_AT..VARNAME_AT];
    assert r[VARNAME_AT..EQUIPMENT_AT] == b[VARNAME_AT..EQUIPMENT_AT];
    assert r[EQUIPMENT_AT..EQUIPMENT_AT + EQUIPMENT_SIZE][|host|] == NUL;
  }

  // ---------- one update as a function ----------

  datatype Outcome = Outcome(variable: Variable, bank: seq<octet>, writes: seq<Write>)

  function Forwarded(v: Variable, b: seq<octet>): (r: seq<octet>)
    requires Sound(v) && |b| >= BANK_HEADER
    ensures SameButEquipment(r, b)
  {
    if v.addHost then Renamed(b, v.host) else b
  }

  /** The throttle. Without a period the last update is not looked at. */
  function Throttled(v: Variable, b: seq<octet>): (Variable, seq<Write>)
    requires Sound(v) && Loggable(b)
  {
    if v.period != 0 && Due(LastTime(b), v.last.value, v.period) then
      (v.(last := Some(LastTime(b))), [Write(v.category, v.name, LastTime(b), LastEntry(b))])
    else (v, [])
  }

  function UpdateVariable(v: Variable, b: seq<octet>): (o: Outcome)
    requires Sound(v) && Loggable(b)
    ensures Sound(o.variable) && o.variable.host == v.host
  {
    Outcome(Throttled(v, b).0, Forwarded(v, b), Throttled(v, b).1)
  }

  lemma ForwardedLoggable(v: Variable, b: seq<octet>)
    requires Sound(v) && Loggable(b)
    ensures Loggable(Forwarded(v, b))
  {
    SameButEquipmentReads(Forwarded(v, b), b);
    if v.addHost {
      RenamedIsClosed(b, v.host);
    }
  }

  /** The throttle sees the same time and entry in the renamed bank. */
  lemma ThrottledForwarded(v: Variable, b: seq<octet>)
    requires Sound(v) && Loggable(b)
    ensures Loggable(Forwarded(v, b)) && Throttled(v, Forwarded(v, b)) == Throttled(v, b)
  {
    ForwardedLoggable(v, b);
    SameLastEntry(Forwarded(v, b), b);
  }

  lemma SameLastEntry(r: seq<octet>, b: seq<octet>)
    requires SameButEquipment(r, b) && Loggable(b) && Loggable(r)
    ensures LastEntry(r) == LastEntry(b) && LastTime(r) == LastTime(b)
  {
    SameButEquipmentReads(r, b);
    SameButEquipmentEntry(r, b, NumberOfEntries(b) - 1);
  }

  function IndexFor(vars: seq<Variable>, b: seq<octet>): (i: nat)
    requires |b| >= BANK_HEADER
    ensures i <= |vars|
    ensures forall k | 0 <= k < i :: !IsFor(vars[k], b)
    ensures i < |vars| ==> IsFor(vars[i], b)
  {
    if vars == [] || IsFor(vars[0], b) then 0 else 1 + IndexFor(vars[1..], b)
  }

  lemma IndexForIs(vars: seq<Variable>, b: seq<octet>, i: nat)
    requires |b| >= BANK_HEADER && i <= |vars|
    requires forall k | 0 <= k < i :: !IsFor(vars[k], b)
    requires i < |vars| ==> IsFor(vars[i], b)
    ensures IndexFor(vars, b) == i
  {
  }

  /** The list with the variable for `b` in it. */
  function WithVariable(vars: seq<Variable>, b: seq<octet>, host: bytestring, defaultPeriod: int): (r: seq<Variable>)
    requires |b| >= BANK_HEADER
    ensures vars <= r && IndexFor(vars, b) < |r| && IsFor(r[IndexFor(vars, b)], b)
  {
    if IndexFor(vars, b) < |vars| then vars else vars + [NewVariable(b, host, defaultPeriod)]
  }

  ghost predicate AllSound(vars: seq<Variable>)
  {
    forall i | 0 <= i < |vars| :: Sound(vars[i])
  }

  datatype Logged = Logged(vars: seq<Variable>, bank: seq<octet>, writes: seq<Write>)

  function Log(vars: seq<Variable>, b: seq<octet>, host: bytestring, defaultPeriod: int): (r: Logged)
    requires AllSound(vars) && Loggable(b)
    ensures AllSound(r.vars) && SameButEquipment(r.bank, b)
  {
    var i := IndexFor(vars, b);
    var all := WithVariable(vars, b, host, defaultPeriod);
    assert Sound(all[i]);
    var o := UpdateVariable(all[i], b);
    Logged(all[i := o.variable], o.bank, o.writes)
  }

  lemma LogIs(vars: seq<Variable>, b: seq<octet>, host: bytestring, defaultPeriod: int)
    requires AllSound(vars) && Loggable(b)
    ensures var i := IndexFor(vars, b);
            var all := WithVariable(vars, b, host, defaultPeriod);
            var o := UpdateVariable(all[i], b);
            Log(vars, b, host, defaultPeriod) == Logged(all[i := o.variable], o.bank, o.writes)
  {
  }

  // ---------- the classes ----------

  /** The bytes of `b` stand in `buf` at `pos`. */
  ghost predicate Holds(buf: seq<octet>, pos: nat, b: seq<octet>)
  {
    pos + |b| <= |buf| && buf[pos..pos + |b|] == b
  }

  /** `now` is `before` with the bytes at `pos` replaced by `b`. */
  ghost predicate Replaced(before: seq<octet>, pos: nat, b: seq<octet>, now: seq<octet>)
  {
    && |now| == |before| && Holds(now, pos, b)
    && forall i | 0 <= i < |now| && !(pos <= i < pos + |b|) :: now[i] == before[i]
  }

  function ReadU16(buf: array<octet>, p: nat): (n: nat)
    requires p + 2 <= buf.Length
    reads buf
    ensures n == U16(buf[..], p)
  {
    buf[p] as int + 0x100 * buf[p + 1] as int
  }

  function ReadU32(buf: array<octet>, p: nat): (n: nat)
    requires p + 4 <= buf.Length
    reads buf
    ensures n == U32(buf[..], p)
  {
    ReadU16(buf, p) + 0x1_0000 * ReadU16(buf, p + 2)
  }

  /** The numbers of a bank, read in place. */
  lemma HeldNumbers(buf: seq<octet>, pos: nat, b: seq<octet>)
    requires Holds(buf, pos, b) && |b| >= BANK_HEADER
    ensures U16(buf, pos + 74) == HistoryPeriod(b) && U16(buf, pos + 76) == TimestampEndianness(b)
    ensures U32(buf, pos + 80) == BlockSize(b) && U32(buf, pos + 84) == NumberOfEntries(b)
    ensures b <= buf[pos..]
  {
    assert forall i | 0 <= i < |b| :: buf[pos + i] == b[i];
  }

  /** The names of a bank, read from its fields on. */
  method ReadCategory(buf: array<octet>, pos: nat, ghost b: seq<octet>) returns (name: string)
    requires Holds(buf[..], pos, b) && |b| >= BANK_HEADER && TitleClosed(b)
    ensures name == Category(b)
  {
    HeldNumbers(buf[..], pos, b);
    NamesFromMemory(buf[pos..], b);
    assert buf[pos..][CATEGORY_AT..] == buf[pos + CATEGORY_AT..];
    name := SanitiseBankString(buf[pos + CATEGORY_AT..], NAME_SIZE);
  }

  method ReadVariableName(buf: array<octet>, pos: nat, ghost b: seq<octet>) returns (name: string)
    requires Holds(buf[..], pos, b) && |b| >= BANK_HEADER && TitleClosed(b)
    ensures name == VariableName(b)
  {
    HeldNumbers(buf[..], pos, b);
    NamesFromMemory(buf[pos..], b);
    assert buf[pos..][VARNAME_AT..] == buf[pos + VARNAME_AT..];
    name := SanitiseBankString(buf[pos + VARNAME_AT..], NAME_SIZE);
  }

  /** strcpy, character by character and then the terminator. */
  method StrCpy(buf: array<octet>, at: nat, s: bytestring)
    requires at + |s| < buf.Length
    modifies buf
    ensures buf[..] == Copied(old(buf[..]), at, s)
  {
    for k := 0 to |s|
      invariant buf[..at] == old(buf[..at]) && buf[at..at + k] == s[..k] && buf[at + k..] == old(buf[at + k..])
    {
      ghost var before := buf[..];
      buf[at + k] := s[k];
      assert buf[at..at + k + 1] == buf[at..at + k] + [s[k]] && buf[at..at + k] == before[at..at + k];
      assert buf[at + k + 1..] == before[at + k..][1..];
    }
    ghost var before := buf[..];
    buf[at + |s|] := NUL;
    assert buf[at + |s| + 1..] == before[at + |s|..][1..];
    assert buf[at..at + |s|] == before[at..at + |s|];
    assert buf[..] == buf[..at] + buf[at..at + |s|] + [buf[at + |s|]] + buf[at + |s| + 1..];
  }

  class HistoryVariable {
    var fCategory: string
    var fVarName: string
    var fLastUpdate: Option<int>
    var UpdateFrequency: int
    var AddHostnameToDescription: bool
    var fHostName: bytestring

    ghost function Value(): Variable
      reads this
    {
      Variable(fCategory, fVarName, UpdateFrequency, AddHostnameToDescription, fHostName, fLastUpdate)
    }

    constructor (buf: array<octet>, pos: nat, ghost b: seq<octet>, hostname: bytestring, gHistoryPeriod: int)
      requires Holds(buf[..], pos, b) && |b| >= BANK_HEADER && TitleClosed(b)
      ensures Value() == NewVariable(b, hostname, gHistoryPeriod)
    {
      HeldNumbers(buf[..], pos, b);
      fHostName := Shortened(hostname);
      AddHostnameToDescription := false;
      fLastUpdate := None;
      var period: int := ReadU16(buf, pos + 74);
      if period == 65535 {
        period := gHistoryPeriod;
      }
      UpdateFrequency := period;
      new;
      fCategory := ReadCategory(buf, pos, b);
      fVarName := ReadVariableName(buf, pos, b);
      if UpdateFrequency == 0 {
        return;
      }
      fLastUpdate := Some(0);
      if BeginsWithThisHost(fCategory) {
        AddHostnameToDescription := true;
      }
    }

    method IsMatch(buf: array<octet>, pos: nat, ghost b: seq<octet>) returns (r: bool)
      requires Holds(buf[..], pos, b) && |b| >= BANK_HEADER && TitleClosed(b)
      ensures r == IsFor(Value(), b)
    {
      var category := ReadCategory(buf, pos, b);
      if fCategory != category {
        return false;
      }
      var name := ReadVariableName(buf, pos, b);
      return fVarName == name;
    }

    /** The header rewrite. The two assertions of the source are assertions here. */
    method Rename(buf: array<octet>, pos: nat, ghost b: seq<octet>)
      requires Holds(buf[..], pos, b) && |b| >= BANK_HEADER && TitleClosed(b)
      requires Sound(Value()) && IsFor(Value(), b)
      modifies buf
      ensures Replaced(old(buf[..]), pos, Forwarded(Value(), b), buf[..])
    {
      if AddHostnameToDescription {
        assert |fHostName| < 32;
        var category := ReadCategory(buf, pos, b);
        assert category[..8] == THISHOST;
        CopiedInside(buf[..], pos, b, fHostName);
        StrCpy(buf, pos + EQUIPMENT_AT, fHostName);
      } else {
        ReplacedSame(buf[..], pos, b);
      }
    }

    /** The throttle; `sent` is the bank as it stands in the buffer. */
    method WriteIfDue(buf: array<octet>, pos: nat, ghost sent: seq<octet>) returns (writes: seq<Write>)
      requires Holds(buf[..], pos, sent) && Loggable(sent) && Sound(Value())
      modifies this`fLastUpdate
      ensures var o := Throttled(old(Value()), sent); Value() == o.0 && writes == o.1
    {
      hide Due, LastTime, LastEntry, Holds;
      if UpdateFrequency == 0 {
        return [];
      }
      var data, BankTimeStamp := ReadLast(buf, pos, sent);
      if !Due(BankTimeStamp, fLastUpdate.value, UpdateFrequency) {
        return [];
      }
      writes := [Write(fCategory, fVarName, BankTimeStamp, data)];
      fLastUpdate := Some(BankTimeStamp);
    }

    /** Renames the bank in place and, when the period has passed, writes its last entry. */
    method Update(buf: array<octet>, pos: nat, ghost b: seq<octet>) returns (writes: seq<Write>)
      requires Holds(buf[..], pos, b) && Loggable(b) && Sound(Value()) && IsFor(Value(), b)
      modifies this`fLastUpdate, buf
      ensures var o := UpdateVariable(old(Value()), b);
              && Value() == o.variable && writes == o.writes
              && Replaced(old(buf[..]), pos, o.bank, buf[..])
    {
      ghost var sent := Forwarded(Value(), b);
      ForwardedLoggable(Value(), b);
      Rename(buf, pos, b);
      writes := WriteIfDue(buf, pos, sent);
      ThrottledForwarded(old(Value()), b);
    }
  }

  /** GetDataEntry(i), with its 32-bit product. */
  method ReadEntry(buf: array<octet>, pos: nat, ghost b: seq<octet>, i: nat) returns (data: seq<octet>)
    requires Holds(buf[..], pos, b) && IsBank(b) && i < NumberOfEntries(b)
    ensures data == Entry(b, i)
  {
    HeldNumbers(buf[..], pos, b);
    var size := ReadU32(buf, pos + 80);
    EntryInBank(b, i);
    MulNonNegative(size, i);
    var start := pos + BANK_HEADER + Wrap32(size * i);
    assert start == pos + EntryStart(b, i);
    data := buf[start..start + size];
    assert data == buf[pos..pos + |b|][EntryStart(b, i)..EntryStart(b, i + 1)];
  }

  method ReadLast(buf: array<octet>, pos: nat, ghost b: seq<octet>) returns (data: seq<octet>, time: int)
    requires Holds(buf[..], pos, b) && Loggable(b)
    ensures data == LastEntry(b) && time == LastTime(b)
  {
    HeldNumbers(buf[..], pos, b);
    data := ReadEntry(buf, pos, b, ReadU32(buf, pos + 84) - 1);
    time := UnixTimestamp(data, ReadU16(buf, pos + 76));
  }

  lemma ReplacedSame(buf: seq<octet>, pos: nat, b: seq<octet>)
    requires Holds(buf, pos, b)
    ensures Replaced(buf, pos, b, buf)
  {
  }

  /** Copying the host name into the buffer is replacing the bank by the renamed bank. */
  lemma CopiedInside(buf: seq<octet>, pos: nat, b: seq<octet>, host: bytestring)
    requires Holds(buf, pos, b) && |b| >= BANK_HEADER && |host| < EQUIPMENT_SIZE
    ensures Replaced(buf, pos, Renamed(b, host), Copied(buf, pos + EQUIPMENT_AT, host))
  {
    var now, r := Copied(buf, pos + EQUIPMENT_AT, host), Renamed(b, host);
    assert forall i | 0 <= i < |b| :: buf[pos + i] == b[i];
    forall i | 0 <= i < |b| ensures now[pos + i] == r[i] {
    }
    assert now[pos..pos + |b|] == r;
  }

  class HistoryLogger {
    var fVariables: seq<HistoryVariable>
    var fFullHostName: bytestring
    var history: seq<Write>          // the writes to the ODB, in order
    const gHistoryPeriod: int
    ghost var Vars: seq<Variable>    // the values of fVariables
    ghost var Repr: set<HistoryVariable>

    constructor (gHistoryPeriod: int)
      ensures Valid() && Vars == [] && Repr == {} && history == [] && fFullHostName == "NotExclusive"
      ensures this.gHistoryPeriod == gHistoryPeriod
    {
      this.gHistoryPeriod := gHistoryPeriod;
      fVariables, history, Vars, Repr := [], [], [], {};
      fFullHostName := "NotExclusive";
    }

    ghost predicate Valid()
      reads this, Repr
    {
      && |Vars| == |fVariables|
      && (forall i | 0 <= i < |fVariables| :: fVariables[i] in Repr && fVariables[i].Value() == Vars[i])
      && (forall i, j | 0 <= i < j < |fVariables| :: fVariables[i] != fVariables[j])
      && AllSound(Vars)
    }

    method SetClientHostname(hostname: bytestring)
      requires Valid()
      modifies this`fFullHostName
      ensures Valid() && fFullHostName == hostname
    {
      fFullHostName := hostname;
    }

    method AddNewVariable(buf: array<octet>, pos: nat, ghost b: seq<octet>) returns (variable: HistoryVariable)
      requires Valid() && Holds(buf[..], pos, b) && |b| >= BANK_HEADER && TitleClosed(b)
      modifies this`fVariables, this`Vars, this`Repr
      ensures Valid() && fresh(variable) && Repr == old(Repr) + {variable}
      ensures Vars == old(Vars) + [NewVariable(b, fFullHostName, gHistoryPeriod)]
    {
      variable := new HistoryVariable(buf, pos, b, fFullHostName, gHistoryPeriod);
      fVariables := fVariables + [variable];
      Vars := Vars + [variable.Value()];
      Repr := Repr + {variable};
    }

    method FindMatch(buf: array<octet>, pos: nat, ghost b: seq<octet>) returns (i: nat)
      requires Valid() && Holds(buf[..], pos, b) && |b| >= BANK_HEADER && TitleClosed(b)
      ensures i == IndexFor(Vars, b)
    {
      for k := 0 to |fVariables|
        invariant forall m | 0 <= m < k :: !IsFor(Vars[m], b)
      {
        var same := fVariables[k].IsMatch(buf, pos, b);
        if same {
          IndexForIs(Vars, b, k);
          return k;
        }
      }
      IndexForIs(Vars, b, |fVariables|);
      return |fVariables|;
    }

    /** The variable for this bank, created if there is none. */
    method Find(buf: array<octet>, pos: nat, ghost b: seq<octet>) returns (i: nat)
      requires Valid() && Holds(buf[..], pos, b) && |b| >= BANK_HEADER && TitleClosed(b)
      modifies this`fVariables, this`Vars, this`Repr
      ensures Valid() && forall v | v in Repr :: v in old(Repr) || fresh(v)
      ensures Vars == WithVariable(old(Vars), b, fFullHostName, gHistoryPeriod)
      ensures i == IndexFor(old(Vars), b) < |fVariables|
    {
      i := FindMatch(buf, pos, b);
      if i == |fVariables| {
        var variable := AddNewVariable(buf, pos, b);
      }
    }

    method Update(buf: array<octet>, pos: nat, ghost b: seq<octet>)
      requires Valid() && Holds(buf[..], pos, b) && Loggable(b)
      modifies this`fVariables, this`Vars, this`Repr, this`history, Repr, buf
      ensures Valid() && forall v | v in Repr :: v in old(Repr) || fresh(v)
      ensures var r := Log(old(Vars), b, fFullHostName, gHistoryPeriod);
              && Vars == r.vars && history == old(history) + r.writes
              && Replaced(old(buf[..]), pos, r.bank, buf[..])
    {
      hide Log, Throttled, Renamed, Forwarded;
      LogIs(Vars, b, fFullHostName, gHistoryPeriod);
      var i := Find(buf, pos, b);
      UpdateAt(i, buf, pos, b);
    }

    method UpdateAt(i: nat, buf: array<octet>, pos: nat, ghost b: seq<octet>)
      requires Valid() && Holds(buf[..], pos, b) && Loggable(b)
      requires i < |fVariables| && IsFor(Vars[i], b)
      modifies this`history, this`Vars, fVariables[i], buf
      ensures Valid()
      ensures var o := UpdateVariable(old(Vars)[i], b);
              && Vars == old(Vars)[i := o.variable] && history == old(history) + o.writes
              && Replaced(old(buf[..]), pos, o.bank, buf[..])
    {
      var writes := fVariables[i].Update(buf, pos, b);
      history := history + writes;
      Vars := Vars[i := fVariables[i].Value()];
    }
  }
}
