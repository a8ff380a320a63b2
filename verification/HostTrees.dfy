/** Which tree the data of a host goes to: src/HistoryLogger.cxx renames it, libGEM/include/GEM_BANK.h names the tree. */
module HostTrees {
  import opened CStrings
  import opened GemBank
  import opened BankNames
  import opened HistoryLogger
  import opened HistoryRuns

  /** A renamed bank goes to the tree of its host. */
  lemma HostTree(b: seq<octet>, host: bytestring)
    requires |b| >= BANK_HEADER && |host| < EQUIPMENT_SIZE && IsThisHost(b)
    ensures CombinedName(Renamed(b, host)) == Filter(host) + "\\" + VariableName(b)
  {
    hide Renamed, Filter;
    SameButEquipmentReads(Renamed(b, host), b);
    EquipmentOfRenamed(b, host);
  }

  lemma EquipmentOfRenamed(b: seq<octet>, host: bytestring)
    requires |b| >= BANK_HEADER && |host| < EQUIPMENT_SIZE
    ensures EquipmentName(Renamed(b, host)) == Filter(host)
  {
    hide Filter;
    var r := Renamed(b, host);
    var field := r[EQUIPMENT_AT..EQUIPMENT_AT + EQUIPMENT_SIZE];
    assert field[|host|] == r[EQUIPMENT_AT + |host|] && field[..|host|] == r[EQUIPMENT_AT..EQUIPMENT_AT + |host|];
    CStrUnique(field, host);
  }

  lemma HostsShareATreeIff(b: seq<octet>, host: bytestring, b': seq<octet>, host': bytestring)
    requires |b| >= BANK_HEADER && |host| < EQUIPMENT_SIZE && IsThisHost(b)
    requires |b'| >= BANK_HEADER && |host'| < EQUIPMENT_SIZE && IsThisHost(b')
    ensures CombinedName(Renamed(b, host)) == CombinedName(Renamed(b', host')) <==>
            Filter(host) == Filter(host') && VariableName(b) == VariableName(b')
  {
    HostTree(b, host);
    HostTree(b', host');
    if CombinedName(Renamed(b, host)) == CombinedName(Renamed(b', host')) {
      KeySplits(Filter(host), VariableName(b), Filter(host'), VariableName(b'));
    }
  }

  /** The front end looks for THISHOST in the sanitised category, the analyzer in the raw field. They agree
      on a bank the front end has renamed exactly when the first eight characters are all kept. */
  lemma ThisHostTestsAgreeIff(b: seq<octet>)
    requires |b| >= BANK_HEADER
    ensures IsThisHost(b) ==> BeginsWithThisHost(Category(b))
    ensures BeginsWithThisHost(Category(b)) ==>
              (IsThisHost(b) <==> forall i | CATEGORY_AT <= i < CATEGORY_AT + 8 :: Kept(b[i]))
  {
    hide Filter;
    var field := b[CATEGORY_AT..VARNAME_AT];
    assert forall i | 0 <= i < 8 :: field[..8][i] == b[CATEGORY_AT + i];
    if IsThisHost(b) {
      assert forall i | 0 <= i < 8 :: Kept(THISHOST[..8][i]);
    }
    if forall i | CATEGORY_AT <= i < CATEGORY_AT + 8 :: Kept(b[i]) {
      FrontIsKept(field, 8);
    }
  }

  lemma FrontIsKept(field: seq<octet>, n: nat)
    requires n <= |field| && AllKept(field[..n])
    ensures n <= |Filter(CStr(field))| && Filter(CStr(field))[..n] == field[..n]
  {
    var c := CStr(field);
    assert forall i | 0 <= i < n :: field[i] == field[..n][i] && Kept(field[i]);
    FilterSplit(c, n);
    assert c[..n] == field[..n];
    FilterKept(c[..n]);
  }

  /** They can disagree: a blank inside THISHOST is enough. */
  lemma ThisHostTestsCanDisagree(b: seq<octet>)
    requires |b| >= BANK_HEADER && b[CATEGORY_AT..CATEGORY_AT + 10] == "THIS HOST" + [NUL]
    ensures BeginsWithThisHost(Category(b)) && !IsThisHost(b)
  {
    hide Filter;
    var field := b[CATEGORY_AT..VARNAME_AT];
    assert field[..10] == "THIS HOST" + [NUL];
    assert field == "THIS HOST" + [NUL] + field[10..];
    CStrOfTerminated("THIS HOST", field[10..]);
    BlankIsDropped();
    assert field[..8][4] == ' ';
  }

  lemma BlankIsDropped()
    ensures Filter("THIS HOST") == THISHOST
  {
    hide Filter;
    FilterConcat("THIS ", "HOST");
    FilterAppend("THIS", ' ');
    FilterKept("THIS");
    FilterKept("HOST");
    assert "THIS " + "HOST" == "THIS HOST" && "THIS" + [' '] == "THIS " && "THIS" + "HOST" == THISHOST;
  }

  // ---------- when a bank is renamed ----------

  /** A variable renames its banks exactly when it has a period and its category begins with THISHOST. */
  predicate Consistent(v: Variable)
  {
    v.addHost <==> v.period != 0 && BeginsWithThisHost(v.category)
  }

  ghost predicate AllConsistent(vars: seq<Variable>)
  {
    forall i | 0 <= i < |vars| :: Consistent(vars[i])
  }

  /** Updates keep the place, the period, the host and the flag of every variable. */
  ghost predicate SamePlaces(vars: seq<Variable>, last: seq<Variable>)
  {
    |vars| <= |last| && forall i | 0 <= i < |vars| :: last[i].(last := vars[i].last) == vars[i]
  }

  lemma UpdateKeepsAllButLast(v: Variable, b: seq<octet>)
    requires Sound(v) && Loggable(b)
    ensures UpdateVariable(v, b).variable.(last := v.last) == v
  {
    hide LastTime, LastEntry, Throttle.Due;
  }

  lemma WithVariableConsistent(vars: seq<Variable>, b: seq<octet>, host: bytestring, defaultPeriod: int)
    requires AllSound(vars) && |b| >= BANK_HEADER
    ensures var all := WithVariable(vars, b, host, defaultPeriod);
            AllSound(all) && (AllConsistent(vars) ==> AllConsistent(all))
  {
    hide Category, VariableName, HistoryPeriod, Shortened;
  }

  lemma ReplacedInPlace(vars: seq<Variable>, all: seq<Variable>, i: nat, v: Variable)
    requires vars <= all && i < |all| && v.(last := all[i].last) == all[i]
    ensures SamePlaces(vars, all[i := v]) && (AllConsistent(all) ==> AllConsistent(all[i := v]))
  {
  }

  lemma LogKeepsPlaces(vars: seq<Variable>, b: seq<octet>, host: bytestring, defaultPeriod: int)
    requires AllSound(vars) && Loggable(b)
    ensures SamePlaces(vars, Log(vars, b, host, defaultPeriod).vars)
    ensures AllConsistent(vars) ==> AllConsistent(Log(vars, b, host, defaultPeriod).vars)
  {
    hide Log, WithVariable, UpdateVariable, IndexFor, SamePlaces, AllConsistent;
    LogIs(vars, b, host, defaultPeriod);
    WithVariableConsistent(vars, b, host, defaultPeriod);
    var all, i := WithVariable(vars, b, host, defaultPeriod), IndexFor(vars, b);
    UpdateKeepsAllButLast(all[i], b);
    ReplacedInPlace(vars, all, i, UpdateVariable(all[i], b).variable);
  }

  lemma {:induction false} LogAllKeepsPlaces(vars: seq<Variable>, banks: seq<seq<octet>>,
                                             host: bytestring, defaultPeriod: int)
    requires AllSound(vars) && AllLoggable(banks)
    ensures SamePlaces(vars, LogAll(vars, banks, host, defaultPeriod).0)
    ensures AllConsistent(vars) ==> AllConsistent(LogAll(vars, banks, host, defaultPeriod).0)
    decreases |banks|
  {
    hide Log, Loggable, Consistent;
    if banks != [] {
      LogKeepsPlaces(vars, banks[0], host, defaultPeriod);
      LogAllKeepsPlaces(Log(vars, banks[0], host, defaultPeriod).vars, banks[1..], host, defaultPeriod);
    }
  }

  /** Over every run the period of a variable is the one the first bank of its name asked for. */
  lemma {:induction false} PeriodIsTheFirst(vars: seq<Variable>, banks: seq<seq<octet>>, category: string, name: string,
                                            host: bytestring, defaultPeriod: int) returns (i: nat)
    requires AllSound(vars) && AllLoggable(banks) && UniqueKeys(vars) && NoKey(vars, category, name)
    requires FirstOf(banks, category, name) < |banks|
    ensures var last := LogAll(vars, banks, host, defaultPeriod).0;
            && i < |last| && last[i].category == category && last[i].name == name
            && last[i].host == Shortened(host)
            && last[i].period == FirstPeriod(banks[FirstOf(banks, category, name)], defaultPeriod)
    decreases |banks|
  {
    hide Log;
    var b := banks[0];
    var r := Log(vars, b, host, defaultPeriod);
    if FirstOf(banks, category, name) == 0 {
      i := |vars|;
      NewAtTheEnd(vars, b, host, defaultPeriod);
      LogAllKeepsPlaces(r.vars, banks[1..], host, defaultPeriod);
    } else {
      OtherBankSkipped(vars, banks, category, name, host, defaultPeriod);
      i := PeriodIsTheFirst(r.vars, banks[1..], category, name, host, defaultPeriod);
    }
  }

  lemma NewAtTheEnd(vars: seq<Variable>, b: seq<octet>, host: bytestring, defaultPeriod: int)
    requires AllSound(vars) && Loggable(b) && NoKey(vars, Category(b), VariableName(b))
    ensures var r := Log(vars, b, host, defaultPeriod).vars;
            && |r| == |vars| + 1 && r[|vars|].category == Category(b) && r[|vars|].name == VariableName(b)
            && r[|vars|].host == Shortened(host) && r[|vars|].period == FirstPeriod(b, defaultPeriod)
  {
    hide Log, Category, VariableName, Renamed, LastTime, LastEntry, Throttle.Due;
    IndexForIs(vars, b, |vars|);
    LogIs(vars, b, host, defaultPeriod);
  }

  /** The variable a bank meets, created if there is none. */
  function VariableFor(vars: seq<Variable>, b: seq<octet>, host: bytestring, defaultPeriod: int): Variable
    requires |b| >= BANK_HEADER
  {
    WithVariable(vars, b, host, defaultPeriod)[IndexFor(vars, b)]
  }

  /** The data of a THISHOST bank goes to the tree of its host exactly when the variable has a period, or when
      the client has filled in that name itself. Without a period the bank is sent as it came. */
  lemma GoesToHostTreeIff(vars: seq<Variable>, b: seq<octet>, host: bytestring, defaultPeriod: int)
    requires AllSound(vars) && AllConsistent(vars) && Loggable(b) && IsThisHost(b)
    ensures var v := VariableFor(vars, b, host, defaultPeriod);
            && |v.host| < EQUIPMENT_SIZE
            && (CombinedName(Log(vars, b, host, defaultPeriod).bank) == Filter(v.host) + "\\" + VariableName(b) <==>
                  v.period != 0 || EquipmentName(b) == Filter(v.host))
            && (v.period == 0 ==> Log(vars, b, host, defaultPeriod).bank == b)
  {
    hide Log, Category, VariableName, Renamed, LastTime, LastEntry, Throttle.Due, Filter, EquipmentName;
    LogIs(vars, b, host, defaultPeriod);
    ThisHostTestsAgreeIff(b);
    var v := WithVariable(vars, b, host, defaultPeriod)[IndexFor(vars, b)];
    assert Sound(v) && Consistent(v);
    if v.period != 0 {
      HostTree(b, v.host);
    } else {
      NameIsHostsIff(b, Filter(v.host));
    }
  }

  lemma NameIsHostsIff(b: seq<octet>, first: string)
    requires |b| >= BANK_HEADER && IsThisHost(b) && AllKept(first)
    ensures CombinedName(b) == first + "\\" + VariableName(b) <==> EquipmentName(b) == first
  {
    if CombinedName(b) == first + "\\" + VariableName(b) {
      KeySplits(EquipmentName(b), VariableName(b), first, VariableName(b));
    }
  }

  /** The period the first bank of that name asks for, among those before `b` and `b` itself. */
  function PeriodAsked(banks: seq<seq<octet>>, b: seq<octet>, defaultPeriod: int): int
    requires AllLoggable(banks) && Loggable(b)
  {
    var i := FirstOf(banks, Category(b), VariableName(b));
    if i < |banks| then FirstPeriod(banks[i], defaultPeriod) else FirstPeriod(b, defaultPeriod)
  }

  lemma {:induction false} NameStaysUnseen(vars: seq<Variable>, banks: seq<seq<octet>>, category: string, name: string,
                                           host: bytestring, defaultPeriod: int)
    requires AllSound(vars) && AllLoggable(banks) && UniqueKeys(vars) && NoKey(vars, category, name)
    requires FirstOf(banks, category, name) == |banks|
    ensures NoKey(LogAll(vars, banks, host, defaultPeriod).0, category, name)
    decreases |banks|
  {
    hide Log, NoKey, UniqueKeys, Loggable;
    if banks != [] {
      OtherBankSkipped(vars, banks, category, name, host, defaultPeriod);
      NameStaysUnseen(Log(vars, banks[0], host, defaultPeriod).vars, banks[1..], category, name, host, defaultPeriod);
    }
  }

  lemma VariableMet(banks: seq<seq<octet>>, b: seq<octet>, host: bytestring, defaultPeriod: int)
    requires AllLoggable(banks) && Loggable(b)
    ensures |b| >= BANK_HEADER
    ensures var v := VariableFor(LogAll([], banks, host, defaultPeriod).0, b, host, defaultPeriod);
            v.host == Shortened(host) && v.period == PeriodAsked(banks, b, defaultPeriod)
  {
    hide Log, Category, VariableName, LogAll, HistoryPeriod;
    var vars := LogAll([], banks, host, defaultPeriod).0;
    if FirstOf(banks, Category(b), VariableName(b)) < |banks| {
      var i := PeriodIsTheFirst([], banks, Category(b), VariableName(b), host, defaultPeriod);
      OneVariablePerName([], banks, host, defaultPeriod);
      OnlyMatch(vars, b, i);
    } else {
      NameStaysUnseen([], banks, Category(b), VariableName(b), host, defaultPeriod);
      IndexForIs(vars, b, |vars|);
    }
  }

  lemma OnlyMatch(vars: seq<Variable>, b: seq<octet>, i: nat)
    requires UniqueKeys(vars) && |b| >= BANK_HEADER && i < |vars| && IsFor(vars[i], b)
    ensures IndexFor(vars, b) == i
  {
    hide Category, VariableName;
    var j := IndexFor(vars, b);
    assert j <= i && (j < i ==> SameKey(vars[j], vars[i]));
  }

  /** Over every run: a THISHOST bank goes to the tree of its host exactly when the first bank of its name
      asked for a period, or when the client has filled in that name itself. */
  lemma HostTreeOverRunIff(banks: seq<seq<octet>>, b: seq<octet>, host: bytestring, defaultPeriod: int)
    requires AllLoggable(banks) && Loggable(b) && |b| >= BANK_HEADER && IsThisHost(b)
    ensures var sent := Log(LogAll([], banks, host, defaultPeriod).0, b, host, defaultPeriod).bank;
            CombinedName(sent) == Filter(Shortened(host)) + "\\" + VariableName(b) <==>
            PeriodAsked(banks, b, defaultPeriod) != 0 || EquipmentName(b) == Filter(Shortened(host))
  {
    hide Log, Category, VariableName, LogAll, IsThisHost, CombinedName, Filter, EquipmentName, Shortened;
    hide PeriodAsked, VariableFor;
    VariableMet(banks, b, host, defaultPeriod);
    LogAllKeepsPlaces([], banks, host, defaultPeriod);
    GoesToHostTreeIff(LogAll([], banks, host, defaultPeriod).0, b, host, defaultPeriod);
  }
}
