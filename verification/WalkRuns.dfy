/** What the walk of the front end does to an array as a whole. */
module WalkRuns {
  import opened CStrings
  import opened GemBank
  import opened BankNames
  import opened HistoryLogger
  import opened FrontEnd

  // ---------- nothing is rejected, everything is counted ----------

  function TotalEntries(banks: seq<seq<octet>>, n: nat): nat
    requires AllBanks(banks) && n <= |banks|
  {
    if n == 0 then 0 else TotalEntries(banks, n - 1) + NumberOfEntries(banks[n - 1])
  }

  lemma HandleFits(s: State, b: seq<octet>, c: Config)
    requires AllSound(s.vars) && WellFormed(b) && |b| <= s.settings.eventSize
    ensures Handle(s, b, c).count == NumberOfEntries(b) && Handle(s, b, c).route == RouteOf(b)
  {
    BlockFits(b);
    HandleIs(s, b, c);
    DispatchIs(s, b, c);
  }

  /** A bank changes only if its category begins with THISHOST, and then only in its equipment field. */
  lemma HandleChanges(s: State, b: seq<octet>, c: Config)
    requires AllSound(s.vars) && WellFormed(b)
    ensures Handle(s, b, c).bank != b ==> BeginsWithThisHost(Category(b))
    ensures Loggable(Handle(s, b, c).bank)
  {
    HandleIs(s, b, c);
    DispatchIs(s, b, c);
    if RouteOf(b) == ToHistory {
      LogChanges(s.vars, b, c.host, c.defaultPeriod);
    }
  }

  lemma LogChanges(vars: seq<Variable>, b: seq<octet>, host: bytestring, defaultPeriod: int)
    requires AllSound(vars) && Loggable(b)
    ensures Log(vars, b, host, defaultPeriod).bank != b ==> BeginsWithThisHost(Category(b))
    ensures Loggable(Log(vars, b, host, defaultPeriod).bank)
  {
    LogIs(vars, b, host, defaultPeriod);
    var v := WithVariable(vars, b, host, defaultPeriod)[IndexFor(vars, b)];
    assert Sound(v);
    ForwardedLoggable(v, b);
  }

  /** What the walk does to one bank. */
  ghost predicate Faithful(one: One, b: seq<octet>)
  {
    && SameButEquipment(one.bank, b) && Loggable(one.bank)
    && (|b| >= BANK_HEADER && one.bank != b ==> BeginsWithThisHost(Category(b)))
  }

  lemma LastOutcome(s: State, banks: seq<seq<octet>>, n: nat, c: Config) returns (before: seq<One>, one: One)
    requires AllSound(s.vars) && AllWellFormed(banks) && 0 < n <= |banks|
    ensures before == Outcomes(s, banks, n - 1, c) && Outcomes(s, banks, n, c) == before + [one]
    ensures Faithful(one, banks[n - 1]) && IsBank(banks[n - 1])
    ensures one.state.settings.eventSize >= StateAfter(s, before).settings.eventSize
    ensures |banks[n - 1]| <= StateAfter(s, before).settings.eventSize ==>
              one.count == NumberOfEntries(banks[n - 1]) && one.route == RouteOf(banks[n - 1])
  {
    before := Outcomes(s, banks, n - 1, c);
    var state, b := StateAfter(s, before), banks[n - 1];
    one := Handle(state, b, c);
    HandleChanges(state, b, c);
    if |b| <= state.settings.eventSize {
      HandleFits(state, b, c);
    }
  }

  lemma {:induction false} EventSizeNeverShrinks(s: State, banks: seq<seq<octet>>, n: nat, c: Config)
    requires AllSound(s.vars) && AllWellFormed(banks) && n <= |banks|
    ensures StateAfter(s, Outcomes(s, banks, n, c)).settings.eventSize >= s.settings.eventSize
  {
    hide Outcomes;
    if n > 0 {
      var before, one := LastOutcome(s, banks, n, c);
      EventSizeNeverShrinks(s, banks, n - 1, c);
    }
  }

  ghost predicate NoneRejected(ones: seq<One>, banks: seq<seq<octet>>)
  {
    |ones| <= |banks| && forall i | 0 <= i < |ones| :: |banks[i]| >= BANK_HEADER && ones[i].route == RouteOf(banks[i])
  }

  /** When the array fits the event size, no bank is rejected and the count is the number of all entries,
      even when a bank on the way changes the event size. */
  lemma CountIsConserved(s: State, a: seq<octet>, banks: seq<seq<octet>>, c: Config)
    requires AllSound(s.vars) && IsArray(a, banks) && AllWellFormed(banks) && |a| <= s.settings.eventSize
    ensures var ones := Outcomes(s, banks, |banks|, c);
            Count(ones) == TotalEntries(banks, |banks|) && NoneRejected(ones, banks)
  {
    forall i | 0 <= i < |banks| ensures |banks[i]| <= s.settings.eventSize {
      BankFitsArray(a, banks, i);
    }
    FittingBanksCounted(s, banks, |banks|, c);
  }

  lemma {:induction false} FittingBanksCounted(s: State, banks: seq<seq<octet>>, n: nat, c: Config)
    requires AllSound(s.vars) && AllWellFormed(banks) && AllBanks(banks) && n <= |banks|
    requires forall i | 0 <= i < |banks| :: |banks[i]| <= s.settings.eventSize
    ensures var ones := Outcomes(s, banks, n, c);
            Count(ones) == TotalEntries(banks, n) && NoneRejected(ones, banks)
  {
    hide Outcomes, RouteOf, WellFormed;
    if n > 0 {
      var before, one := LastOutcome(s, banks, n, c);
      FittingBanksCounted(s, banks, n - 1, c);
      EventSizeNeverShrinks(s, banks, n - 1, c);
      CountLast(before, one);
      NoneRejectedLast(before, one, banks);
    }
  }

  lemma NoneRejectedLast(before: seq<One>, one: One, banks: seq<seq<octet>>)
    requires NoneRejected(before, banks) && |before| < |banks| && |banks[|before|]| >= BANK_HEADER
    requires one.route == RouteOf(banks[|before|])
    ensures NoneRejected(before + [one], banks)
  {
    hide RouteOf;
  }

  lemma BankFitsArray(a: seq<octet>, banks: seq<seq<octet>>, i: nat)
    requires IsArray(a, banks) && i < |banks|
    ensures |banks[i]| <= |a|
  {
    BankAtOffset(banks, i);
  }

  lemma CountLast(ones: seq<One>, one: One)
    ensures Count(ones + [one]) == Count(ones) + one.count
  {
    assert (ones + [one])[..|ones|] == ones;
  }

  // ---------- what is sent on ----------

  ghost predicate AllFaithful(ones: seq<One>, banks: seq<seq<octet>>)
  {
    |ones| <= |banks| && forall i | 0 <= i < |ones| :: Faithful(ones[i], banks[i])
  }

  lemma {:induction false} SentBanks(s: State, banks: seq<seq<octet>>, n: nat, c: Config)
    requires AllSound(s.vars) && AllWellFormed(banks) && n <= |banks|
    ensures AllFaithful(Outcomes(s, banks, n, c), banks)
  {
    hide Outcomes;
    if n > 0 {
      var before, one := LastOutcome(s, banks, n, c);
      SentBanks(s, banks, n - 1, c);
    }
  }

  ghost predicate SameSizes(xs: seq<seq<octet>>, ys: seq<seq<octet>>)
  {
    |xs| == |ys| && forall i | 0 <= i < |xs| :: |xs[i]| == |ys[i]|
  }

  lemma {:induction false} SameOffsets(xs: seq<seq<octet>>, ys: seq<seq<octet>>, start: nat, i: nat)
    requires SameSizes(xs, ys) && i <= |xs|
    ensures Offset(xs, start, i) == Offset(ys, start, i)
  {
    if i > 0 {
      SameOffsets(xs, ys, start, i - 1);
    }
  }

  lemma SameTotal(xs: seq<seq<octet>>, ys: seq<seq<octet>>)
    requires SameSizes(xs, ys)
    ensures |Concat(xs)| == |Concat(ys)|
  {
    OffsetEnd(xs, 0);
    OffsetEnd(ys, 0);
    SameOffsets(xs, ys, 0, |xs|);
  }

  /** The array with its payload replaced. */
  function SentArray(a: seq<octet>, banks: seq<seq<octet>>): seq<octet>
    requires |a| >= ARRAY_HEADER
  {
    a[..ARRAY_HEADER] + Concat(banks)
  }

  lemma SentIsArray(a: seq<octet>, banks: seq<seq<octet>>, sent: seq<seq<octet>>)
    requires IsArray(a, banks) && SameSizes(sent, banks) && AllBanks(sent)
    ensures IsArray(SentArray(a, sent), sent) && |SentArray(a, sent)| == |a|
  {
    SameTotal(sent, banks);
    var r := SentArray(a, sent);
    assert r[..ARRAY_HEADER] == a[..ARRAY_HEADER] && r[ARRAY_HEADER..] == Concat(sent);
    assert forall i | 0 <= i < ARRAY_HEADER :: r[i] == r[..ARRAY_HEADER][i] == a[i];
    assert r[..4] == a[..4];
  }

  /** A byte of the payload that differs after the walk lies in the equipment field of a bank whose
      category begins with THISHOST. */
  lemma ChangedBytes(ones: seq<One>, banks: seq<seq<octet>>, pos: nat) returns (i: nat)
    requires AllFaithful(ones, banks) && |ones| == |banks| && AllBanks(banks)
    requires pos < |Concat(banks)| == |Concat(Sent(ones))| && Concat(Sent(ones))[pos] != Concat(banks)[pos]
    ensures i < |banks| && BeginsWithThisHost(Category(banks[i]))
    ensures Offset(banks, 0, i) + EQUIPMENT_AT <= pos < Offset(banks, 0, i) + EQUIPMENT_AT + EQUIPMENT_SIZE
  {
    var sent := Sent(ones);
    OffsetEnd(banks, 0);
    i := LocateBank(banks, pos, |banks|);
    ByteOfBank(banks, i, pos);
    assert SameSizes(sent, banks) by {
      forall k | 0 <= k < |banks| ensures |sent[k]| == |banks[k]| {
        assert Faithful(ones[k], banks[k]);
      }
    }
    SameOffsets(sent, banks, 0, i);
    SameOffsets(sent, banks, 0, i + 1);
    ByteOfBank(sent, i, pos);
    assert Faithful(ones[i], banks[i]);
  }

  lemma ByteOfBank(banks: seq<seq<octet>>, i: nat, pos: nat)
    requires i < |banks| && Offset(banks, 0, i) <= pos < Offset(banks, 0, i + 1)
    ensures pos < |Concat(banks)| && pos - Offset(banks, 0, i) < |banks[i]|
    ensures Concat(banks)[pos] == banks[i][pos - Offset(banks, 0, i)]
  {
    BankAtOffset(banks, i);
    var o := Offset(banks, 0, i);
    assert Concat(banks)[pos] == Concat(banks)[o..Offset(banks, 0, i + 1)][pos - o];
  }
}
