/** The lists shared by several server threads. The lock is taken once per list, so an `IsAllowed` call
    is three separate steps and other threads run between them. */
module ConcurrentAdmission {
  import opened CStrings
  import opened HostPattern
  import opened HostAdmission
  import opened AdmissionRuns

  /** How far a thread is with its `IsAllowed` call. */
  datatype Phase = Idle | NotAllowed(h: cstring) | NotBanned(h: cstring)

  datatype System = System(lists: Lists, threads: seq<Phase>)

  datatype Step =
    | CheckAllowed(t: nat, h: cstring)
    | CheckBanned(t: nat)
    | CheckQuestionable(t: nat, now: real)
    | PushAllowed(h: cstring, now: real)     // the push of AddHost
    | PushBanned(h: cstring, now: real)      // the push of BanHost
    | RaiseCount(h: cstring)                 // PrintRejection

  predicate Enabled(s: System, step: Step)
  {
    match step
    case CheckAllowed(t, _) => t < |s.threads| && s.threads[t].Idle?
    case CheckBanned(t) => t < |s.threads| && s.threads[t].NotAllowed?
    case CheckQuestionable(t, _) => t < |s.threads| && s.threads[t].NotBanned?
    case _ => true
  }

  function Next(s: System, step: Step): System
    requires Enabled(s, step)
  {
    var l := s.lists;
    match step
    case CheckAllowed(t, h) =>
      System(l, s.threads[t := if Listed(l.allowed, h) then Idle else NotAllowed(h)])
    case CheckBanned(t) =>
      var h := s.threads[t].h;
      System(l, s.threads[t := if Listed(l.banned, h) || !l.selfRegistration then Idle else NotBanned(h)])
    case CheckQuestionable(t, now) =>
      System(Question(l, s.threads[t].h, now).0, s.threads[t := Idle])
    case PushAllowed(h, now) =>
      System(l.(allowed := l.allowed + [Host(h, 0, now)],
                odbAllowed := WriteIndex(l.odbAllowed, |l.allowed|, h)), s.threads)
    case PushBanned(h, now) =>
      System(l.(banned := l.banned + [Host(h, 0, now)],
                odbBanned := WriteIndex(l.odbBanned, |l.banned|, h)), s.threads)
    case RaiseCount(h) =>
      System(CountRejection(l, h).0, s.threads)
  }

  /** The step ends a call by `h` with the answer that it may come in. */
  predicate LetsIn(s: System, step: Step, h: cstring)
    requires Enabled(s, step)
  {
    match step
    case CheckAllowed(_, g) => g == h && Listed(s.lists.allowed, h)
    case CheckQuestionable(t, now) => s.threads[t].h == h && Question(s.lists, h, now).1
    case _ => false
  }

  predicate Feasible(s: System, steps: seq<Step>)
    decreases |steps|
  {
    steps == [] || (Enabled(s, steps[0]) && Feasible(Next(s, steps[0]), steps[1..]))
  }

  function Final(s: System, steps: seq<Step>): System
    requires Feasible(s, steps)
    decreases |steps|
  {
    if steps == [] then s else Final(Next(s, steps[0]), steps[1..])
  }

  function Admissions(s: System, steps: seq<Step>, h: cstring): nat
    requires Feasible(s, steps)
    decreases |steps|
  {
    if steps == [] then 0
    else (if LetsIn(s, steps[0], h) then 1 else 0) + Admissions(Next(s, steps[0]), steps[1..], h)
  }

  /** Calls by `h` that are past the banned-list check and can still answer yes. */
  function InFlight(threads: seq<Phase>, h: cstring): (n: nat)
    ensures n <= |threads|
  {
    if threads == [] then 0
    else (if threads[0] == NotBanned(h) then 1 else 0) + InFlight(threads[1..], h)
  }

  lemma {:induction false} InFlightUpdate(threads: seq<Phase>, t: nat, p: Phase, h: cstring)
    requires t < |threads|
    ensures InFlight(threads[t := p], h) + (if threads[t] == NotBanned(h) then 1 else 0)
         == InFlight(threads, h) + (if p == NotBanned(h) then 1 else 0)
  {
    if t == 0 {
      assert threads[t := p][1..] == threads[1..];
    } else {
      assert threads[t := p][1..] == threads[1..][t - 1 := p];
      InFlightUpdate(threads[1..], t - 1, p, h);
    }
  }

  /** How often `h` can still be let in: once its name is banned, only by the calls already past the
      banned-list check; before that, one call fewer than there are threads can be in that position
      when the ban comes. */
  function Allowance(s: System, h: cstring): int
  {
    if Listed(s.lists.banned, h) then InFlight(s.threads, h)
    else Remaining(s.lists, h) + |s.threads| - 1
  }

  lemma QuestionKeepsBans(l: Lists, g: cstring, now: real, h: cstring)
    requires Listed(l.banned, h)
    ensures Listed(Question(l, g, now).0.banned, h)
  {
    ListedGrows(l.banned, Question(l, g, now).0.banned, h);
  }

  /** `QuestionEffect` without the look-ups that other threads may have overtaken. */
  lemma QuestionSpends(l: Lists, g: cstring, now: real, h: cstring)
    requires Matches(h, h) && !Listed(l.banned, h)
    ensures Remaining(Question(l, g, now).0, h) + (if g == h && Question(l, g, now).1 then 1 else 0)
         <= Remaining(l, h)
  {
    hide Matches, FirstMatch;
    var q := l.questionable;
    var i := FirstMatch(q, g);
    if i == |q| {
      FirstEntryAppend(q, Host(g, 0, now), h);
    } else {
      var e := q[i];
      if e.RejectionCount > RETRY_LIMIT {
        FirstEntryAppend(l.banned, e, h);
        if !Matches(e.HostName, h) {
          FirstEntryWithout(q, e.HostName, h);
        }
      } else if now - e.LastContact > COOL_DOWN_TIME {
        FirstMatchUpdate(q, i, Host(e.HostName, e.RejectionCount + 1, now), h);
      }
    }
  }

  lemma LookUpSpends(s: System, step: Step, h: cstring)
    requires Enabled(s, step) && (step.CheckAllowed? || step.CheckBanned?) && !Listed(s.lists.allowed, h)
    ensures Allowance(Next(s, step), h) + (if LetsIn(s, step, h) then 1 else 0) <= Allowance(s, h)
  {
    var s' := Next(s, step);
    InFlightUpdate(s.threads, step.t, s'.threads[step.t], h);
  }

  lemma QuestionStepSpends(s: System, t: nat, now: real, h: cstring)
    requires Enabled(s, CheckQuestionable(t, now)) && Matches(h, h)
    ensures Allowance(Next(s, CheckQuestionable(t, now)), h)
          + (if LetsIn(s, CheckQuestionable(t, now), h) then 1 else 0) <= Allowance(s, h)
  {
    InFlightUpdate(s.threads, t, Idle, h);
    if Listed(s.lists.banned, h) {
      QuestionKeepsBans(s.lists, s.threads[t].h, now, h);
    } else {
      QuestionSpends(s.lists, s.threads[t].h, now, h);
      OneIdleAtMost(s.threads[t := Idle], t, h);
    }
  }

  lemma PushBannedSpends(s: System, g: cstring, now: real, h: cstring)
    requires |s.threads| > 0
    ensures Allowance(Next(s, PushBanned(g, now)), h) <= Allowance(s, h)
  {
    hide Matches, FirstMatch;
    FirstEntryAppend(s.lists.banned, Host(g, 0, now), h);
  }

  lemma RaiseCountSpends(s: System, g: cstring, h: cstring)
    ensures Allowance(Next(s, RaiseCount(g)), h) <= Allowance(s, h)
  {
    hide Matches, FirstMatch;
    var i := FirstMatch(s.lists.banned, g);
    if i < |s.lists.banned| {
      var e := s.lists.banned[i];
      FirstMatchUpdate(s.lists.banned, i, e.(RejectionCount := e.RejectionCount + 1), h);
    }
  }

  lemma StepSpends(s: System, step: Step, h: cstring)
    requires Enabled(s, step) && Matches(h, h) && |s.threads| > 0 && !Listed(s.lists.allowed, h)
    ensures Allowance(Next(s, step), h) + (if LetsIn(s, step, h) then 1 else 0) <= Allowance(s, h)
  {
    match step
    case CheckAllowed(_, _) => LookUpSpends(s, step, h);
    case CheckBanned(_) => LookUpSpends(s, step, h);
    case CheckQuestionable(t, now) => QuestionStepSpends(s, t, now, h);
    case PushAllowed(_, _) =>
    case PushBanned(g, now) => PushBannedSpends(s, g, now, h);
    case RaiseCount(g) => RaiseCountSpends(s, g, h);
  }

  lemma OneIdleAtMost(threads: seq<Phase>, t: nat, h: cstring)
    requires t < |threads| && threads[t].Idle?
    ensures InFlight(threads, h) <= |threads| - 1
  {
    InFlightUpdate(threads, t, NotBanned(h), h);
  }

  lemma AllowedOnlyGrows(s: System, step: Step, h: cstring)
    requires Enabled(s, step)
    ensures Listed(s.lists.allowed, h) ==> Listed(Next(s, step).lists.allowed, h)
  {
    ListedGrows(s.lists.allowed, Next(s, step).lists.allowed, h);
  }

  lemma {:induction false} AllowedForGood(s: System, steps: seq<Step>, h: cstring)
    requires Feasible(s, steps) && Listed(s.lists.allowed, h)
    ensures Listed(Final(s, steps).lists.allowed, h)
    decreases |steps|
  {
    if steps != [] {
      AllowedOnlyGrows(s, steps[0], h);
      AllowedForGood(Next(s, steps[0]), steps[1..], h);
    }
  }

  /** On every interleaving the admissions stay within the allowance of the state the run starts in. */
  lemma {:induction false} InterleavedBudget(s: System, steps: seq<Step>, h: cstring)
    requires Feasible(s, steps) && Matches(h, h) && |s.threads| > 0
    requires !Listed(Final(s, steps).lists.allowed, h)
    ensures Admissions(s, steps, h) <= Allowance(s, h)
    decreases |steps|
  {
    if Listed(s.lists.allowed, h) {
      AllowedForGood(s, steps, h);
    }
    if steps != [] {
      StepSpends(s, steps[0], h);
      InterleavedBudget(Next(s, steps[0]), steps[1..], h);
    }
  }

  /** From idle threads and an empty questionable list, `n` threads sharing the lists let a host in at
      most RETRY_LIMIT + 2 + n times; for one thread that is the budget of `AdmissionBudget`. */
  lemma SharedBudget(s: System, steps: seq<Step>, h: cstring)
    requires Feasible(s, steps) && Matches(h, h) && |s.threads| > 0
    requires s.lists.questionable == [] && !Listed(Final(s, steps).lists.allowed, h)
    ensures Admissions(s, steps, h) <= RETRY_LIMIT + 2 + |s.threads|
  {
    InterleavedBudget(s, steps, h);
  }

  // ---------- bans ----------

  /** For a banned host only the calls in flight count, whatever its name matches. */
  lemma BannedStep(s: System, step: Step, h: cstring)
    requires Enabled(s, step) && Listed(s.lists.banned, h) && !Listed(s.lists.allowed, h)
    ensures Listed(Next(s, step).lists.banned, h)
    ensures InFlight(Next(s, step).threads, h) + (if LetsIn(s, step, h) then 1 else 0) <= InFlight(s.threads, h)
  {
    hide Matches, FirstMatch;
    ListedGrows(s.lists.banned, Next(s, step).lists.banned, h);
    match step
    case CheckAllowed(t, _) => InFlightUpdate(s.threads, t, Next(s, step).threads[t], h);
    case CheckBanned(t) => InFlightUpdate(s.threads, t, Next(s, step).threads[t], h);
    case CheckQuestionable(t, _) => InFlightUpdate(s.threads, t, Idle, h);
    case _ =>
  }

  /** A banned host gets in at most as often as it has calls past the banned-list check. */
  lemma {:induction false} BannedBudget(s: System, steps: seq<Step>, h: cstring)
    requires Feasible(s, steps) && Listed(s.lists.banned, h)
    requires !Listed(Final(s, steps).lists.allowed, h)
    ensures Admissions(s, steps, h) <= InFlight(s.threads, h)
    decreases |steps|
  {
    hide Next, LetsIn, InFlight;
    if Listed(s.lists.allowed, h) {
      AllowedForGood(s, steps, h);
    }
    if steps != [] {
      BannedStep(s, steps[0], h);
      BannedBudget(Next(s, steps[0]), steps[1..], h);
    }
  }

  lemma BanHoldsWhenNoneInFlight(s: System, steps: seq<Step>, h: cstring)
    requires Feasible(s, steps) && Listed(s.lists.banned, h) && InFlight(s.threads, h) == 0
    requires !Listed(Final(s, steps).lists.allowed, h)
    ensures Admissions(s, steps, h) == 0
  {
    BannedBudget(s, steps, h);
  }

  lemma {:induction false} FindInFlight(threads: seq<Phase>, h: cstring) returns (t: nat)
    requires InFlight(threads, h) > 0
    ensures t < |threads| && threads[t] == NotBanned(h)
  {
    if threads[0] == NotBanned(h) {
      t := 0;
    } else {
      t := FindInFlight(threads[1..], h);
      t := t + 1;
    }
  }

  /** Late enough, the questionable list lets any host in. */
  lemma LateEnough(l: Lists, h: cstring) returns (now: real)
    ensures Question(l, h, now).1 && Question(l, h, now).0.allowed == l.allowed
  {
    var i := FirstMatch(l.questionable, h);
    now := if i < |l.questionable| then l.questionable[i].LastContact + COOL_DOWN_TIME + 1.0 else 0.0;
  }

  lemma AdmittedInFlight(s: System, h: cstring) returns (steps: seq<Step>)
    requires InFlight(s.threads, h) > 0 && !Listed(s.lists.allowed, h)
    ensures Feasible(s, steps) && !Listed(Final(s, steps).lists.allowed, h) && Admissions(s, steps, h) == 1
  {
    var t := FindInFlight(s.threads, h);
    var now := LateEnough(s.lists, h);
    steps := PrependStep(s, CheckQuestionable(t, now), Next(s, CheckQuestionable(t, now)), [], h);
  }

  ghost predicate BanIsFinal(s: System, h: cstring)
  {
    forall steps :: Feasible(s, steps) && !Listed(Final(s, steps).lists.allowed, h) ==> Admissions(s, steps, h) == 0
  }

  /** A ban is final exactly when no call by that host is past the banned-list check. */
  lemma BanIsFinalIff(s: System, h: cstring)
    requires Listed(s.lists.banned, h) && !Listed(s.lists.allowed, h)
    ensures BanIsFinal(s, h) <==> InFlight(s.threads, h) == 0
  {
    if InFlight(s.threads, h) == 0 {
      forall steps | Feasible(s, steps) && !Listed(Final(s, steps).lists.allowed, h)
        ensures Admissions(s, steps, h) == 0
      {
        BanHoldsWhenNoneInFlight(s, steps, h);
      }
    } else {
      var steps := AdmittedInFlight(s, h);
    }
  }

  /** The thread has finished its call by the last of these steps, and not before. */
  ghost predicate OneCall(s: System, steps: seq<Step>)
    requires Feasible(s, steps)
  {
    && steps != [] && Final(s, steps).threads == [Idle]
    && forall k | 0 < k < |steps| :: Feasible(s, steps[..k]) && Final(s, steps[..k]).threads != [Idle]
  }

  /** A call that runs alone goes through the lists in order until it has its answer, and that is the one of
      `Contact`, as are the lists it leaves. */
  lemma UninterruptedCall(l: Lists, h: cstring, now: real) returns (steps: seq<Step>)
    ensures steps <= [CheckAllowed(0, h), CheckBanned(0), CheckQuestionable(0, now)]
    ensures Feasible(System(l, [Idle]), steps) && OneCall(System(l, [Idle]), steps)
    ensures Final(System(l, [Idle]), steps) == System(Contact(l, h, now).0, [Idle])
    ensures Admissions(System(l, [Idle]), steps, h) == if Contact(l, h, now).1 then 1 else 0
    ensures var n := |steps| - 1;
            && Feasible(System(l, [Idle]), steps[..n])
            && Enabled(Final(System(l, [Idle]), steps[..n]), steps[n])
            && (LetsIn(Final(System(l, [Idle]), steps[..n]), steps[n], h) <==> Contact(l, h, now).1)
  {
    hide Listed, Question, LetsIn;
    var s0, s1, s2 := System(l, [Idle]), System(l, [NotAllowed(h)]), System(l, [NotBanned(h)]);
    var one, two, three := CheckAllowed(0, h), CheckBanned(0), CheckQuestionable(0, now);
    StepsOfCall(l, h, now);
    if Listed(l.allowed, h) {
      steps := [one];
      TakeOne(s0, one, h);
    } else if Listed(l.banned, h) || !l.selfRegistration {
      steps := [one, two];
      TakeOne(s0, one, h);
      TakeTwo(s0, one, two, h);
    } else {
      steps := [one, two, three];
      TakeOne(s0, one, h);
      TakeTwo(s0, one, two, h);
      TakeThree(s0, one, two, three, h);
    }
    AnswerOfCall(l, h, now);
  }

  lemma StepsOfCall(l: Lists, h: cstring, now: real)
    ensures var s0, s1, s2 := System(l, [Idle]), System(l, [NotAllowed(h)]), System(l, [NotBanned(h)]);
            && Next(s0, CheckAllowed(0, h)) == (if Listed(l.allowed, h) then s0 else s1)
            && Next(s1, CheckBanned(0)) == (if Listed(l.banned, h) || !l.selfRegistration then s0 else s2)
            && Next(s2, CheckQuestionable(0, now)) == System(Question(l, h, now).0, [Idle])
  {
  }

  lemma AnswerOfCall(l: Lists, h: cstring, now: real)
    ensures var s0, s1, s2 := System(l, [Idle]), System(l, [NotAllowed(h)]), System(l, [NotBanned(h)]);
            && (LetsIn(s0, CheckAllowed(0, h), h) <==> Listed(l.allowed, h))
            && !LetsIn(s1, CheckBanned(0), h)
            && (LetsIn(s2, CheckQuestionable(0, now), h) <==> Question(l, h, now).1)
  {
  }

  /** 1 for a step that lets `h` in. */
  function AdmittedBy(s: System, step: Step, h: cstring): nat
    requires Enabled(s, step)
  {
    if LetsIn(s, step, h) then 1 else 0
  }

  lemma TakeOne(s: System, one: Step, h: cstring)
    requires Enabled(s, one)
    ensures Feasible(s, [one]) && Final(s, [one]) == Next(s, one) && Admissions(s, [one], h) == AdmittedBy(s, one, h)
    ensures [one][..0] == [] && Feasible(s, []) && Final(s, []) == s
  {
    assert [one][1..] == [];
  }

  lemma TakeTwo(s: System, one: Step, two: Step, h: cstring)
    requires Enabled(s, one) && Enabled(Next(s, one), two)
    ensures Feasible(s, [one, two]) && Final(s, [one, two]) == Next(Next(s, one), two)
    ensures Admissions(s, [one, two], h) == AdmittedBy(s, one, h) + AdmittedBy(Next(s, one), two, h)
    ensures [one, two][..1] == [one]
  {
    assert [one, two][1..] == [two];
    TakeOne(Next(s, one), two, h);
  }

  lemma TakeThree(s: System, one: Step, two: Step, three: Step, h: cstring)
    requires Enabled(s, one) && Enabled(Next(s, one), two) && Enabled(Next(Next(s, one), two), three)
    ensures Feasible(s, [one, two, three]) && Final(s, [one, two, three]) == Next(Next(Next(s, one), two), three)
    ensures Admissions(s, [one, two, three], h) ==
            AdmittedBy(s, one, h) + AdmittedBy(Next(s, one), two, h) + AdmittedBy(Next(Next(s, one), two), three, h)
    ensures [one, two, three][..2] == [one, two] && [one, two, three][..1] == [one]
  {
    assert [one, two, three][1..] == [two, three];
    TakeTwo(Next(s, one), two, three, h);
  }

  lemma PrependStep(s: System, step: Step, s': System, rest: seq<Step>, h: cstring) returns (steps: seq<Step>)
    requires Enabled(s, step) && Next(s, step) == s' && Feasible(s', rest)
    ensures Feasible(s, steps) && Final(s, steps) == Final(s', rest)
    ensures Admissions(s, steps, h) == (if LetsIn(s, step, h) then 1 else 0) + Admissions(s', rest, h)
  {
    steps := [step] + rest;
    assert steps[1..] == rest;
  }

  /** Two threads can let a host in after the other has banned it: `a` is past the banned-list check
      when thread 0 bans it, and thread 1 then takes it for a newcomer. */
  lemma AdmittedAfterBan(l: Lists, h: cstring, now: real)
    requires l.questionable == [Host(h, RETRY_LIMIT + 1, now)] && Matches(h, h)
    requires !Listed(l.banned, h)
    ensures var s := System(l, [NotBanned(h), NotBanned(h)]);
            var s1 := Next(s, CheckQuestionable(0, now));
            && Listed(s1.lists.banned, h)
            && LetsIn(s1, CheckQuestionable(1, now), h)
  {
    assert FirstMatch(l.questionable, h) == 0;
    FirstEntryAppend(l.banned, l.questionable[0], h);
    assert l.questionable[1..] == [];
  }

  // ---------- the shared budget is reached ----------

  /** Every entry of the questionable list was last contacted by then. */
  ghost predicate Old(l: Lists, t: real)
  {
    forall i | 0 <= i < |l.questionable| :: l.questionable[i].LastContact <= t
  }

  /** A call past the banned-list check, when every entry has cooled down, lets its host in. */
  lemma CooledDown(l: Lists, h: cstring, t: real, now: real)
    requires Old(l, t) && now - t > COOL_DOWN_TIME
    ensures Question(l, h, now).1 && Question(l, h, now).0.allowed == l.allowed
    ensures Old(Question(l, h, now).0, now)
  {
    var i := FirstMatch(l.questionable, h);
    if i < |l.questionable| {
      WithoutOld(l.questionable, l.questionable[i].HostName, now);
    }
  }

  lemma WithoutOld(a: seq<Host>, name: cstring, t: real)
    requires forall i | 0 <= i < |a| :: a[i].LastContact <= t
    ensures forall i | 0 <= i < |Without(a, name)| :: Without(a, name)[i].LastContact <= t
  {
    forall i | 0 <= i < |Without(a, name)| ensures Without(a, name)[i].LastContact <= t {
      assert Without(a, name)[i] in Without(a, name);
    }
  }

  /** The first `n` threads, all past the check, are let in one after the other. */
  lemma {:induction false} DrainInFlight(s: System, h: cstring, n: nat, t: real) returns (steps: seq<Step>)
    requires n <= |s.threads| && forall i | 0 <= i < n :: s.threads[i] == NotBanned(h)
    requires Old(s.lists, t)
    ensures Feasible(s, steps) && Final(s, steps).lists.allowed == s.lists.allowed && Admissions(s, steps, h) == n
    decreases n
  {
    if n == 0 {
      steps := [];
    } else {
      var now := t + COOL_DOWN_TIME + 1.0;
      CooledDown(s.lists, h, t, now);
      var step := CheckQuestionable(n - 1, now);
      steps := DrainInFlight(Next(s, step), h, n - 1, now);
      steps := PrependStep(s, step, Next(s, step), steps, h);
    }
  }

  /** Threads `k` and up enter a call and stop behind the banned-list check; then all of them are drained. */
  lemma {:induction false} FillAndDrain(s: System, h: cstring, k: nat, t: real) returns (steps: seq<Step>)
    requires k <= |s.threads| && Old(s.lists, t)
    requires forall i | 0 <= i < k :: s.threads[i] == NotBanned(h)
    requires forall i | k <= i < |s.threads| :: s.threads[i] == Idle
    requires !Listed(s.lists.allowed, h) && !Listed(s.lists.banned, h) && s.lists.selfRegistration
    ensures Feasible(s, steps) && Final(s, steps).lists.allowed == s.lists.allowed
    ensures Admissions(s, steps, h) == |s.threads|
    decreases |s.threads| - k
  {
    hide Listed;
    if k == |s.threads| {
      steps := DrainInFlight(s, h, k, t);
    } else {
      var s1 := Next(s, CheckAllowed(k, h));
      var s2 := Next(s1, CheckBanned(k));
      assert s1 == System(s.lists, s.threads[k := NotAllowed(h)]);
      assert s2 == System(s.lists, s.threads[k := NotAllowed(h)][k := NotBanned(h)]);
      steps := FillAndDrain(s2, h, k + 1, t);
      steps := PrependStep(s1, CheckBanned(k), s2, steps, h);
      steps := PrependStep(s, CheckAllowed(k, h), s1, steps, h);
    }
  }

  /** One whole call by thread 0, let in by the questionable list. */
  lemma WholeCall(s: System, h: cstring, now: real, rest: seq<Step>) returns (steps: seq<Step>)
    requires |s.threads| > 0 && s.threads[0] == Idle
    requires !Listed(s.lists.allowed, h) && !Listed(s.lists.banned, h) && s.lists.selfRegistration
    requires Question(s.lists, h, now).1 && Feasible(System(Question(s.lists, h, now).0, s.threads), rest)
    ensures var s' := System(Question(s.lists, h, now).0, s.threads);
            && Feasible(s, steps) && Final(s, steps) == Final(s', rest)
            && Admissions(s, steps, h) == 1 + Admissions(s', rest, h)
  {
    hide Listed, Question;
    var s1, s2 := System(s.lists, s.threads[0 := NotAllowed(h)]), System(s.lists, s.threads[0 := NotBanned(h)]);
    var s' := System(Question(s.lists, h, now).0, s.threads);
    assert s1.threads[0 := NotBanned(h)] == s2.threads && s2.threads[0 := Idle] == s.threads;
    steps := PrependStep(s2, CheckQuestionable(0, now), s', rest, h);
    steps := PrependStep(s1, CheckBanned(0), s2, steps, h);
    steps := PrependStep(s, CheckAllowed(0, h), s1, steps, h);
  }

  ghost predicate AllIdle(threads: seq<Phase>)
  {
    forall i | 0 <= i < |threads| :: threads[i] == Idle
  }

  /** Thread 0 alone uses up the entry; then every thread gets in once more. */
  lemma {:induction false} SoloThenAll(s: System, h: cstring, c: nat, last: real) returns (steps: seq<Step>)
    requires |s.threads| > 0 && AllIdle(s.threads) && Matches(h, h) && c <= RETRY_LIMIT + 1
    requires !Listed(s.lists.allowed, h) && !Listed(s.lists.banned, h) && s.lists.selfRegistration
    requires s.lists.questionable == [Host(h, c, last)]
    ensures Feasible(s, steps) && Final(s, steps).lists.allowed == s.lists.allowed
    ensures Admissions(s, steps, h) == RETRY_LIMIT + 1 - c + |s.threads|
    decreases RETRY_LIMIT + 1 - c
  {
    if c == RETRY_LIMIT + 1 {
      steps := FillAndDrain(s, h, 0, last);
    } else {
      var now := last + COOL_DOWN_TIME + 1.0;
      assert FirstMatch(s.lists.questionable, h) == 0;
      var s' := System(Question(s.lists, h, now).0, s.threads);
      assert s'.lists.questionable == [Host(h, c + 1, now)];
      var rest := SoloThenAll(s', h, c + 1, now);
      steps := WholeCall(s, h, now, rest);
    }
  }

  /** For every number of threads the bound of `SharedBudget` is reached by some interleaving. */
  lemma SharedBudgetIsReached(l: Lists, n: nat, h: cstring) returns (s: System, steps: seq<Step>)
    requires n > 0 && l.questionable == [] && l.selfRegistration && Matches(h, h)
    requires !Listed(l.allowed, h) && !Listed(l.banned, h)
    ensures s.lists == l && |s.threads| == n && AllIdle(s.threads)
    ensures Feasible(s, steps) && Final(s, steps).lists.allowed == l.allowed
    ensures Admissions(s, steps, h) == RETRY_LIMIT + 2 + n
  {
    s := System(l, seq(n, _ => Idle));
    var s' := System(Question(l, h, 0.0).0, s.threads);
    assert s'.lists.questionable == [Host(h, 0, 0.0)];
    var rest := SoloThenAll(s', h, 0, 0.0);
    steps := WholeCall(s, h, 0.0, rest);
  }

  // ---------- the two halves of AddHost ----------

  /** The push holds the lock; the write that follows does not, and takes the size it finds. */
  function Push(l: Lists, h: cstring, now: real): Lists
  {
    l.(allowed := l.allowed + [Host(h, 0, now)])
  }

  function WriteBack(l: Lists, h: cstring): Lists
    requires l.allowed != []
  {
    l.(odbAllowed := WriteIndex(l.odbAllowed, |l.allowed| - 1, h))
  }

  lemma UninterruptedAdd(l: Lists, h: cstring, now: real)
    requires !Listed(l.allowed, h)
    ensures WriteBack(Push(l, h, now), h) == Add(l, h, now).0
  {
  }

  // ---------- any number of calls of AddHost, among everything else ----------

  /** The shared lists, the threads, and the names pushed whose write is still to come. */
  datatype Adding = Adding(system: System, pending: multiset<cstring>)

  datatype AddStep =
    | PushName(h: cstring, now: real)
    | WriteName(h: cstring)
    | Elsewhere(step: Step)                  // a step of any other call

  predicate CanTake(s: Adding, step: AddStep)
  {
    match step
    case PushName(h, _) => h != ""
    case WriteName(h) => h in s.pending && s.system.lists.allowed != []
    case Elsewhere(other) => !other.PushAllowed? && Enabled(s.system, other)
  }

  function Take(s: Adding, step: AddStep): Adding
    requires CanTake(s, step)
  {
    var l := s.system.lists;
    match step
    case PushName(h, now) => Adding(s.system.(lists := Push(l, h, now)), s.pending + multiset{h})
    case WriteName(h) => Adding(s.system.(lists := WriteBack(l, h)), s.pending - multiset{h})
    case Elsewhere(other) => s.(system := Next(s.system, other))
  }

  predicate CanTakeAll(s: Adding, steps: seq<AddStep>)
    decreases |steps|
  {
    steps == [] || (CanTake(s, steps[0]) && CanTakeAll(Take(s, steps[0]), steps[1..]))
  }

  function TakeAll(s: Adding, steps: seq<AddStep>): Adding
    requires CanTakeAll(s, steps)
    decreases |steps|
  {
    if steps == [] then s else TakeAll(Take(s, steps[0]), steps[1..])
  }

  /** No name is pushed while another waits for its write. */
  predicate NoOverlap(s: Adding, steps: seq<AddStep>)
    requires CanTakeAll(s, steps)
    decreases |steps|
  {
    steps == [] ||
    ((steps[0].PushName? ==> s.pending == multiset{}) && NoOverlap(Take(s, steps[0]), steps[1..]))
  }

  lemma ElsewhereLeavesAllowed(s: System, step: Step)
    requires Enabled(s, step) && !step.PushAllowed?
    ensures Next(s, step).lists.allowed == s.lists.allowed && Next(s, step).lists.odbAllowed == s.lists.odbAllowed
  {
  }

  /** Pushed and not yet written, on a list that was mirrored. */
  ghost predicate HalfAdded(l: Lists, h: cstring)
  {
    h != "" && Compact(l.odbAllowed) && Names(l.allowed) == Reload(l.odbAllowed) + [h]
  }

  lemma PushHalves(l: Lists, h: cstring, now: real)
    requires AllowedMirrored(l) && h != ""
    ensures HalfAdded(Push(l, h, now), h)
  {
  }

  lemma WriteCompletes(l: Lists, h: cstring)
    requires HalfAdded(l, h)
    ensures l.allowed != [] && AllowedMirrored(WriteBack(l, h))
  {
    assert |Names(l.allowed)| == |l.allowed|;
    CompactReload(l.odbAllowed);
    AppendToCompact(l.odbAllowed, h);
  }

  /** An entry before the last that the array does not hold: every later write goes behind it. */
  predicate Missed(l: Lists, i: nat)
  {
    i + 1 < |l.allowed| && (i < |l.odbAllowed| ==> l.odbAllowed[i] == "")
  }

  lemma SecondPushMisses(l: Lists, h: cstring, g: cstring, now: real)
    requires HalfAdded(l, h)
    ensures l.allowed != [] && Missed(Push(l, g, now), |l.allowed| - 1)
  {
    assert |Names(l.allowed)| == |l.allowed|;
    CompactReload(l.odbAllowed);
    BlankTail(l.odbAllowed);
  }

  lemma MissedIsNotMirrored(l: Lists, i: nat)
    requires Missed(l, i)
    ensures !AllowedMirrored(l)
  {
    CompactReload(l.odbAllowed);
    assert |Names(l.allowed)| == |l.allowed|;
    assert forall k | 0 <= k < |Reload(l.odbAllowed)| :: Reload(l.odbAllowed)[k] in Reload(l.odbAllowed);
  }

  /** Two calls: one after the other they keep the copy; when both pushes come first, a name is lost from it. */
  lemma OverlappingAddsLoseAName(l: Lists, g: cstring, h: cstring, now: real)
    requires AllowedMirrored(l) && g != "" && h != ""
    ensures var both := Push(Push(l, g, now), h, now);
            && !AllowedMirrored(WriteBack(WriteBack(both, g), h))
            && !AllowedMirrored(WriteBack(WriteBack(both, h), g))
    ensures AllowedMirrored(WriteBack(Push(WriteBack(Push(l, g, now), g), h, now), h))
  {
    hide AllowedMirrored, HalfAdded;
    var one := WriteBack(Push(l, g, now), g);
    PushHalves(l, g, now);
    SecondPushMisses(Push(l, g, now), g, h, now);
    var both := Push(Push(l, g, now), h, now);
    MissedIsNotMirrored(WriteBack(WriteBack(both, g), h), |l.allowed|);
    MissedIsNotMirrored(WriteBack(WriteBack(both, h), g), |l.allowed|);
    WriteCompletes(Push(l, g, now), g);
    PushHalves(one, h, now);
    WriteCompletes(Push(one, h, now), h);
  }

  lemma {:induction false} FromMissed(s: Adding, steps: seq<AddStep>, i: nat)
    requires Missed(s.system.lists, i) && CanTakeAll(s, steps)
    ensures !AllowedMirrored(TakeAll(s, steps).system.lists)
    decreases |steps|
  {
    hide AllowedMirrored, Next, Enabled;
    if steps == [] {
      MissedIsNotMirrored(s.system.lists, i);
    } else {
      if steps[0].Elsewhere? {
        ElsewhereLeavesAllowed(s.system, steps[0].step);
      }
      FromMissed(Take(s, steps[0]), steps[1..], i);
    }
  }

  lemma {:induction false} FromHalf(s: Adding, steps: seq<AddStep>, h: cstring)
    requires s.pending == multiset{h} && HalfAdded(s.system.lists, h)
    requires CanTakeAll(s, steps) && TakeAll(s, steps).pending == multiset{}
    ensures AllowedMirrored(TakeAll(s, steps).system.lists) <==> NoOverlap(s, steps)
    decreases |steps|
  {
    hide AllowedMirrored, HalfAdded, Missed, Next, Enabled, Push, WriteBack;
    var step, l := steps[0], s.system.lists;
    match step
    case PushName(g, now) =>
      SecondPushMisses(l, h, g, now);
      FromMissed(Take(s, step), steps[1..], |l.allowed| - 1);
    case WriteName(g) =>
      WriteCompletes(l, h);
      OdbStaysCopiedIff(Take(s, step), steps[1..]);
    case Elsewhere(other) =>
      ElsewhereLeavesAllowed(s.system, other);
      HalfStays(l, Take(s, step).system.lists, h);
      FromHalf(Take(s, step), steps[1..], h);
  }

  lemma HalfStays(l: Lists, l': Lists, h: cstring)
    requires l'.allowed == l.allowed && l'.odbAllowed == l.odbAllowed
    ensures HalfAdded(l', h) <==> HalfAdded(l, h)
    ensures AllowedMirrored(l') <==> AllowedMirrored(l)
  {
  }

  /** Over every interleaving of any calls, once all writes are done the ODB holds the allowed list exactly when
      no name was pushed while another waited for its write. */
  lemma {:induction false} OdbStaysCopiedIff(s: Adding, steps: seq<AddStep>)
    requires s.pending == multiset{} && AllowedMirrored(s.system.lists)
    requires CanTakeAll(s, steps) && TakeAll(s, steps).pending == multiset{}
    ensures AllowedMirrored(TakeAll(s, steps).system.lists) <==> NoOverlap(s, steps)
    decreases |steps|
  {
    hide AllowedMirrored, HalfAdded, Next, Enabled, Push, WriteBack;
    if steps != [] {
      var step, l := steps[0], s.system.lists;
      match step
      case PushName(h, now) =>
        PushHalves(l, h, now);
        FromHalf(Take(s, step), steps[1..], h);
      case Elsewhere(other) =>
        ElsewhereLeavesAllowed(s.system, other);
        HalfStays(l, Take(s, step).system.lists, "");
        OdbStaysCopiedIff(Take(s, step), steps[1..]);
    }
  }
}
