/** What the three lists guarantee over whole runs of calls, one call at a time. */
module AdmissionRuns {
  import opened CStrings
  import opened HostPattern
  import opened HostAdmission

  datatype Call =
    | Arrive(h: cstring, now: real)      // IsAllowed
    | Register(h: cstring, now: real)    // AddHost
    | Blacklist(h: cstring, now: real)   // BanHost
    | Complain(h: cstring)               // PrintRejection

  function Perform(l: Lists, c: Call): Lists
  {
    match c
    case Arrive(h, now) => Contact(l, h, now).0
    case Register(h, now) => Add(l, h, now).0
    case Blacklist(h, now) => Ban(l, h, now).0
    case Complain(h) => CountRejection(l, h).0
  }

  function After(l: Lists, calls: seq<Call>): Lists
    decreases |calls|
  {
    if calls == [] then l else After(Perform(l, calls[0]), calls[1..])
  }

  function FirstEntry(hosts: seq<Host>, h: cstring): (e: Option<Host>)
    ensures e.Some? <==> Listed(hosts, h)
    ensures e.Some? ==> Matches(e.value.HostName, h)
  {
    var i := FirstMatch(hosts, h);
    if i < |hosts| then Some(hosts[i]) else None
  }

  /** `g` is looked up on the questionable list and finds the entry `h` would find. */
  predicate SameEntry(l: Lists, g: cstring, h: cstring)
  {
    && !Listed(l.allowed, g) && !Listed(l.banned, g) && !Listed(l.banned, h)
    && FirstMatch(l.questionable, g) == FirstMatch(l.questionable, h) < |l.questionable|
  }

  /** The call lets `h` in, or lets another host in through the questionable entry `h` shares with it. */
  predicate Admits(l: Lists, c: Call, h: cstring)
  {
    c.Arrive? && Contact(l, c.h, c.now).1 && (c.h == h || SameEntry(l, c.h, h))
  }

  /** The times of those admissions, in order. */
  function AdmissionTimes(l: Lists, calls: seq<Call>, h: cstring): seq<real>
    decreases |calls|
  {
    if calls == [] then []
    else
      var later := AdmissionTimes(Perform(l, calls[0]), calls[1..], h);
      if Admits(l, calls[0], h) then [calls[0].now] + later else later
  }

  /** How often `h` can still be let in. */
  function Remaining(l: Lists, h: cstring): nat
  {
    if Listed(l.banned, h) then 0
    else
      match FirstEntry(l.questionable, h)
      case None => RETRY_LIMIT + 3
      case Some(e) => if e.RejectionCount > RETRY_LIMIT then 1 else RETRY_LIMIT + 2 - e.RejectionCount
  }

  // ---------- list facts ----------

  lemma ListedGrows(a: seq<Host>, b: seq<Host>, h: cstring)
    requires |a| <= |b| && forall i | 0 <= i < |a| :: b[i].HostName == a[i].HostName
    ensures FirstMatch(a, h) < |a| ==> FirstMatch(b, h) == FirstMatch(a, h)
  {
    if FirstMatch(a, h) < |a| {
      FirstMatchIs(b, h, FirstMatch(a, h));
    }
  }

  lemma FirstEntryAppend(a: seq<Host>, e: Host, h: cstring)
    ensures FirstEntry(a + [e], h) ==
            if Listed(a, h) then FirstEntry(a, h) else if Matches(e.HostName, h) then Some(e) else None
  {
    var i := FirstMatch(a, h);
    FirstMatchIs(a + [e], h, if i < |a| || Matches(e.HostName, h) then i else i + 1);
  }

  lemma FirstMatchUpdate(a: seq<Host>, i: nat, e: Host, h: cstring)
    requires i < |a| && e.HostName == a[i].HostName
    ensures FirstMatch(a[i := e], h) == FirstMatch(a, h)
  {
    FirstMatchIs(a[i := e], h, FirstMatch(a, h));
  }

  lemma {:induction false} FirstEntryWithout(a: seq<Host>, name: cstring, h: cstring)
    requires !Matches(name, h)
    ensures FirstEntry(Without(a, name), h) == FirstEntry(a, h)
  {
    if a != [] {
      FirstEntryWithout(a[1..], name, h);
      FirstEntryCons(a[0], a[1..], h);
      FirstEntryCons(a[0], Without(a[1..], name), h);
      assert a == [a[0]] + a[1..];
    }
  }

  lemma FirstEntryCons(e: Host, a: seq<Host>, h: cstring)
    ensures FirstEntry([e] + a, h) == if Matches(e.HostName, h) then Some(e) else FirstEntry(a, h)
  {
    assert ([e] + a)[1..] == a;
  }

  // ---------- one contact ----------

  /** What one contact by `g` means for `h`: the entry `h` would find, and its allowance. */
  lemma QuestionEffect(l: Lists, g: cstring, now: real, h: cstring)
    requires Matches(h, h) && !Listed(l.allowed, g) && !Listed(l.banned, g) && l.selfRegistration
    requires !Listed(l.banned, h)
    ensures var l' := Question(l, g, now).0;
            var e := FirstEntry(l.questionable, h);
            var e' := FirstEntry(l'.questionable, h);
            && l'.allowed == l.allowed
            && (Admits(l, Arrive(g, now), h) ==>
                  && Remaining(l', h) + 1 <= Remaining(l, h)
                  && (e.Some? ==> now - e.value.LastContact > COOL_DOWN_TIME)
                  && (Listed(l'.banned, h) || (e'.Some? && e'.value.LastContact == now)))
            && (!Admits(l, Arrive(g, now), h) ==>
                  && Remaining(l', h) <= Remaining(l, h)
                  && (Listed(l'.banned, h) || e.None? || e' == e))
  {
    hide Matches, FirstMatch;
    var q := l.questionable;
    var i := FirstMatch(q, g);
    if i == |q| {
      FirstEntryAppend(q, Host(g, 0, now), h);
    } else {
      var e := q[i];
      var j := FirstMatch(q, h);
      assert j < |q| && Matches(e.HostName, h) && i == j <==> SameEntry(l, g, h);
      if e.RejectionCount > RETRY_LIMIT {
        FirstEntryAppend(l.banned, e, h);
        if !Matches(e.HostName, h) {
          FirstEntryWithout(q, e.HostName, h);
        }
      } else if now - e.LastContact > COOL_DOWN_TIME {
        FirstMatchUpdate(q, i, Host(e.HostName, e.RejectionCount + 1, now), h);
      }
    }
  }

  lemma PerformEffect(l: Lists, c: Call, h: cstring)
    requires Matches(h, h) && !Listed(l.allowed, h) && !Listed(l.banned, h)
    ensures var l' := Perform(l, c);
            var e := FirstEntry(l.questionable, h);
            var e' := FirstEntry(l'.questionable, h);
            && (Admits(l, c, h) ==>
                  && Remaining(l', h) + 1 <= Remaining(l, h)
                  && (e.Some? ==> c.now - e.value.LastContact > COOL_DOWN_TIME)
                  && (Listed(l'.banned, h) || (e'.Some? && e'.value.LastContact == c.now)))
            && (!Admits(l, c, h) ==>
                  && Remaining(l', h) <= Remaining(l, h)
                  && (Listed(l'.banned, h) || e.None? || e' == e))
  {
    match c
    case Arrive(g, now) =>
      if !Listed(l.allowed, g) && !Listed(l.banned, g) && l.selfRegistration {
        QuestionEffect(l, g, now, h);
      }
    case Register(_, _) =>
    case Blacklist(g, now) =>
    case Complain(g) =>
      var i := FirstMatch(l.banned, g);
      if i < |l.banned| {
        FirstMatchUpdate(l.banned, i, l.banned[i].(RejectionCount := l.banned[i].RejectionCount + 1), h);
      }
  }

  /** No call ever takes a name off the allowed or the banned list. */
  lemma ListsOnlyGrow(l: Lists, c: Call, h: cstring)
    ensures Listed(l.allowed, h) ==> Listed(Perform(l, c).allowed, h)
    ensures Listed(l.banned, h) ==> Listed(Perform(l, c).banned, h)
  {
    ListedGrows(l.allowed, Perform(l, c).allowed, h);
    ListedGrows(l.banned, Perform(l, c).banned, h);
  }

  lemma {:induction false} AllowedStaysAllowed(l: Lists, calls: seq<Call>, h: cstring)
    requires Listed(l.allowed, h)
    ensures Listed(After(l, calls).allowed, h)
    decreases |calls|
  {
    if calls != [] {
      ListsOnlyGrow(l, calls[0], h);
      AllowedStaysAllowed(Perform(l, calls[0]), calls[1..], h);
    }
  }

  // ---------- whole runs ----------

  ghost predicate Spaced(ts: seq<real>)
  {
    forall i | 0 <= i < |ts| - 1 :: ts[i + 1] - ts[i] > COOL_DOWN_TIME
  }

  lemma SpacedCons(t: real, ts: seq<real>)
    requires Spaced(ts) && (ts != [] ==> ts[0] - t > COOL_DOWN_TIME)
    ensures Spaced([t] + ts)
  {
    var all := [t] + ts;
    forall i | 0 <= i < |all| - 1 ensures all[i + 1] - all[i] > COOL_DOWN_TIME {
      if i > 0 {
        assert all[i] == ts[i - 1] && all[i + 1] == ts[i];
      }
    }
  }

  /** The admission schedule of a host that matches its own name and never makes the allowed list:
      whatever the other hosts do, it gets in at most `Remaining` times, any two admissions through
      its questionable entry are more than the cool-down apart, and none happens once it is banned. */
  lemma {:induction false} AdmissionSchedule(l: Lists, calls: seq<Call>, h: cstring)
    requires Matches(h, h) && !Listed(After(l, calls).allowed, h)
    ensures |AdmissionTimes(l, calls, h)| <= Remaining(l, h)
    ensures Spaced(AdmissionTimes(l, calls, h))
    ensures var e := FirstEntry(l.questionable, h);
            AdmissionTimes(l, calls, h) != [] && e.Some? ==>
              AdmissionTimes(l, calls, h)[0] - e.value.LastContact > COOL_DOWN_TIME
    decreases |calls|
  {
    if calls != [] {
      var c, l' := calls[0], Perform(l, calls[0]);
      var later := AdmissionTimes(l', calls[1..], h);
      if Listed(l.allowed, h) {
        AllowedStaysAllowed(l, calls, h);
      }
      AdmissionSchedule(l', calls[1..], h);
      if Listed(l.banned, h) {
        ListsOnlyGrow(l, c, h);
      } else {
        PerformEffect(l, c, h);
        if Admits(l, c, h) {
          SpacedCons(c.now, later);
        }
      }
    }
  }

  /** From an empty questionable list: at most RETRY_LIMIT + 3 admissions. */
  lemma AdmissionBudget(l: Lists, calls: seq<Call>, h: cstring)
    requires l.questionable == [] && Matches(h, h) && !Listed(After(l, calls).allowed, h)
    ensures |AdmissionTimes(l, calls, h)| <= RETRY_LIMIT + 3
  {
    AdmissionSchedule(l, calls, h);
  }

  /** Once its name is banned a host is never admitted again, whatever its name matches. */
  lemma {:induction false} BannedIsForever(l: Lists, calls: seq<Call>, h: cstring)
    requires Listed(l.banned, h) && !Listed(After(l, calls).allowed, h)
    ensures AdmissionTimes(l, calls, h) == []
    decreases |calls|
  {
    if calls != [] {
      ListsOnlyGrow(l, calls[0], h);
      if Listed(l.allowed, h) {
        AllowedStaysAllowed(l, calls, h);
      }
      BannedIsForever(Perform(l, calls[0]), calls[1..], h);
    }
  }

  /** `k` admissions take more than `k - 1` cool-down times. */
  lemma {:induction false} SpacedSpan(ts: seq<real>, k: nat)
    requires Spaced(ts) && 2 <= k <= |ts|
    ensures ts[k - 1] - ts[0] > (k - 1) as real * COOL_DOWN_TIME
  {
    assert ts[k - 2 + 1] - ts[k - 2] > COOL_DOWN_TIME;
    if k > 2 {
      SpacedSpan(ts, k - 1);
    }
  }

  lemma AdmissionsTakeTime(l: Lists, calls: seq<Call>, h: cstring)
    requires Matches(h, h) && !Listed(After(l, calls).allowed, h)
    ensures var ts := AdmissionTimes(l, calls, h);
            |ts| >= 2 ==> ts[|ts| - 1] - ts[0] > (|ts| - 1) as real * COOL_DOWN_TIME
  {
    AdmissionSchedule(l, calls, h);
    var ts := AdmissionTimes(l, calls, h);
    if |ts| >= 2 {
      SpacedSpan(ts, |ts|);
    }
  }

  // ---------- the answers ----------

  /** Some entry matches the name. */
  ghost predicate Recognised(hosts: seq<Host>, h: cstring)
  {
    exists i :: 0 <= i < |hosts| && Matches(hosts[i].HostName, h)
  }

  lemma ListedIffRecognised(hosts: seq<Host>, h: cstring)
    ensures Listed(hosts, h) <==> Recognised(hosts, h)
  {
  }

  /** The call is a visit by `h`, and is answered with `answer` without a change to the lists. */
  predicate Answered(l: Lists, c: Call, h: cstring, answer: bool)
  {
    c.Arrive? && c.h == h && Contact(l, h, c.now) == (l, answer)
  }

  /** A host that some allowed entry matches is let in at every visit of every run, whatever calls come before it,
      bans of that host included, and the visit changes no list. */
  lemma AllowedIsLetIn(l: Lists, calls: seq<Call>, h: cstring, i: nat)
    requires Recognised(l.allowed, h) && i < |calls| && calls[i].Arrive? && calls[i].h == h
    ensures Answered(After(l, calls[..i]), calls[i], h, true)
  {
    hide Perform, Listed, Recognised;
    ListedIffRecognised(l.allowed, h);
    AllowedStaysAllowed(l, calls[..i], h);
  }

  lemma {:induction false} AfterConcat(l: Lists, xs: seq<Call>, ys: seq<Call>)
    ensures After(l, xs + ys) == After(After(l, xs), ys)
    decreases |xs|
  {
    hide Perform;
    if xs == [] {
      assert xs + ys == ys;
    } else {
      assert (xs + ys)[1..] == xs[1..] + ys;
      AfterConcat(Perform(l, xs[0]), xs[1..], ys);
    }
  }

  lemma RegisteredIsListed(l: Lists, h: cstring, now: real)
    requires Matches(h, h)
    ensures Listed(Perform(l, Register(h, now)).allowed, h)
  {
    FirstEntryAppend(l.allowed, Host(h, 0, now), h);
  }

  /** So is, from then on, a host that has been registered and matches its own name. */
  lemma RegisteredIsLetIn(l: Lists, calls: seq<Call>, h: cstring, k: nat, i: nat)
    requires k < i < |calls| && calls[k].Register? && calls[k].h == h && Matches(h, h)
    requires calls[i].Arrive? && calls[i].h == h
    ensures Answered(After(l, calls[..i]), calls[i], h, true)
  {
    hide Perform, Listed, Recognised, Answered;
    var before := After(l, calls[..k]);
    AfterConcat(l, calls[..k], calls[k..i]);
    assert calls[..i] == calls[..k] + calls[k..i];
    RegisteredIsListed(before, h, calls[k].now);
    var l' := Perform(before, calls[k]);
    ListedIffRecognised(l'.allowed, h);
    AllowedIsLetIn(l', calls[k + 1..], h, i - k - 1);
    assert calls[k..i][1..] == calls[k + 1..][..i - k - 1];
  }

  lemma {:induction false} RegistrationNeverChanges(l: Lists, calls: seq<Call>)
    ensures After(l, calls).selfRegistration == l.selfRegistration
    decreases |calls|
  {
    hide Perform;
    if calls != [] {
      RegistrationStays(l, calls[0]);
      RegistrationNeverChanges(Perform(l, calls[0]), calls[1..]);
    }
  }

  /** Without self-registration, at every visit of every run: the answer is whether an allowed entry matches, and
      no list changes. */
  lemma ClosedListDecides(l: Lists, calls: seq<Call>, i: nat)
    requires !l.selfRegistration && i < |calls| && calls[i].Arrive?
    ensures var s := After(l, calls[..i]); Answered(s, calls[i], calls[i].h, Recognised(s.allowed, calls[i].h))
  {
    hide Perform, Question;
    RegistrationNeverChanges(l, calls[..i]);
    ListedIffRecognised(After(l, calls[..i]).allowed, calls[i].h);
  }

  /** With it, for a host neither allowed nor banned: a newcomer is let in, and a host seen before exactly when its
      entry was last contacted more than 1000 milliseconds ago. */
  lemma OpenListDecides(l: Lists, h: cstring, now: real)
    requires l.selfRegistration && !Recognised(l.allowed, h) && !Recognised(l.banned, h)
    ensures var r := Contact(l, h, now);
            if !Recognised(l.questionable, h) then r.1
            else
              var e := l.questionable[FirstMatch(l.questionable, h)];
              r.1 <==> now - e.LastContact > 1000.0
    ensures Contact(l, h, now).0.allowed == l.allowed
  {
    ListedIffRecognised(l.allowed, h);
    ListedIffRecognised(l.banned, h);
    ListedIffRecognised(l.questionable, h);
  }

  /** In numbers: at most thirteen admissions, more than a second apart, and none of a banned host. */
  lemma ThirteenAdmissions(l: Lists, calls: seq<Call>, h: cstring)
    requires l.questionable == [] && Matches(h, h) && !Listed(After(l, calls).allowed, h)
    ensures var ts := AdmissionTimes(l, calls, h);
            |ts| <= 13 && forall i | 0 < i < |ts| :: ts[i] - ts[i - 1] > 1000.0
    ensures Recognised(l.banned, h) ==> AdmissionTimes(l, calls, h) == []
  {
    AdmissionSchedule(l, calls, h);
    ListedIffRecognised(l.banned, h);
    var ts := AdmissionTimes(l, calls, h);
    assert forall i | 0 < i < |ts| :: ts[i] == ts[(i - 1) + 1];
  }

  /** Registering or banning a host that the list recognises changes nothing; any other name becomes the last entry. */
  lemma OnlyNewNamesAreAdded(l: Lists, h: cstring, now: real)
    ensures Recognised(l.allowed, h) ==> Perform(l, Register(h, now)) == l
    ensures Recognised(l.banned, h) ==> Perform(l, Blacklist(h, now)) == l
    ensures !Recognised(l.allowed, h) ==> Names(Perform(l, Register(h, now)).allowed) == Names(l.allowed) + [h]
    ensures !Recognised(l.banned, h) ==> Names(Perform(l, Blacklist(h, now)).banned) == Names(l.banned) + [h]
  {
    ListedIffRecognised(l.allowed, h);
    ListedIffRecognised(l.banned, h);
  }

  /** No entry is matched by an earlier one. */
  ghost predicate Apart(hosts: seq<Host>)
  {
    forall i, j | 0 <= i < j < |hosts| :: !Matches(hosts[i].HostName, hosts[j].HostName)
  }

  /** Over every run the allowed list keeps its entries apart. */
  lemma {:induction false} AllowedStaysApart(l: Lists, calls: seq<Call>)
    requires Apart(l.allowed)
    ensures Apart(After(l, calls).allowed)
    decreases |calls|
  {
    hide Perform, Matches, FirstMatch;
    if calls != [] {
      var c := calls[0];
      if c.Register? && !Listed(l.allowed, c.h) {
        RegisterKeepsApart(l, c.h, c.now);
      } else {
        OthersLeaveAllowed(l, c);
      }
      AllowedStaysApart(Perform(l, c), calls[1..]);
    }
  }

  lemma RegisterKeepsApart(l: Lists, h: cstring, now: real)
    requires Apart(l.allowed) && !Listed(l.allowed, h)
    ensures Apart(Perform(l, Register(h, now)).allowed)
  {
  }

  // ---------- the rejections of a banned host ----------

  function Complaints(h: cstring, n: nat): (r: seq<Call>)
    ensures |r| == n
  {
    seq(n, _ => Complain(h))
  }

  lemma ComplaintCounts(l: Lists, h: cstring)
    requires Listed(l.banned, h)
    ensures var l' := Perform(l, Complain(h));
            && Listed(l'.banned, h)
            && FirstEntry(l'.banned, h).value.RejectionCount == FirstEntry(l.banned, h).value.RejectionCount + 1
  {
    var i := FirstMatch(l.banned, h);
    var e := l.banned[i];
    FirstMatchUpdate(l.banned, i, e.(RejectionCount := e.RejectionCount + 1), h);
  }

  /** The rejections of a banned host are announced up to twenty times, the next is announced as the last, and from
      then on they are silent. */
  lemma {:induction false} RejectionsAnnounced(l: Lists, h: cstring, n: nat)
    requires Listed(l.banned, h)
    ensures var count := FirstEntry(l.banned, h).value.RejectionCount + n;
            CountRejection(After(l, Complaints(h, n)), h).1 ==
              if count < 20 then Rejecting else if count == 20 then RejectingLastTime else Silent
    decreases n
  {
    hide Perform, Listed;
    if n == 0 {
      AnnouncedByCount(l, h);
    } else {
      ComplaintCounts(l, h);
      assert Complaints(h, n)[1..] == Complaints(h, n - 1);
      RejectionsAnnounced(Perform(l, Complain(h)), h, n - 1);
    }
  }

  /** For a host banned by name that is the first twenty rejections, the next, and the rest. */
  lemma NewBanIsAnnounced(l: Lists, h: cstring, now: real, n: nat)
    requires !Listed(l.banned, h) && Matches(h, h)
    ensures CountRejection(After(Perform(l, Blacklist(h, now)), Complaints(h, n)), h).1 ==
            if n < 20 then Rejecting else if n == 20 then RejectingLastTime else Silent
  {
    FirstEntryAppend(l.banned, Host(h, 0, now), h);
    RejectionsAnnounced(Perform(l, Blacklist(h, now)), h, n);
  }

  lemma AnnouncedByCount(l: Lists, h: cstring)
    requires Listed(l.banned, h)
    ensures var count := FirstEntry(l.banned, h).value.RejectionCount;
            CountRejection(l, h).1 ==
              if count < 20 then Rejecting else if count == 20 then RejectingLastTime else Silent
  {
  }

  // ---------- the bound is exact, and so is its condition ----------

  /** `n` contacts by `h`, `step` milliseconds apart. */
  function Knocks(h: cstring, from: real, step: real, n: nat): seq<Call>
    decreases n
  {
    if n == 0 then [] else [Arrive(h, from)] + Knocks(h, from + step, step, n - 1)
  }

  lemma {:induction false} PatientKnocks(l: Lists, h: cstring, now: real, c: nat, last: real)
    requires c <= RETRY_LIMIT + 1 && Matches(h, h) && l.selfRegistration
    requires !Listed(l.allowed, h) && !Listed(l.banned, h) && l.questionable == [Host(h, c, last)]
    requires now - last > COOL_DOWN_TIME
    ensures var calls := Knocks(h, now, 2.0 * COOL_DOWN_TIME, RETRY_LIMIT + 2 - c);
            && |AdmissionTimes(l, calls, h)| == RETRY_LIMIT + 2 - c
            && After(l, calls).allowed == l.allowed
    decreases RETRY_LIMIT + 1 - c
  {
    var calls := Knocks(h, now, 2.0 * COOL_DOWN_TIME, RETRY_LIMIT + 2 - c);
    assert FirstMatch(l.questionable, h) == 0;
    var l' := Perform(l, calls[0]);
    if c <= RETRY_LIMIT {
      PatientKnocks(l', h, now + 2.0 * COOL_DOWN_TIME, c + 1, now);
    } else {
      assert calls[1..] == [];
    }
  }

  /** RETRY_LIMIT + 3 admissions do happen: the bound cannot be lowered. */
  lemma BudgetIsReached(l: Lists, h: cstring) returns (calls: seq<Call>)
    requires l.questionable == [] && l.selfRegistration && Matches(h, h)
    requires !Listed(l.allowed, h) && !Listed(l.banned, h)
    ensures |AdmissionTimes(l, calls, h)| == RETRY_LIMIT + 3 == 13
    ensures After(l, calls).allowed == l.allowed
  {
    var l' := Perform(l, Arrive(h, 0.0));
    PatientKnocks(l', h, 2.0 * COOL_DOWN_TIME, 0, 0.0);
    calls := [Arrive(h, 0.0)] + Knocks(h, 2.0 * COOL_DOWN_TIME, 2.0 * COOL_DOWN_TIME, RETRY_LIMIT + 2);
    assert calls[1..] == Knocks(h, 2.0 * COOL_DOWN_TIME, 2.0 * COOL_DOWN_TIME, RETRY_LIMIT + 2);
  }

  /** The call puts nothing on the three lists that `h` matches. */
  ghost predicate LeavesAlone(c: Call, h: cstring)
  {
    match c
    case Arrive(g, _) => !Matches(g, h)
    case Register(g, _) => !Matches(g, h)
    case Blacklist(g, _) => !Matches(g, h)
    case Complain(_) => true
  }

  predicate Unlisted(l: Lists, h: cstring)
  {
    !Listed(l.allowed, h) && !Listed(l.banned, h) && !Listed(l.questionable, h)
  }

  function Visits(calls: seq<Call>, h: cstring): nat
  {
    if calls == [] then 0
    else if calls[0].Arrive? && calls[0].h == h then 1 + Visits(calls[1..], h)
    else Visits(calls[1..], h)
  }

  lemma {:induction false} WithoutUnlisted(a: seq<Host>, name: cstring, h: cstring)
    requires !Listed(a, h)
    ensures !Listed(Without(a, name), h)
  {
    if a != [] {
      assert a == [a[0]] + a[1..];
      FirstEntryCons(a[0], a[1..], h);
      WithoutUnlisted(a[1..], name, h);
      FirstEntryCons(a[0], Without(a[1..], name), h);
    }
  }

  lemma QuestionLeavesUnlisted(l: Lists, g: cstring, now: real, h: cstring)
    requires Unlisted(l, h) && !Matches(g, h)
    ensures Unlisted(Question(l, g, now).0, h)
  {
    var q, i := l.questionable, FirstMatch(l.questionable, g);
    if i == |q| {
      FirstEntryAppend(q, Host(g, 0, now), h);
    } else if q[i].RejectionCount > RETRY_LIMIT {
      FirstEntryAppend(l.banned, q[i], h);
      WithoutUnlisted(q, q[i].HostName, h);
    } else if now - q[i].LastContact > COOL_DOWN_TIME {
      FirstMatchUpdate(q, i, Host(q[i].HostName, q[i].RejectionCount + 1, now), h);
    }
  }

  lemma StaysUnlisted(l: Lists, c: Call, h: cstring)
    requires Unlisted(l, h) && LeavesAlone(c, h)
    ensures Unlisted(Perform(l, c), h)
  {
    match c
    case Arrive(g, now) =>
      if !Listed(l.allowed, g) && !Listed(l.banned, g) && l.selfRegistration {
        QuestionLeavesUnlisted(l, g, now, h);
      }
    case Register(g, now) => FirstEntryAppend(l.allowed, Host(g, 0, now), h);
    case Blacklist(g, now) => FirstEntryAppend(l.banned, Host(g, 0, now), h);
    case Complain(g) =>
      var i := FirstMatch(l.banned, g);
      if i < |l.banned| {
        FirstMatchUpdate(l.banned, i, l.banned[i].(RejectionCount := l.banned[i].RejectionCount + 1), h);
      }
  }

  lemma RegistrationStays(l: Lists, c: Call)
    ensures Perform(l, c).selfRegistration == l.selfRegistration
  {
  }

  lemma NewcomerAdmitted(l: Lists, c: Call, h: cstring)
    requires Unlisted(l, h) && l.selfRegistration
    ensures Admits(l, c, h) <==> c.Arrive? && c.h == h
  {
  }

  /** A host that does not match its own name is a newcomer every time: it is let in at every visit, at any
      times, as long as no other call of the run lists a name it matches. */
  lemma {:induction false} AlwaysANewcomer(l: Lists, calls: seq<Call>, h: cstring)
    requires l.selfRegistration && Unlisted(l, h)
    requires forall i | 0 <= i < |calls| :: LeavesAlone(calls[i], h)
    ensures |AdmissionTimes(l, calls, h)| == Visits(calls, h)
    ensures !Listed(After(l, calls).allowed, h)
    decreases |calls|
  {
    hide Perform, Contact, Question;
    if calls != [] {
      StaysUnlisted(l, calls[0], h);
      RegistrationStays(l, calls[0]);
      NewcomerAdmitted(l, calls[0], h);
      AlwaysANewcomer(Perform(l, calls[0]), calls[1..], h);
    }
  }

  lemma {:induction false} KnocksAreVisits(h: cstring, n: nat)
    ensures Visits(Knocks(h, 0.0, 0.0, n), h) == n
    ensures forall i | 0 <= i < |Knocks(h, 0.0, 0.0, n)| :: Knocks(h, 0.0, 0.0, n)[i] == Arrive(h, 0.0)
    decreases n
  {
    if n > 0 {
      assert Knocks(h, 0.0, 0.0, n)[1..] == Knocks(h, 0.0, 0.0, n - 1);
      KnocksAreVisits(h, n - 1);
    }
  }

  ghost predicate BudgetHolds(l: Lists, h: cstring)
  {
    forall calls :: !Listed(After(l, calls).allowed, h) ==>
      |AdmissionTimes(l, calls, h)| <= RETRY_LIMIT + 3
  }

  /** The budget is kept on every run exactly for the hosts whose name matches itself, which every
      name without wildcards does. */
  lemma BudgetHoldsIff(l: Lists, h: cstring)
    requires l.questionable == [] && l.selfRegistration
    requires !Listed(l.allowed, h) && !Listed(l.banned, h)
    ensures BudgetHolds(l, h) <==> Matches(h, h)
  {
    if Matches(h, h) {
      forall calls | !Listed(After(l, calls).allowed, h)
        ensures |AdmissionTimes(l, calls, h)| <= RETRY_LIMIT + 3
      {
        AdmissionBudget(l, calls, h);
      }
    } else {
      var calls := Knocks(h, 0.0, 0.0, 14);
      KnocksAreVisits(h, 14);
      AlwaysANewcomer(l, calls, h);
    }
  }

  // ---------- the ODB copies ----------

  /** The allowed array reloads to the allowed list, with no blank between its names. */
  ghost predicate AllowedMirrored(l: Lists)
  {
    Compact(l.odbAllowed) && Reload(l.odbAllowed) == Names(l.allowed)
  }

  lemma BlankIsListed(hosts: seq<Host>)
    ensures hosts != [] ==> Listed(hosts, "")
  {
  }

  /** The names the calls add, to either list, are not blank. */
  predicate NamesGiven(calls: seq<Call>)
  {
    forall i | 0 <= i < |calls| :: calls[i].Register? || calls[i].Blacklist? ==> calls[i].h != ""
  }

  lemma MirrorRegister(l: Lists, h: cstring, now: real)
    requires AllowedMirrored(l) && !Listed(l.allowed, h) && (l.allowed != [] || h != "")
    ensures var l' := Perform(l, Register(h, now));
            AllowedMirrored(l') && l'.allowed != [] && Names(l'.allowed) == Names(l.allowed) + [h]
  {
    BlankIsListed(l.allowed);
    CompactReload(l.odbAllowed);
    AppendToCompact(l.odbAllowed, h);
  }

  lemma OthersLeaveAllowed(l: Lists, c: Call)
    requires !c.Register? || Listed(l.allowed, c.h)
    ensures Perform(l, c).allowed == l.allowed && Perform(l, c).odbAllowed == l.odbAllowed
  {
  }

  /** A list with an entry needs no condition: a blank name matches the entry and is not added. */
  lemma {:induction false} AllowedStaysMirrored(l: Lists, calls: seq<Call>)
    requires AllowedMirrored(l) && (l.allowed != [] || NamesGiven(calls))
    ensures AllowedMirrored(After(l, calls)) && Names(l.allowed) <= Names(After(l, calls).allowed)
    decreases |calls|
  {
    hide Perform, Listed, Compact, Reload;
    if calls != [] {
      var c := calls[0];
      if c.Register? && !Listed(l.allowed, c.h) {
        MirrorRegister(l, c.h, c.now);
      } else {
        OthersLeaveAllowed(l, c);
      }
      AllowedStaysMirrored(Perform(l, c), calls[1..]);
    }
  }

  /** Every slot of the banned array is blank or names the list entry of the same index. Entries the
      retry limit put there have a blank slot: that ban is not written. */
  ghost predicate BannedMirrored(l: Lists)
  {
    forall i | 0 <= i < |l.odbBanned| ::
      l.odbBanned[i] == "" || (i < |l.banned| && l.odbBanned[i] == l.banned[i].HostName)
  }

  lemma {:induction false} BannedStaysMirrored(l: Lists, calls: seq<Call>)
    requires BannedMirrored(l)
    ensures BannedMirrored(After(l, calls))
    decreases |calls|
  {
    if calls != [] {
      BannedStaysMirrored(Perform(l, calls[0]), calls[1..]);
    }
  }

  /** The contact by which the retry limit bans a host. */
  predicate RetryBans(l: Lists, c: Call)
  {
    && c.Arrive? && !Listed(l.allowed, c.h) && !Listed(l.banned, c.h) && l.selfRegistration
    && var i := FirstMatch(l.questionable, c.h);
       i < |l.questionable| && l.questionable[i].RejectionCount > RETRY_LIMIT
  }

  /** No call of the run is such a contact in the state it meets. */
  predicate NoRetryBan(l: Lists, calls: seq<Call>)
    decreases |calls|
  {
    calls == [] || (!RetryBans(l, calls[0]) && NoRetryBan(Perform(l, calls[0]), calls[1..]))
  }

  /** That contact leaves the ODB untouched, so a restart forgets the ban: no list loaded from the array
      names the host. */
  lemma RetryBanIsNotWritten(l: Lists, h: cstring, now: real)
    requires RetryBans(l, Arrive(h, now))
    ensures var l' := Contact(l, h, now).0;
            && Listed(l'.banned, h)
            && l'.odbBanned == l.odbBanned && |l'.banned| == |l.banned| + 1
            && (Reload(l.odbBanned) == Names(l.banned) ==>
                  forall hosts | Names(hosts) == Reload(l'.odbBanned) :: !Listed(hosts, h))
  {
    var e := FirstEntry(l.questionable, h).value;
    FirstEntryAppend(l.banned, e, h);
    forall hosts | Names(hosts) == Names(l.banned) ensures !Listed(hosts, h) {
      SameNamesSameListing(hosts, l.banned, h);
    }
  }

  lemma SameNamesSameListing(a: seq<Host>, b: seq<Host>, h: cstring)
    requires Names(a) == Names(b)
    ensures FirstMatch(a, h) == FirstMatch(b, h)
  {
    forall i | 0 <= i < |a| ensures a[i].HostName == b[i].HostName {
      assert Names(a)[i] == Names(b)[i];
    }
    FirstMatchIs(a, h, FirstMatch(b, h));
  }

  /** The banned array reloads to the banned list, with no blank between its names. */
  ghost predicate BannedCopied(l: Lists)
  {
    Compact(l.odbBanned) && Reload(l.odbBanned) == Names(l.banned)
  }

  /** An entry of the list that the array does not hold, and never will: later bans go behind it. */
  ghost predicate Skipped(l: Lists, i: nat)
  {
    i < |l.banned| && (i < |l.odbBanned| ==> l.odbBanned[i] == "") && BannedMirrored(l)
  }

  lemma CopiedIsMirrored(l: Lists)
    requires BannedCopied(l)
    ensures BannedMirrored(l) && forall k | |l.banned| <= k < |l.odbBanned| :: l.odbBanned[k] == ""
  {
    CompactReload(l.odbBanned);
    BlankTail(l.odbBanned);
    assert forall i | 0 <= i < |l.banned| :: l.odbBanned[i] == Names(l.banned)[i];
  }

  lemma CopyBlacklist(l: Lists, h: cstring, now: real)
    requires BannedCopied(l) && !Listed(l.banned, h) && (l.banned != [] || h != "")
    ensures var l' := Perform(l, Blacklist(h, now)); BannedCopied(l') && l'.banned != []
  {
    BlankIsListed(l.banned);
    CompactReload(l.odbBanned);
    AppendToCompact(l.odbBanned, h);
    assert Names(Perform(l, Blacklist(h, now)).banned) == Names(l.banned) + [h];
  }

  lemma OthersLeaveBanned(l: Lists, c: Call)
    requires !RetryBans(l, c) && (!c.Blacklist? || Listed(l.banned, c.h))
    ensures Names(Perform(l, c).banned) == Names(l.banned) && Perform(l, c).odbBanned == l.odbBanned
  {
  }

  lemma CopyStep(l: Lists, c: Call)
    requires BannedCopied(l) && !RetryBans(l, c) && (l.banned != [] || (c.Blacklist? ==> c.h != ""))
    ensures BannedCopied(Perform(l, c)) && (l.banned != [] ==> Perform(l, c).banned != [])
  {
    hide Perform, RetryBans, Listed;
    if c.Blacklist? && !Listed(l.banned, c.h) {
      CopyBlacklist(l, c.h, c.now);
    } else {
      OthersLeaveBanned(l, c);
      assert |Names(Perform(l, c).banned)| == |Names(l.banned)|;
    }
  }

  lemma SkipStarts(l: Lists, c: Call)
    requires BannedCopied(l) && RetryBans(l, c)
    ensures Skipped(Perform(l, c), |l.banned|)
  {
    CopiedIsMirrored(l);
  }

  lemma SkipStays(l: Lists, c: Call, i: nat)
    requires Skipped(l, i)
    ensures Skipped(Perform(l, c), i)
  {
    assert BannedMirrored(Perform(l, c)) by {
      BannedStaysMirrored(l, [c]);
      assert After(l, [c]) == Perform(l, c) by {
        assert [c][1..] == [];
      }
    }
  }

  lemma {:induction false} SkipIsForGood(l: Lists, calls: seq<Call>, i: nat)
    requires Skipped(l, i)
    ensures Skipped(After(l, calls), i)
    decreases |calls|
  {
    hide Perform, Skipped;
    if calls != [] {
      SkipStays(l, calls[0], i);
      SkipIsForGood(Perform(l, calls[0]), calls[1..], i);
    }
  }

  /** With an entry skipped, the array reloads to fewer names than the list has. */
  lemma SkippedIsNotCopied(l: Lists, i: nat)
    requires Skipped(l, i)
    ensures |Reload(l.odbBanned)| < |l.banned|
  {
    var odb, n := l.odbBanned, |l.banned|;
    if i < |odb| {
      var m := if n < |odb| then n else |odb|;
      assert odb == odb[..i] + (odb[i..i + 1] + (odb[i + 1..m] + odb[m..]));
      ReloadConcat(odb[..i], odb[i..i + 1] + (odb[i + 1..m] + odb[m..]));
      ReloadConcat(odb[i..i + 1], odb[i + 1..m] + odb[m..]);
      ReloadConcat(odb[i + 1..m], odb[m..]);
      ReloadBlanks(odb[i..i + 1]);
      ReloadBlanks(odb[m..]);
    }
  }

  /** Over every run the banned array stays a copy of the list exactly when no contact of the run is one by
      which the retry limit bans a host. */
  lemma {:induction false} BannedStaysCopiedIff(l: Lists, calls: seq<Call>)
    requires BannedCopied(l) && (l.banned != [] || NamesGiven(calls))
    ensures Reload(After(l, calls).odbBanned) == Names(After(l, calls).banned) <==> NoRetryBan(l, calls)
    ensures NoRetryBan(l, calls) ==> BannedCopied(After(l, calls))
    decreases |calls|
  {
    hide Perform, RetryBans, Skipped;
    if calls != [] {
      if RetryBans(l, calls[0]) {
        SkipStarts(l, calls[0]);
        SkipIsForGood(Perform(l, calls[0]), calls[1..], |l.banned|);
        SkippedIsNotCopied(After(l, calls), |l.banned|);
        assert |Names(After(l, calls).banned)| == |After(l, calls).banned|;
      } else {
        CopyStep(l, calls[0]);
        BannedStaysCopiedIff(Perform(l, calls[0]), calls[1..]);
      }
    }
  }
}
