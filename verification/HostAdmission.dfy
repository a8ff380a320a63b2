/** src/AllowedHosts.cxx: the allowed, questionable and banned lists, and the copy of two of them in
    the online database (ODB). */
module HostAdmission {
  import opened CStrings
  import opened HostPattern

  const COOL_DOWN_TIME: real := 1000.0   // milliseconds
  const RETRY_LIMIT: int := 10

  datatype Host = Host(HostName: cstring, RejectionCount: int, LastContact: real)

  /** Everything the class holds. The two ODB arrays are part of it. */
  datatype Lists = Lists(
    allowed: seq<Host>,
    questionable: seq<Host>,
    banned: seq<Host>,
    selfRegistration: bool,
    odbAllowed: seq<cstring>,
    odbBanned: seq<cstring>)

  // ---------- list look-up ----------

  /** Index of the first entry that matches `h`, or the length of the list. */
  function FirstMatch(hosts: seq<Host>, h: cstring): (i: nat)
    ensures i <= |hosts|
    ensures forall k | 0 <= k < i :: !Matches(hosts[k].HostName, h)
    ensures i < |hosts| ==> Matches(hosts[i].HostName, h)
  {
    if hosts == [] || Matches(hosts[0].HostName, h) then 0
    else 1 + FirstMatch(hosts[1..], h)
  }

  predicate Listed(hosts: seq<Host>, h: cstring)
  {
    FirstMatch(hosts, h) < |hosts|
  }

  lemma FirstMatchIs(hosts: seq<Host>, h: cstring, i: nat)
    requires i <= |hosts|
    requires forall k | 0 <= k < i :: !Matches(hosts[k].HostName, h)
    requires i < |hosts| ==> Matches(hosts[i].HostName, h)
    ensures FirstMatch(hosts, h) == i
  {
  }

  /** `std::list::remove`: every entry with that name goes. */
  function Without(hosts: seq<Host>, name: cstring): (r: seq<Host>)
    ensures forall e :: e in r <==> e in hosts && e.HostName != name
  {
    if hosts == [] then []
    else if hosts[0].HostName == name then Without(hosts[1..], name)
    else [hosts[0]] + Without(hosts[1..], name)
  }

  /** What remains keeps its order and its number. */
  lemma {:induction false} WithoutConcat(a: seq<Host>, b: seq<Host>, name: cstring)
    ensures Without(a + b, name) == Without(a, name) + Without(b, name)
  {
    hide Without;
    if a == [] {
      WithoutNone(name);
      assert a + b == b;
      assert [] + Without(b, name) == Without(b, name);
    } else {
      var rest := a[1..];
      WithoutConcat(rest, b, name);
      WithoutFirst(a[0], rest + b, name);
      WithoutFirst(a[0], rest, name);
      Associates([a[0]], rest, b);
      Associates([a[0]], Without(rest, name), Without(b, name));
      assert [a[0]] + rest == a;
    }
  }

  lemma Associates(x: seq<Host>, y: seq<Host>, z: seq<Host>)
    ensures x + (y + z) == (x + y) + z
  {
  }

  lemma WithoutNone(name: cstring)
    ensures Without([], name) == []
  {
  }

  lemma WithoutFirst(e: Host, a: seq<Host>, name: cstring)
    ensures Without([e] + a, name) == if e.HostName == name then Without(a, name) else [e] + Without(a, name)
  {
    assert ([e] + a)[1..] == a;
  }

  // ---------- the ODB string arrays ----------

  function Blanks(n: nat): (r: seq<cstring>)
    ensures |r| == n && forall i | 0 <= i < n :: r[i] == ""
  {
    seq(n, i => "")
  }

  /** Writing one element of an ODB string array; the array grows with blanks when it is too short. */
  function WriteIndex(odb: seq<cstring>, i: nat, s: cstring): (r: seq<cstring>)
    ensures i < |r| && r[i] == s
    ensures |r| == if i < |odb| then |odb| else i + 1
    ensures forall k | 0 <= k < |r| && k != i :: r[k] == if k < |odb| then odb[k] else ""
  {
    if i < |odb| then odb[i := s] else odb + Blanks(i - |odb|) + [s]
  }

  /** What the constructor loads from an ODB array: its non-blank elements. */
  function Reload(odb: seq<cstring>): (r: seq<cstring>)
    ensures |r| <= |odb| && "" !in r
  {
    if odb == [] then []
    else if odb[0] == "" then Reload(odb[1..])
    else [odb[0]] + Reload(odb[1..])
  }

  function Names(hosts: seq<Host>): (r: seq<cstring>)
    ensures |r| == |hosts| && forall i | 0 <= i < |r| :: r[i] == hosts[i].HostName
  {
    seq(|hosts|, i requires 0 <= i < |hosts| => hosts[i].HostName)
  }

  // ---------- the operations as functions ----------

  /** The step of `IsListedAsQuestionable`, and its answer. An entry over the retry limit is moved to
      the banned list by the very contact that finds it there, and that contact can still be let in. */
  function Question(l: Lists, h: cstring, now: real): (Lists, bool)
  {
    var i := FirstMatch(l.questionable, h);
    if i == |l.questionable| then
      (l.(questionable := l.questionable + [Host(h, 0, now)]), true)
    else
      var e := l.questionable[i];
      var cooled := now - e.LastContact > COOL_DOWN_TIME;
      if e.RejectionCount > RETRY_LIMIT then
        (l.(banned := l.banned + [e], questionable := Without(l.questionable, e.HostName)), cooled)
      else if cooled then
        (l.(questionable := l.questionable[i := Host(e.HostName, e.RejectionCount + 1, now)]), true)
      else
        (l, false)
  }

  function Contact(l: Lists, h: cstring, now: real): (Lists, bool)
  {
    if Listed(l.allowed, h) then (l, true)
    else if Listed(l.banned, h) || !l.selfRegistration then (l, false)
    else Question(l, h, now)
  }

  function Add(l: Lists, h: cstring, now: real): (Lists, bool)
  {
    if Listed(l.allowed, h) then (l, false)
    else (l.(allowed := l.allowed + [Host(h, 0, now)],
             odbAllowed := WriteIndex(l.odbAllowed, |l.allowed|, h)), true)
  }

  function Ban(l: Lists, h: cstring, now: real): (Lists, bool)
  {
    if Listed(l.banned, h) then (l, false)
    else (l.(banned := l.banned + [Host(h, 0, now)],
             odbBanned := WriteIndex(l.odbBanned, |l.banned|, h)), true)
  }

  datatype RejectionMessage = Silent | Rejecting | RejectingLastTime

  function CountRejection(l: Lists, h: cstring): (Lists, RejectionMessage)
  {
    var i := FirstMatch(l.banned, h);
    if i == |l.banned| then (l, Silent)
    else
      var e := l.banned[i];
      (l.(banned := l.banned[i := e.(RejectionCount := e.RejectionCount + 1)]),
       if e.RejectionCount < 2 * RETRY_LIMIT then Rejecting
       else if e.RejectionCount == 2 * RETRY_LIMIT then RejectingLastTime
       else Silent)
  }

  // ---------- the class ----------

  class AllowedHosts {
    var allowed_hosts: seq<Host>
    var questionable_hosts: seq<Host>
    var banned_hosts: seq<Host>
    var allow_self_registration: bool
    var odbAllowed: seq<cstring>
    var odbBanned: seq<cstring>

    ghost function Value(): Lists
      reads this
    {
      Lists(allowed_hosts, questionable_hosts, banned_hosts, allow_self_registration, odbAllowed, odbBanned)
    }

    /** Loads the lists the ODB holds and leaves room for ten more names in each. */
    constructor (selfRegistration: bool, allowedInOdb: seq<cstring>, bannedInOdb: seq<cstring>, now: real)
      ensures Names(allowed_hosts) == Reload(allowedInOdb) == Reload(odbAllowed)
      ensures Names(banned_hosts) == Reload(bannedInOdb) == Reload(odbBanned)
      ensures questionable_hosts == [] && allow_self_registration == selfRegistration
      ensures allowedInOdb <= odbAllowed && |odbAllowed| >= |allowed_hosts| + 10
      ensures bannedInOdb <= odbBanned && |odbBanned| >= |banned_hosts| + 10
    {
      questionable_hosts := [];
      allow_self_registration := selfRegistration;
      new;
      allowed_hosts := LoadList(allowedInOdb, now);
      odbAllowed := allowedInOdb;
      if |odbAllowed| < |allowed_hosts| + 10 {
        odbAllowed := WriteIndex(odbAllowed, |allowed_hosts| + 10, "");
        BlanksAreNotLoaded(allowedInOdb, odbAllowed);
      }
      banned_hosts := LoadList(bannedInOdb, now);
      odbBanned := bannedInOdb;
      if |odbBanned| < |banned_hosts| + 10 {
        odbBanned := WriteIndex(odbBanned, |banned_hosts| + 10, "");
        BlanksAreNotLoaded(bannedInOdb, odbBanned);
      }
    }

    static method LoadList(list: seq<cstring>, now: real) returns (hosts: seq<Host>)
      ensures Names(hosts) == Reload(list)
    {
      hosts := [];
      for i := 0 to |list|
        invariant Names(hosts) == Reload(list[..i])
      {
        ReloadAppend(list[..i], list[i]);
        assert list[..i + 1] == list[..i] + [list[i]];
        if |list[i]| != 0 {
          hosts := hosts + [Host(list[i], 0, now)];
        }
      }
      assert list[..|list|] == list;
    }

    method IsListedAsAllowed(hostname: cstring) returns (found: bool)
      ensures found == Listed(allowed_hosts, hostname)
    {
      for i := 0 to |allowed_hosts|
        invariant forall k | 0 <= k < i :: !Matches(allowed_hosts[k].HostName, hostname)
      {
        var same := EqualsHostname(allowed_hosts[i].HostName, hostname);
        if same {
          return true;
        }
      }
      return false;
    }

    method IsListedAsBanned(hostname: cstring) returns (found: bool)
      ensures found == Listed(banned_hosts, hostname)
    {
      if |banned_hosts| == 0 {
        return false;
      }
      for i := 0 to |banned_hosts|
        invariant forall k | 0 <= k < i :: !Matches(banned_hosts[k].HostName, hostname)
      {
        var same := EqualsHostname(banned_hosts[i].HostName, hostname);
        if same {
          return true;
        }
      }
      return false;
    }

    method IsListedAsQuestionable(hostname: cstring, now: real) returns (admitted: bool)
      modifies this
      ensures (Value(), admitted) == Question(old(Value()), hostname, now)
    {
      for i := 0 to |questionable_hosts|
        invariant Value() == old(Value())
        invariant forall k | 0 <= k < i :: !Matches(questionable_hosts[k].HostName, hostname)
      {
        var host := questionable_hosts[i];
        var same := EqualsHostname(host.HostName, hostname);
        if same {
          FirstMatchIs(questionable_hosts, hostname, i);
          var overLimit := host.RejectionCount > RETRY_LIMIT;
          if overLimit {
            banned_hosts := banned_hosts + [host];
            questionable_hosts := Without(questionable_hosts, host.HostName);
          }
          if now - host.LastContact > COOL_DOWN_TIME {
            if !overLimit {
              host := Host(host.HostName, host.RejectionCount + 1, now);
              questionable_hosts := questionable_hosts[i := host];
            }
            return true;
          } else {
            return false;
          }
        }
      }
      questionable_hosts := questionable_hosts + [Host(hostname, 0, now)];
      return true;
    }

    method IsAllowed(hostname: cstring, now: real) returns (admitted: bool)
      modifies this
      ensures (Value(), admitted) == Contact(old(Value()), hostname, now)
    {
      var listed := IsListedAsAllowed(hostname);
      if listed {
        return true;
      }
      listed := IsListedAsBanned(hostname);
      if listed {
        return false;
      }
      if !allow_self_registration {
        return false;
      }
      admitted := IsListedAsQuestionable(hostname, now);
    }

    method AddHost(hostname: cstring, now: real) returns (added: bool)
      modifies this
      ensures (Value(), added) == Add(old(Value()), hostname, now)
    {
      var listed := IsListedAsAllowed(hostname);
      if !listed {
        allowed_hosts := allowed_hosts + [Host(hostname, 0, now)];
        odbAllowed := WriteIndex(odbAllowed, |allowed_hosts| - 1, hostname);
        return true;
      }
      return false;
    }

    method BanHost(hostname: cstring, now: real) returns (added: bool)
      modifies this
      ensures (Value(), added) == Ban(old(Value()), hostname, now)
    {
      var listed := IsListedAsBanned(hostname);
      if !listed {
        banned_hosts := banned_hosts + [Host(hostname, 0, now)];
        odbBanned := WriteIndex(odbBanned, |banned_hosts| - 1, hostname);
        return true;
      }
      return false;
    }

    method PrintRejection(hostname: cstring) returns (message: RejectionMessage)
      modifies this
      ensures (Value(), message) == CountRejection(old(Value()), hostname)
    {
      message := Silent;
      for i := 0 to |banned_hosts|
        invariant Value() == old(Value()) && message == Silent
        invariant forall k | 0 <= k < i :: !Matches(banned_hosts[k].HostName, hostname)
      {
        var host := banned_hosts[i];
        var same := EqualsHostname(host.HostName, hostname);
        if same {
          FirstMatchIs(banned_hosts, hostname, i);
          if host.RejectionCount < 2 * RETRY_LIMIT {
            message := Rejecting;
          }
          if host.RejectionCount == 2 * RETRY_LIMIT {
            message := RejectingLastTime;
          }
          banned_hosts := banned_hosts[i := host.(RejectionCount := host.RejectionCount + 1)];
          return;
        }
      }
    }
  }

  // ---------- the ODB arrays as a copy of the lists ----------

  lemma {:induction false} ReloadConcat(a: seq<cstring>, b: seq<cstring>)
    ensures Reload(a + b) == Reload(a) + Reload(b)
  {
    if a == [] {
      assert a + b == b;
    } else {
      assert (a + b)[1..] == a[1..] + b;
      ReloadConcat(a[1..], b);
    }
  }

  lemma ReloadAppend(a: seq<cstring>, s: cstring)
    ensures Reload(a + [s]) == if s == "" then Reload(a) else Reload(a) + [s]
  {
    ReloadConcat(a, [s]);
  }

  lemma {:induction false} ReloadBlanks(a: seq<cstring>)
    requires forall i | 0 <= i < |a| :: a[i] == ""
    ensures Reload(a) == []
  {
    if a != [] {
      ReloadBlanks(a[1..]);
    }
  }

  lemma BlanksAreNotLoaded(a: seq<cstring>, b: seq<cstring>)
    requires a <= b && forall i | |a| <= i < |b| :: b[i] == ""
    ensures Reload(b) == Reload(a)
  {
    assert b == a + b[|a|..];
    ReloadConcat(a, b[|a|..]);
    ReloadBlanks(b[|a|..]);
  }

  /** No blank stands before a name. */
  predicate Compact(odb: seq<cstring>)
  {
    forall i, j | 0 <= i < j < |odb| && odb[i] == "" :: odb[j] == ""
  }

  lemma {:induction false} CompactReload(odb: seq<cstring>)
    ensures Compact(odb) <==> Reload(odb) <= odb
  {
    if odb != [] {
      CompactReload(odb[1..]);
      if odb[0] == "" {
        if Compact(odb) {
          ReloadBlanks(odb);
        }
        if Reload(odb) <= odb {
          assert forall r: seq<cstring> | r <= odb && r != [] :: r[0] == "" && "" in r;
          NothingLoaded(odb);
        }
      } else {
        assert Reload(odb) == [odb[0]] + Reload(odb[1..]);
        assert odb == [odb[0]] + odb[1..];
        assert Reload(odb) <= odb <==> Reload(odb[1..]) <= odb[1..];
        assert Compact(odb) <==> Compact(odb[1..]) by {
          if Compact(odb[1..]) {
            forall i, j | 0 <= i < j < |odb| && odb[i] == "" ensures odb[j] == "" {
              assert odb[1..][i - 1] == odb[i] && odb[1..][j - 1] == odb[j];
            }
          }
        }
      }
    }
  }

  lemma {:induction false} NothingLoaded(odb: seq<cstring>)
    requires Reload(odb) == []
    ensures forall i | 0 <= i < |odb| :: odb[i] == ""
  {
    if odb != [] {
      NothingLoaded(odb[1..]);
      forall i | 0 <= i < |odb| ensures odb[i] == "" {
        if i > 0 {
          assert odb[i] == odb[1..][i - 1];
        }
      }
    }
  }

  lemma NameLoaded(odb: seq<cstring>, i: nat)
    requires i < |odb| && odb[i] != ""
    ensures Reload(odb) == Reload(odb[..i]) + [odb[i]] + Reload(odb[i + 1..])
  {
    hide Reload;
    var front := odb[..i + 1];
    assert odb == front + odb[i + 1..];
    ReloadConcat(front, odb[i + 1..]);
    assert front == odb[..i] + [odb[i]];
    ReloadAppend(odb[..i], odb[i]);
  }

  /** Writing a new name at the index the class uses, the number of names it has loaded, extends what a
      reload would give by that name exactly when no blank stands before a name in the array. With
      such a blank the write overwrites a name or lands among the others. */
  lemma AppendedNameReloadsIff(odb: seq<cstring>, s: cstring)
    requires s != "" && s !in Reload(odb)
    ensures Reload(WriteIndex(odb, |Reload(odb)|, s)) == Reload(odb) + [s] <==> Compact(odb)
  {
    CompactReload(odb);
    if Compact(odb) {
      AppendToCompact(odb, s);
    }
    if Reload(WriteIndex(odb, |Reload(odb)|, s)) == Reload(odb) + [s] {
      AppendedOnlyToCompact(odb, s);
    }
  }

  lemma AppendToCompact(odb: seq<cstring>, s: cstring)
    requires s != "" && Reload(odb) <= odb
    ensures Reload(WriteIndex(odb, |Reload(odb)|, s)) == Reload(odb) + [s]
    ensures Compact(WriteIndex(odb, |Reload(odb)|, s))
  {
    var n := |Reload(odb)|;
    var odb' := WriteIndex(odb, n, s);
    NameLoaded(odb', n);
    BlankTail(odb);
    assert odb'[..n] == odb[..n];
    ReloadBlanks(odb'[n + 1..]);
    CompactReload(odb');
  }

  lemma AppendedOnlyToCompact(odb: seq<cstring>, s: cstring)
    requires s != "" && s !in Reload(odb)
    requires Reload(WriteIndex(odb, |Reload(odb)|, s)) == Reload(odb) + [s]
    ensures Reload(odb) <= odb
  {
    var n := |Reload(odb)|;
    var odb' := WriteIndex(odb, n, s);
    NameLoaded(odb', n);
    LastIsOnly(Reload(odb'[..n]), Reload(odb'[n + 1..]), Reload(odb), s);
    FullyLoaded(odb'[..n]);
    assert odb[..n] == odb'[..n];
  }

  lemma LastIsOnly<T>(x: seq<T>, y: seq<T>, r: seq<T>, s: T)
    requires x + [s] + y == r + [s] && s !in r
    ensures x == r
  {
    assert (x + [s] + y)[|x|] == s;
    assert forall k | 0 <= k < |r| :: (r + [s])[k] == r[k];
    assert (r + [s])[..|r|] == r;
    assert (x + [s] + y)[..|x|] == x;
  }

  /** A compact array holds its names first and nothing but blanks after them. */
  lemma BlankTail(odb: seq<cstring>)
    requires Reload(odb) <= odb
    ensures forall i | |Reload(odb)| <= i < |odb| :: odb[i] == ""
    ensures Reload(odb[..|Reload(odb)|]) == Reload(odb)
  {
    var n := |Reload(odb)|;
    assert odb == odb[..n] + odb[n..];
    ReloadConcat(odb[..n], odb[n..]);
    NamesReload(odb[..n]);
    NothingLoaded(odb[n..]);
    forall i | n <= i < |odb| ensures odb[i] == "" {
      assert odb[i] == odb[n..][i - n];
    }
  }

  lemma {:induction false} NamesReload(a: seq<cstring>)
    requires "" !in a
    ensures Reload(a) == a
  {
    if a != [] {
      NamesReload(a[1..]);
    }
  }

  lemma {:induction false} FullyLoaded(a: seq<cstring>)
    requires |Reload(a)| == |a|
    ensures Reload(a) == a
  {
    if a != [] {
      FullyLoaded(a[1..]);
    }
  }
}
