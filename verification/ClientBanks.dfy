/** What a worker does with the banks a client packs: src/feGEMClass.cxx:112-553. */
module ClientBanks {
  import opened CStrings
  import opened GemBank
  import opened BankNames
  import opened Throttle
  import opened HistoryLogger
  import opened HistoryRuns
  import opened FrontEnd
  import opened ClientBytes

  // ---------- types ----------

  lemma Three(t: seq<octet>, word: string)
    requires |t| == 4 && |word| == 3
    ensures SameUpTo(t, word, 3) <==> t[..3] == word
    ensures t[..3] == word <==> t[0] == word[0] && t[1] == word[1] && t[2] == word[2]
  {
  }

  lemma Four(t: seq<octet>, word: string)
    requires |t| == 4 && |word| == 4
    ensures SameUpTo(t, word, 4) <==> t == word
    ensures t == word <==> t[0] == word[0] && t[1] == word[1] && t[2] == word[2] && t[3] == word[3]
  {
    assert t[..4] == t && word[..4] == word;
  }

  lemma ThreeAndNul(t: seq<octet>, word: string)
    requires |t| == 4 && |word| == 3
    ensures SameUpTo(t, word, 4) <==> t == word + [NUL]
    ensures t == word + [NUL] <==> t[0] == word[0] && t[1] == word[1] && t[2] == word[2] && t[3] == NUL
  {
  }

  /** The type of a bank is decided by the first characters of its tag. Only "U32", "BOOL", "STRA" and "FILE" are
      compared over all four. */
  lemma KindByTag(t: seq<octet>)
    requires |t| == 4
    ensures KindOfType(t) == Dbl <==> t[..3] == "DBL"
    ensures KindOfType(t) == Flt <==> t[..3] == "FLT"
    ensures KindOfType(t) == Bool <==> t == "BOOL"
    ensures KindOfType(t) == I32 <==> t[..3] == "I32"
    ensures KindOfType(t) == U32k <==> t == "U32" + [NUL]
    ensures KindOfType(t) == U16k <==> t[..3] == "U16"
    ensures KindOfType(t) == StrArray <==> t == "STRA"
    ensures KindOfType(t) == Str <==> t[..3] == "STR" && t[3] != 'A'
    ensures KindOfType(t) == FileKind <==> t == "FILE"
    ensures KindOfType(t) == Unknown <==>
            t[..3] !in ["DBL", "FLT", "I32", "U16", "STR"] && t !in ["BOOL", "FILE", "U32" + [NUL]]
  {
    hide SameUpTo;
    Three(t, "DBL");
    Three(t, "FLT");
    Three(t, "I32");
    Three(t, "U16");
    Three(t, "STR");
    Four(t, "BOOL");
    Four(t, "STRA");
    Four(t, "FILE");
    ThreeAndNul(t, "U32");
  }

  // ---------- routes ----------

  lemma PrefixCompared(field: seq<octet>, word: string)
    requires |word| <= |field|
    ensures SameUpTo(field, word, |word|) <==> word <= field
  {
  }

  lemma TerminatedCompared(field: seq<octet>, word: string, n: nat)
    requires |word| < n <= |field|
    ensures SameUpTo(field, word, n) <==> word + [NUL] <= field
  {
    assert field[..|word| + 1] == field[..|word|] + [field[|word|]];
    assert (word + [NUL])[..|word|] == word && (word + [NUL])[|word|] == NUL;
  }

  lemma StringRouteByTitle(b: seq<octet>)
    requires |b| >= 88
    ensures var category, name := b[8..24], b[24..40];
            StringRoute(b) ==
              if "COMMAND" <= name then Commands
              else if "TALK" <= name then Talk
              else if "CLIENT_INFO" + [NUL] <= category then ClientInfo
              else if "ELOG" <= category then Elog
              else if "SETTINGS_FILE" <= category && "SAVE" <= name then SaveSettings
              else if "SETTINGS_FILE" <= category && "LOAD" <= name then LoadSettings
              else if "SETTINGS_FILE" <= category && "LIST" <= name then ListSettings
              else ToHistory
  {
    hide SameUpTo;
    var category, name := b[8..24], b[24..40];
    PrefixCompared(name, "COMMAND");
    PrefixCompared(name, "TALK");
    PrefixCompared(name, "SAVE");
    PrefixCompared(name, "LOAD");
    PrefixCompared(name, "LIST");
    PrefixCompared(category, "ELOG");
    PrefixCompared(category, "SETTINGS_FILE");
    TerminatedCompared(category, "CLIENT_INFO", 14);
  }

  /** Where a worker sends a bank, by its type, and for a text by category and name. */
  lemma RouteByTitle(b: seq<octet>)
    requires |b| >= 88
    ensures var tag := b[4..8];
            RouteOf(b) ==
              if tag == "STRA" then ToStrArray
              else if tag == "FILE" then ToFile
              else if tag[..3] == "STR" then StringRoute(b)
              else ToHistory
  {
    hide KindOfType, StringRoute;
    var tag := b[4..8];
    KindByTag(tag);
    assert tag == tag[..3] + [tag[3]];
  }

  // ---------- commands ----------

  /** A number as a client writes it. */
  function Printed(n: int): (s: seq<octet>)
    ensures s != "" && forall c | c in s :: c == '-' || '0' <= c <= '9'
  {
    if n < 0 then "-" + Decimal(-n) else Decimal(n)
  }

  lemma {:induction false} DigitsAppend(s: string, d: nat, value: int)
    requires d < 10 && forall i | 0 <= i < |s| :: '0' <= s[i] <= '9'
    ensures Digits(s + [DecimalDigit(d)], value) == 10 * Digits(s, value) + d
  {
    if s == "" {
      assert (s + [DecimalDigit(d)])[1..] == "";
    } else {
      assert (s + [DecimalDigit(d)])[1..] == s[1..] + [DecimalDigit(d)];
      DigitsAppend(s[1..], d, 10 * value + (s[0] as int - '0' as int));
    }
  }

  lemma {:induction false} DecimalReads(n: nat)
    ensures Digits(Decimal(n), 0) == n
  {
    if n < 10 {
      assert Decimal(n)[1..] == "";
    } else {
      DecimalReads(n / 10);
      assert forall i | 0 <= i < |Decimal(n / 10)| :: Decimal(n / 10)[i] in Decimal(n / 10);
      DigitsAppend(Decimal(n / 10), n % 10, 0);
    }
  }

  /** atoi reads the number a client has written. */
  lemma AtoiReads(n: int)
    ensures Atoi(Printed(n)) == n
  {
    hide Decimal;
    if n < 0 {
      DecimalReads(-n);
      assert Printed(n)[1..] == Decimal(-n);
    } else {
      DecimalReads(n);
      assert Decimal(n)[0] in Decimal(n);
    }
  }

  /** Blank, tab, line feed, vertical tab, form feed, carriage return: by their codes. */
  predicate IsSpace(c: char)
  {
    c as int == 32 || 9 <= c as int <= 13
  }

  predicate StartsWithDigit(s: string)
  {
    s != "" && 48 <= s[0] as int <= 57
  }

  lemma {:induction false} DigitsStop(s: string, junk: string, value: int)
    requires (forall i | 0 <= i < |s| :: '0' <= s[i] <= '9') && !StartsWithDigit(junk)
    ensures Digits(s + junk, value) == Digits(s, value)
  {
    if s == "" {
      assert s + junk == junk;
    } else {
      assert (s + junk)[1..] == s[1..] + junk;
      DigitsStop(s[1..], junk, 10 * value + (s[0] as int - '0' as int));
    }
  }

  /** It skips spaces and a plus in front of the digits, and stops behind them. */
  lemma {:induction false} AtoiReadsText(spaces: string, plus: bool, n: nat, junk: string)
    requires (forall i | 0 <= i < |spaces| :: IsSpace(spaces[i])) && !StartsWithDigit(junk)
    ensures Atoi(spaces + ((if plus then "+" else "") + (Decimal(n) + junk))) == n
  {
    hide Decimal;
    var text := (if plus then "+" else "") + (Decimal(n) + junk);
    if spaces == "" {
      assert spaces + text == text;
      assert Decimal(n)[0] in Decimal(n);
      assert forall i | 0 <= i < |Decimal(n)| :: Decimal(n)[i] in Decimal(n);
      DecimalReads(n);
      DigitsStop(Decimal(n), junk, 0);
      if plus {
        assert text[1..] == Decimal(n) + junk;
      } else {
        assert text == Decimal(n) + junk && text[0] == Decimal(n)[0];
      }
    } else {
      assert (spaces + text)[1..] == spaces[1..] + text;
      AtoiReadsText(spaces[1..], plus, n, junk);
    }
  }

  /** A text without a number asks for zero. */
  lemma AtoiReadsNothing(text: string)
    requires !StartsWithDigit(text) && (text != "" ==> !IsSpace(text[0]) && text[0] != '+' && text[0] != '-')
    ensures Atoi(text) == 0
  {
  }

  /** A command to a worker: in the equipment field, with a text in each sample. */
  ghost predicate CommandPacket(p: Packet, command: string)
  {
    && Named(p) && p.tag == "STR" && p.variable == "COMMAND" && p.equipment == command
    && forall i | 0 <= i < |p.samples| :: NUL in p.samples[i].data
  }

  /** The texts are these numbers. */
  ghost predicate Asks(p: Packet, ns: seq<int>)
  {
    && |ns| == |p.samples|
    && forall i | 0 <= i < |ns| ::
         |Printed(ns[i])| < |p.samples[i].data| && p.samples[i].data == Padded(Printed(ns[i]), |p.samples[i].data|)
  }

  lemma FieldBegins(text: bytestring, size: nat, word: string)
    requires |text| <= size && |word| <= size && NUL !in word
    ensures word <= Padded(text, size) <==> word <= text
  {
    var field := Padded(text, size);
    if |word| <= |text| {
      assert field[..|word|] == text[..|word|];
    } else {
      assert field[|text|] == NUL;
      assert forall i | 0 <= i < |word| :: word[i] in word;
    }
  }

  lemma CommandRead(b: seq<octet>, p: Packet, word: string)
    requires Sendable(p) && |b| >= 88 && b[40..72] == Padded(p.equipment, 32)
    requires |word| <= 32 && NUL !in word
    ensures CommandIs(b, word, |word|) <==> word <= p.equipment
  {
    hide SameUpTo;
    PrefixCompared(b[40..72], word);
    FieldBegins(p.equipment, 32, word);
  }

  lemma TextReads(p: Packet, i: nat)
    requires Named(p) && i < |p.samples|
    ensures var b := PacketBytes(p);
            && Loggable(b) && i < NumberOfEntries(b) && Entry(b, i)[16..] == p.samples[i].data
  {
    hide PacketBytes, Stamp, Category, VariableName, EquipmentName, Loggable, IsBank;
    PacketReads(p);
    LoggableIs(PacketBytes(p));
    var e, x := Entries(PacketBytes(p))[i], p.samples[i];
    assert e == Stamp(x.time, p.timeOrder) + (x.fraction + x.data);
    assert e[16..] == x.data;
  }

  lemma LoggableIs(b: seq<octet>)
    requires Loggable(b)
    ensures IsBank(b) && NumberOfEntries(b) > 0 && BlockSize(b) >= 16
  {
  }

  /** What a command does to the settings, by its name. */
  lemma CommandByName(s: Settings, p: Packet, e: seq<octet>)
    requires Named(p) && |e| >= 16
    ensures var b := PacketBytes(p);
            |b| >= 88 && Command(s, b, e) ==
              if "ENABLE_DEBUG_MODE" <= p.equipment then Settings(s.eventSize, 1)
              else if "DISABLE_DEBUG_MODE" <= p.equipment then Settings(s.eventSize, 0)
              else if "SET_EVENT_SIZE" <= p.equipment
                then Settings(NewEventSize(s.eventSize, Atoi(CStr(e[16..]))), s.debugMode)
              else s
  {
    hide PacketBytes, CommandIs, NewEventSize, Atoi, Loggable, Category, VariableName, EquipmentName, Padded, CStr;
    var b := PacketBytes(p);
    PacketReads(p);
    LoggableIs(b);
    CommandRead(b, p, "ENABLE_DEBUG_MODE");
    CommandRead(b, p, "DISABLE_DEBUG_MODE");
    CommandRead(b, p, "SET_EVENT_SIZE");
  }

  /** The commands that only a supervisor takes. */
  predicate ForSupervisor(command: string)
  {
    "START_FRONTEND" <= command || "GIVE_ME_ADDRESS" <= command || "GIVE_ME_PORT" <= command
  }

  lemma TextPacketKind(p: Packet)
    requires Named(p) && p.tag == "STR"
    ensures Loggable(PacketBytes(p)) && PacketBytes(p)[4..7] == "STR"
    ensures KindOf(PacketBytes(p)) == Str && RouteOf(PacketBytes(p)) == StringRoute(PacketBytes(p))
  {
    hide PacketBytes, Loggable, KindOfType, StringRoute, Category, VariableName, EquipmentName, SameUpTo;
    var b := PacketBytes(p);
    PacketReads(p);
    LoggableIs(b);
    var tag := b[4..8];
    assert tag == "STR" + [NUL];
    assert tag[..3] == "STR" && tag[3] == NUL;
    KindByTag(tag);
  }

  lemma CommandPacketRoute(p: Packet, command: string)
    requires CommandPacket(p, command)
    ensures Loggable(PacketBytes(p)) && KindOf(PacketBytes(p)) == Str && RouteOf(PacketBytes(p)) == Commands
  {
    hide PacketBytes, Loggable, KindOfType, StringRoute, RouteOf, Category, VariableName, EquipmentName, Padded;
    PacketReads(p);
    LoggableIs(PacketBytes(p));
    TextPacketKind(p);
    StringRouteByTitle(PacketBytes(p));
    FieldBegins(p.variable, 16, "COMMAND");
  }

  lemma SupervisorCommandIff(p: Packet)
    requires Named(p)
    ensures Loggable(PacketBytes(p)) && |PacketBytes(p)| >= 88
    ensures SupervisorCommand(PacketBytes(p)) <==> ForSupervisor(p.equipment)
  {
    hide PacketBytes, CommandIs, Loggable, Category, VariableName, EquipmentName;
    var b := PacketBytes(p);
    PacketReads(p);
    LoggableIs(b);
    CommandRead(b, p, "START_FRONTEND");
    CommandRead(b, p, "GIVE_ME_ADDRESS");
    CommandRead(b, p, "GIVE_ME_PORT");
  }

  /** A command to a worker is well-formed, and is routed to the commands. */
  lemma CommandPacketIsTaken(p: Packet, command: string)
    requires CommandPacket(p, command) && !ForSupervisor(command)
    ensures WellFormed(PacketBytes(p)) && RouteOf(PacketBytes(p)) == Commands
    ensures BlockSize(PacketBytes(p)) == 16 + |p.samples[0].data| && NumberOfEntries(PacketBytes(p)) == |p.samples|
  {
    hide PacketBytes, Loggable, KindOf, RouteOf, SupervisorCommand, ForSupervisor, IsBank;
    var b := PacketBytes(p);
    CommandPacketRoute(p, command);
    SupervisorCommandIff(p);
    PacketSizes(p);
    forall i | 0 <= i < NumberOfEntries(b) ensures NUL in Entry(b, i)[16..] {
      TextReads(p, i);
    }
  }

  lemma PacketSizes(p: Packet)
    requires Named(p)
    ensures var b := PacketBytes(p);
            && Loggable(b) && IsBank(b)
            && BlockSize(b) == 16 + |p.samples[0].data| && NumberOfEntries(b) == |p.samples|
  {
    hide PacketBytes, Loggable, Category, VariableName, EquipmentName;
    PacketReads(p);
    LoggableIs(PacketBytes(p));
  }

  lemma NumberReads(p: Packet, ns: seq<int>, i: nat)
    requires Named(p) && Asks(p, ns) && i < |ns|
    ensures Loggable(PacketBytes(p)) && i < NumberOfEntries(PacketBytes(p))
    ensures Atoi(CStr(Entry(PacketBytes(p), i)[16..])) == ns[i]
  {
    hide PacketBytes, Printed, Atoi, Loggable;
    TextReads(p, i);
    AtoiReads(ns[i]);
    var text, data := Printed(ns[i]), p.samples[i].data;
    assert data[..|text|] == text && data[|text|] == NUL;
    CStrUnique(data, text);
  }

  /** The settings `r` are those of `s` but for the event size, and that is the largest of the old one, 10000 and
      the numbers asked for. */
  ghost predicate Enlarged(s: Settings, ns: seq<int>, r: Settings)
  {
    && r.debugMode == s.debugMode
    && r.eventSize >= s.eventSize && r.eventSize >= 10000 && (forall i | 0 <= i < |ns| :: r.eventSize >= ns[i])
    && (r.eventSize == s.eventSize || r.eventSize == 10000 || r.eventSize in ns)
  }

  lemma EnlargedOnce(s: Settings, n: int)
    ensures Enlarged(s, [n], Settings(NewEventSize(s.eventSize, n), s.debugMode))
  {
  }

  lemma EnlargedMore(s: Settings, n: int, next: Settings, ns: seq<int>, r: Settings)
    requires Enlarged(s, [n], next) && Enlarged(next, ns, r)
    ensures Enlarged(s, [n] + ns, r)
  {
    assert next.eventSize >= [n][0];
  }

  lemma SizeCommand(s: Settings, p: Packet, e: seq<octet>)
    requires Named(p) && p.equipment == "SET_EVENT_SIZE" && |e| >= 16
    ensures |PacketBytes(p)| >= 88
    ensures Command(s, PacketBytes(p), e) == Settings(NewEventSize(s.eventSize, Atoi(CStr(e[16..]))), s.debugMode)
  {
    hide PacketBytes, Named, Atoi, Command, NewEventSize;
    CommandByName(s, p, e);
    DifferAt("ENABLE_DEBUG_MODE", p.equipment, 0);
    DifferAt("DISABLE_DEBUG_MODE", p.equipment, 0);
  }

  lemma NumberTaken(s: Settings, p: Packet, ns: seq<int>, i: nat)
    requires Named(p) && p.equipment == "SET_EVENT_SIZE" && Asks(p, ns) && i < |ns|
    ensures var b := PacketBytes(p);
            && IsBank(b) && BlockSize(b) >= 16 && NumberOfEntries(b) == |ns|
            && Command(s, b, Entry(b, i)) == Settings(NewEventSize(s.eventSize, ns[i]), s.debugMode)
  {
    hide PacketBytes, Sendable, IsName, Atoi, Loggable, Command, NewEventSize, Asks, IsBank, Entry, CStr;
    PacketSizes(p);
    AsksEach(p, ns);
    NumberReads(p, ns, i);
    SizeCommand(s, p, Entry(PacketBytes(p), i));
  }

  lemma AsksEach(p: Packet, ns: seq<int>)
    requires Asks(p, ns)
    ensures |ns| == |p.samples|
  {
  }

  lemma DifferAt(word: string, text: string, i: nat)
    requires i < |word| && i < |text| && word[i] != text[i]
    ensures !(word <= text)
  {
  }

  lemma {:induction false} NumbersTaken(s: Settings, p: Packet, ns: seq<int>, i: nat)
    requires Named(p) && p.equipment == "SET_EVENT_SIZE" && Asks(p, ns) && i < |ns|
    ensures var b := PacketBytes(p);
            && IsBank(b) && BlockSize(b) >= 16 && NumberOfEntries(b) == |ns|
            && Enlarged(s, ns[i..], CommandsFrom(s, b, i))
    decreases |ns| - i
  {
    hide PacketBytes, Sendable, IsName, Command, Asks, Enlarged, Entry;
    AsksEach(p, ns);
    var b := PacketBytes(p);
    NumberTaken(s, p, ns, i);
    var next := Command(s, b, Entry(b, i));
    EnlargedOnce(s, ns[i]);
    if i + 1 < |ns| {
      NumbersTaken(next, p, ns, i + 1);
      EnlargedMore(s, ns[i], next, ns[i + 1..], CommandsFrom(next, b, i + 1));
      assert ns[i..] == [ns[i]] + ns[i + 1..];
    } else {
      assert ns[i..] == [ns[i]];
    }
  }

  /** SET_EVENT_SIZE: a bank with the texts of any numbers leaves the largest of them, of 10000 and of the size
      before, and nothing else changes. */
  lemma SetEventSize(p: Packet, ns: seq<int>, s: State, c: Config)
    requires CommandPacket(p, "SET_EVENT_SIZE") && Asks(p, ns) && AllSound(s.vars)
    requires 88 + 16 + |p.samples[0].data| <= s.settings.eventSize
    ensures WellFormed(PacketBytes(p))
    ensures var r := Handle(s, PacketBytes(p), c);
            && Enlarged(s.settings, ns, r.state.settings) && r.count == |ns|
            && r.state.vars == s.vars && r.state.history == s.history && r.bank == PacketBytes(p)
  {
    hide PacketBytes, RouteOf, WellFormed, Dispatch, Enlarged, CommandsFrom;
    DifferAt("START_FRONTEND", "SET_EVENT_SIZE", 1);
    DifferAt("GIVE_ME_ADDRESS", "SET_EVENT_SIZE", 0);
    DifferAt("GIVE_ME_PORT", "SET_EVENT_SIZE", 0);
    CommandPacketIsTaken(p, "SET_EVENT_SIZE");
    HandleIs(s, PacketBytes(p), c);
    DispatchIs(s, PacketBytes(p), c);
    NumbersTaken(s.settings, p, ns, 0);
    assert ns[0..] == ns;
  }

  lemma {:induction false} SettledBy(s: Settings, b: seq<octet>, r: Settings, i: nat)
    requires IsBank(b) && BlockSize(b) >= 16 && i < NumberOfEntries(b)
    requires forall e: seq<octet> | |e| >= 16 :: Command(s, b, e) == r && Command(r, b, e) == r
    ensures CommandsFrom(s, b, i) == r
    decreases NumberOfEntries(b) - i
  {
    hide Command, Entry;
    if i + 1 < NumberOfEntries(b) {
      SettledBy(r, b, r, i + 1);
    }
  }

  /** What the commands without a number leave. */
  function DebugMode(command: string, mode: int): int
  {
    if "ENABLE_DEBUG_MODE" <= command then 1 else if "DISABLE_DEBUG_MODE" <= command then 0 else mode
  }

  /** The two debug commands set the mode, every other command to a worker but SET_EVENT_SIZE leaves the settings as
      they are; variables, history and bank are never touched. */
  lemma OtherCommands(p: Packet, s: State, c: Config)
    requires CommandPacket(p, p.equipment) && !ForSupervisor(p.equipment) && !("SET_EVENT_SIZE" <= p.equipment)
    requires AllSound(s.vars) && 88 + 16 + |p.samples[0].data| <= s.settings.eventSize
    ensures WellFormed(PacketBytes(p))
    ensures var r := Handle(s, PacketBytes(p), c);
            && r.state.settings == Settings(s.settings.eventSize, DebugMode(p.equipment, s.settings.debugMode))
            && r.count == |p.samples|
            && r.state.vars == s.vars && r.state.history == s.history && r.bank == PacketBytes(p)
  {
    hide PacketBytes, RouteOf, WellFormed, Dispatch, CommandsFrom, Command;
    var b := PacketBytes(p);
    CommandPacketIsTaken(p, p.equipment);
    HandleIs(s, b, c);
    DispatchIs(s, b, c);
    PacketSizes(p);
    var r := Settings(s.settings.eventSize, DebugMode(p.equipment, s.settings.debugMode));
    forall e: seq<octet> | |e| >= 16 ensures Command(s.settings, b, e) == r && Command(r, b, e) == r {
      CommandByName(s.settings, p, e);
      CommandByName(r, p, e);
    }
    SettledBy(s.settings, b, r, 0);
  }

  /** The size check looks at one sample and the header: over the event size, nothing is done with the bank, and it
      counts as -1; otherwise it counts its samples, whatever it is. */
  lemma RefusedIff(p: Packet, s: State, c: Config)
    requires Named(p) && WellFormed(PacketBytes(p)) && AllSound(s.vars)
    ensures var b := PacketBytes(p);
            Handle(s, b, c).count == if 88 + 16 + |p.samples[0].data| > s.settings.eventSize then -1 else |p.samples|
    ensures 88 + 16 + |p.samples[0].data| > s.settings.eventSize ==>
              Handle(s, PacketBytes(p), c) == One(s, PacketBytes(p), -1, Rejected)
  {
    hide PacketBytes, WellFormed, Dispatch;
    PacketSizes(p);
    HandleIs(s, PacketBytes(p), c);
  }

  // ---------- the history ----------

  ghost predicate AllNamed(ps: seq<Packet>)
  {
    forall i | 0 <= i < |ps| :: Named(ps[i])
  }

  function AllBytes(ps: seq<Packet>): (r: seq<seq<octet>>)
    requires AllNamed(ps)
    ensures |r| == |ps| && forall i | 0 <= i < |r| :: r[i] == PacketBytes(ps[i])
  {
    seq(|ps|, i requires 0 <= i < |ps| => PacketBytes(ps[i]))
  }

  lemma PacketsAreLoggable(ps: seq<Packet>)
    requires AllNamed(ps)
    ensures AllLoggable(AllBytes(ps))
  {
    hide PacketBytes, Loggable, Named;
    forall i | 0 <= i < |ps| ensures Loggable(AllBytes(ps)[i]) {
      PacketSizes(ps[i]);
    }
  }

  predicate Names(p: Packet, category: string, name: string)
  {
    p.category == category && p.variable == name
  }

  /** The times of the last samples of the packets with these names, in order. */
  function LastTimes(ps: seq<Packet>, category: string, name: string): seq<int>
    requires forall i | 0 <= i < |ps| :: ps[i].samples != []
  {
    if ps == [] then []
    else if Names(ps[0], category, name) then
      [ps[0].samples[|ps[0].samples| - 1].time] + LastTimes(ps[1..], category, name)
    else LastTimes(ps[1..], category, name)
  }

  lemma PacketKey(p: Packet)
    requires Named(p)
    ensures var b := PacketBytes(p);
            && Loggable(b) && |b| >= 88 && Category(b) == p.category && VariableName(b) == p.variable
            && HistoryPeriod(b) == p.period && LastTime(b) == p.samples[|p.samples| - 1].time
  {
    hide PacketBytes, Loggable, Category, VariableName, LastTime, HistoryPeriod;
    PacketReads(p);
    LastSampleReads(p);
    LoggableIs(PacketBytes(p));
  }

  lemma {:induction false} TimesAreLastTimes(ps: seq<Packet>, category: string, name: string)
    requires AllNamed(ps)
    ensures AllLoggable(AllBytes(ps))
    ensures TimesOf(AllBytes(ps), category, name) == LastTimes(ps, category, name)
  {
    hide PacketBytes, Loggable, Category, VariableName, LastTime;
    PacketsAreLoggable(ps);
    if ps != [] {
      PacketKey(ps[0]);
      TimesAreLastTimes(ps[1..], category, name);
      assert AllBytes(ps)[1..] == AllBytes(ps[1..]);
    }
  }

  /** The period a client asks for; 65535 asks for the default. */
  function PeriodAsked(p: Packet, defaultPeriod: int): int
  {
    if p.period == 65535 then defaultPeriod else p.period
  }

  lemma {:induction false} FirstIs(ps: seq<Packet>, category: string, name: string, k: nat)
    requires AllNamed(ps) && k < |ps| && Names(ps[k], category, name)
    requires forall i | 0 <= i < k :: !Names(ps[i], category, name)
    ensures AllLoggable(AllBytes(ps)) && FirstOf(AllBytes(ps), category, name) == k
  {
    hide PacketBytes, Loggable, Category, VariableName, LastTime;
    PacketsAreLoggable(ps);
    PacketKey(ps[0]);
    if k > 0 {
      FirstIs(ps[1..], category, name, k - 1);
      assert AllBytes(ps)[1..] == AllBytes(ps[1..]);
    }
  }

  /** Over every run of packets, the history of a name is the throttle of the times its clients stamped on the last
      samples, with the period the first packet of that name asked for. */
  lemma HistoryOfPackets(ps: seq<Packet>, category: string, name: string, host: bytestring, defaultPeriod: int, k: nat)
    requires AllNamed(ps) && k < |ps| && Names(ps[k], category, name)
    requires forall i | 0 <= i < k :: !Names(ps[i], category, name)
    requires PeriodAsked(ps[k], defaultPeriod) > 0 && Ascending(LastTimes(ps, category, name), 0)
    ensures AllLoggable(AllBytes(ps))
    ensures Optimal(WriteTimes(LogAll([], AllBytes(ps), host, defaultPeriod).1, category, name),
                    LastTimes(ps, category, name), PeriodAsked(ps[k], defaultPeriod))
  {
    hide PacketBytes, Loggable, Category, VariableName, LastTime, Optimal, LogAll, TimesOf, LastTimes, Ascending;
    TimesAreLastTimes(ps, category, name);
    FirstIs(ps, category, name, k);
    PacketKey(ps[k]);
    HistoryIsOptimal(AllBytes(ps), category, name, host, defaultPeriod);
  }

  /** The first packet of a name is written exactly when its time has reached the period, with its last sample. */
  lemma FirstPacketWrites(p: Packet, host: bytestring, defaultPeriod: int)
    requires Named(p) && PeriodAsked(p, defaultPeriod) > 0
    requires 0 <= p.samples[|p.samples| - 1].time < 0x8000_0000
    ensures var last := p.samples[|p.samples| - 1];
            Loggable(PacketBytes(p)) &&
            Log([], PacketBytes(p), host, defaultPeriod).writes ==
              if last.time >= PeriodAsked(p, defaultPeriod)
              then [Write(p.category, p.variable, last.time, SampleBytes(last, p.timeOrder))] else []
  {
    hide PacketBytes, Loggable, Category, VariableName, LastTime, LastEntry, HistoryPeriod, SampleBytes, Renamed;
    PacketKey(p);
    LastSampleReads(p);
    LogIs([], PacketBytes(p), host, defaultPeriod);
    Truncated(p.samples[|p.samples| - 1].time);
  }

  /** With period zero a name has no history. */
  lemma NoPeriodNoHistory(ps: seq<Packet>, category: string, name: string, host: bytestring, defaultPeriod: int, k: nat)
    requires AllNamed(ps) && k < |ps| && Names(ps[k], category, name)
    requires forall i | 0 <= i < k :: !Names(ps[i], category, name)
    requires PeriodAsked(ps[k], defaultPeriod) == 0
    ensures AllLoggable(AllBytes(ps)) && WriteTimes(LogAll([], AllBytes(ps), host, defaultPeriod).1, category, name) == []
  {
    hide PacketBytes, Loggable, Category, VariableName, LastTime, LogAll, WriteTimes;
    FirstIs(ps, category, name, k);
    PacketKey(ps[k]);
    NewVariableWrites([], AllBytes(ps), category, name, host, defaultPeriod);
  }

  // ---------- the host in the equipment field ----------

  /** A bank of category THISHOST gets the name of the host, its first 31 characters at most, into the 32 bytes of
      its equipment field; any other bank, and one without a period, stays as it came. */
  lemma ThisHostIsNamed(p: Packet, host: bytestring, defaultPeriod: int)
    requires Named(p)
    ensures var b := PacketBytes(p);
            Loggable(b) &&
            var r := Log([], b, host, defaultPeriod).bank;
            if "THISHOST" <= p.category && PeriodAsked(p, defaultPeriod) != 0 then
              var name := if |host| <= 31 then host else host[..31];
              && |r| == |b| >= 88 && r[40..40 + |name|] == name && r[40 + |name|] == NUL
              && forall i | 0 <= i < |b| && !(40 <= i < 72) :: r[i] == b[i]
            else r == b
  {
    hide PacketBytes, Loggable, Category, VariableName, LastTime, LastEntry, HistoryPeriod, Throttled;
    PacketKey(p);
    LogIs([], PacketBytes(p), host, defaultPeriod);
    assert "THISHOST" <= p.category <==> BeginsWithThisHost(p.category);
  }
}
