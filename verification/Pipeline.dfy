/** From the buffer of a worker to the trees of the analyzer: src/feGEMClass.cxx:750-771 hands the bytes on. */
module Pipeline {
  import opened CStrings
  import opened GemBank
  import opened BankNames
  import opened HistoryLogger
  import opened FrontEnd
  import opened WalkHistory
  import opened WalkRuns
  import Analyzer
  import FileHeader
  import opened SocketReader

  ghost predicate Storable(banks: seq<seq<octet>>)
  {
    forall i | 0 <= i < |banks| :: Analyzer.Savable(banks[i])
  }

  lemma SentSavable(r: seq<octet>, b: seq<octet>)
    requires Analyzer.Savable(b) && Loggable(r) && SameButEquipment(r, b)
    ensures Analyzer.Savable(r)
  {
    SameButEquipmentReads(r, b);
    assert r[TYPE_AT..CATEGORY_AT] == b[TYPE_AT..CATEGORY_AT];
    if KindOf(b) == FileKind {
      SameButEquipmentEntry(r, b, 0);
    }
  }

  lemma SentStorable(ones: seq<One>, banks: seq<seq<octet>>)
    requires AllFaithful(ones, banks) && |ones| == |banks| && Storable(banks)
    ensures Storable(Sent(ones)) && SameSizes(Sent(ones), banks) && AllBanks(Sent(ones))
  {
    forall i | 0 <= i < |banks|
      ensures Analyzer.Savable(ones[i].bank) && |ones[i].bank| == |banks[i]| && IsBank(ones[i].bank)
    {
      assert Faithful(ones[i], banks[i]);
      SentSavable(ones[i].bank, banks[i]);
    }
  }

  /** What the front end leaves in the buffer is the array of the sent banks. */
  lemma SentStands(before: seq<octet>, ptr: nat, a: seq<octet>, banks: seq<seq<octet>>,
                   sent: seq<seq<octet>>, now: seq<octet>)
    requires Holds(before, ptr, a) && IsArray(a, banks) && SameSizes(sent, banks) && AllBanks(sent)
    requires Replaced(before, ptr + ARRAY_HEADER, Concat(sent), now)
    ensures ptr + |a| <= |now| && now[ptr..ptr + |a|] == SentArray(a, sent)
    ensures IsArray(SentArray(a, sent), sent)
  {
    hide IsBank, Concat;
    SentIsArray(a, banks, sent);
    StandsIn(before, ptr, a, Concat(sent), now);
  }

  lemma StandsIn(before: seq<octet>, ptr: nat, a: seq<octet>, payload: seq<octet>, now: seq<octet>)
    requires Holds(before, ptr, a) && |a| == ARRAY_HEADER + |payload|
    requires Replaced(before, ptr + ARRAY_HEADER, payload, now)
    ensures ptr + |a| <= |now| && now[ptr..ptr + |a|] == a[..ARRAY_HEADER] + payload
  {
    assert forall i | 0 <= i < ARRAY_HEADER :: now[ptr + i] == before[ptr + i] == a[i];
    assert now[ptr..ptr + ARRAY_HEADER] == a[..ARRAY_HEADER];
    assert now[ptr + ARRAY_HEADER..ptr + |a|] == payload;
  }

  /** The equipment field of a bank whose category begins with THISHOST. */
  ghost predicate InEquipment(banks: seq<seq<octet>>, i: nat, pos: int)
  {
    && i < |banks| && |banks[i]| >= BANK_HEADER && BeginsWithThisHost(Category(banks[i]))
    && EQUIPMENT_AT <= pos - Offset(banks, ARRAY_HEADER, i) < EQUIPMENT_AT + EQUIPMENT_SIZE
  }

  ghost predicate InSomeEquipment(banks: seq<seq<octet>>, pos: int)
  {
    exists i :: InEquipment(banks, i, pos)
  }

  /** No byte has changed outside such fields. */
  ghost predicate OnlyEquipmentChanged(before: seq<octet>, ptr: nat, banks: seq<seq<octet>>, now: seq<octet>)
  {
    && |now| == |before|
    && forall pos | 0 <= pos < |now| && now[pos] != before[pos] :: InSomeEquipment(banks, pos - ptr)
  }

  lemma EquipmentChanged(before: seq<octet>, ptr: nat, a: seq<octet>, banks: seq<seq<octet>>,
                         ones: seq<One>, now: seq<octet>)
    requires Holds(before, ptr, a) && IsArray(a, banks) && AllFaithful(ones, banks) && |ones| == |banks|
    requires SameSizes(Sent(ones), banks) && Replaced(before, ptr + ARRAY_HEADER, Concat(Sent(ones)), now)
    ensures OnlyEquipmentChanged(before, ptr, banks, now)
  {
    forall pos | 0 <= pos < |now| && now[pos] != before[pos] ensures InSomeEquipment(banks, pos - ptr) {
      var i := ChangedAt(before, ptr, a, banks, ones, now, pos);
    }
  }

  lemma ChangedAt(before: seq<octet>, ptr: nat, a: seq<octet>, banks: seq<seq<octet>>, ones: seq<One>, now: seq<octet>,
                  pos: nat) returns (i: nat)
    requires Holds(before, ptr, a) && IsArray(a, banks) && AllFaithful(ones, banks) && |ones| == |banks|
    requires SameSizes(Sent(ones), banks) && Replaced(before, ptr + ARRAY_HEADER, Concat(Sent(ones)), now)
    requires pos < |now| && now[pos] != before[pos]
    ensures InEquipment(banks, i, pos - ptr)
  {
    hide IsBank, Concat, AllFaithful, Category, BeginsWithThisHost;
    SameTotal(Sent(ones), banks);
    PayloadByte(before, ptr, a, Concat(banks), Concat(Sent(ones)), now, pos);
    i := ChangedBytes(ones, banks, pos - ptr - ARRAY_HEADER);
    OffsetFrom(banks, ARRAY_HEADER, i);
    BankSizes(banks, i);
  }

  lemma BankSizes(banks: seq<seq<octet>>, i: nat)
    requires AllBanks(banks) && i < |banks|
    ensures |banks[i]| >= BANK_HEADER
  {
    assert IsBank(banks[i]);
  }

  lemma PayloadByte(before: seq<octet>, ptr: nat, a: seq<octet>, was: seq<octet>,
                    becomes: seq<octet>, now: seq<octet>, pos: nat)
    requires Holds(before, ptr, a) && |a| >= ARRAY_HEADER && a[ARRAY_HEADER..] == was && |becomes| == |was|
    requires Replaced(before, ptr + ARRAY_HEADER, becomes, now) && pos < |now| && now[pos] != before[pos]
    ensures var k := pos - ptr - ARRAY_HEADER; 0 <= k < |was| && becomes[k] != was[k]
  {
    var k := pos - ptr - ARRAY_HEADER;
    assert 0 <= k < |was|;
    assert becomes[k] == now[pos] && was[k] == a[ARRAY_HEADER + k] == before[ptr + (ARRAY_HEADER + k)];
  }

  /** What the front end sends on. */
  ghost predicate SentOn(before: seq<octet>, ptr: nat, a: seq<octet>, banks: seq<seq<octet>>,
                         ones: seq<One>, now: seq<octet>)
  {
    && |ones| == |banks| && |a| >= ARRAY_HEADER && AllBanks(banks) && AllBanks(Sent(ones)) && Storable(Sent(ones))
    && IsArray(SentArray(a, Sent(ones)), Sent(ones)) && |SentArray(a, Sent(ones))| == |a|
    && Holds(now, ptr, SentArray(a, Sent(ones))) && SameSizes(Sent(ones), banks)
    && OnlyEquipmentChanged(before, ptr, banks, now)
  }

  lemma Walked(before: seq<octet>, ptr: nat, a: seq<octet>, banks: seq<seq<octet>>, s: State, c: Config, now: seq<octet>)
    requires Holds(before, ptr, a) && IsArray(a, banks) && AllSound(s.vars)
    requires AllWellFormed(banks) && Storable(banks)
    requires Replaced(before, ptr + ARRAY_HEADER, Concat(Sent(Outcomes(s, banks, |banks|, c))), now)
    ensures SentOn(before, ptr, a, banks, Outcomes(s, banks, |banks|, c), now)
  {
    hide Outcomes, AllFaithful, Replaced, Concat, OnlyEquipmentChanged, IsBank;
    var ones := Outcomes(s, banks, |banks|, c);
    SentBanks(s, banks, |banks|, c);
    SentStorable(ones, banks);
    SentStands(before, ptr, a, banks, Sent(ones), now);
    EquipmentChanged(before, ptr, a, banks, ones, now);
  }

  /** Handled by the front end, sent on, and walked again: both walks visit exactly the banks of the array,
      in order and at the same offsets, and the second ends where the array ends; every entry is counted;
      the trees receive the banks as sent; and of the buffer nothing changes but the equipment fields of
      THISHOST banks. */
  method Forward(gem: FeGem, writer: Analyzer.feGEMModuleWriter, buf: array<octet>, ptr: nat,
                 ghost a: seq<octet>, ghost banks: seq<seq<octet>>, MIDAS_TIME: nat)
    returns (NGEMBanks: int, calls: seq<Call>, visited: seq<nat>, end: nat, ghost ones: seq<One>)
    requires gem.Valid() && Holds(buf[..], ptr, a) && IsArray(a, banks) && |a| <= gem.fEventSize
    requires AllWellFormed(banks) && Storable(banks)
    modifies gem`fEventSize, gem`fDebugMode, gem.logger, gem.logger.Repr, buf, writer
    ensures ones == Outcomes(old(gem.Value()), banks, |banks|, old(gem.Configuration()))
    ensures gem.Valid() && gem.Value() == StateAfter(old(gem.Value()), ones)
    ensures SentOn(old(buf[..]), ptr, a, banks, ones, buf[..])
    ensures writer.Value() == Analyzer.SaveAll(old(writer.Value()), Analyzer.ItemsOf(Sent(ones), MIDAS_TIME))
    ensures NGEMBanks == TotalEntries(banks, |banks|)
    ensures visited == Offsets(banks, ARRAY_HEADER) && end == |a|
    ensures calls == Calls(ones, banks) && NoneRejected(ones, banks)
  {
    hide Outcomes, Sent, RouteOf, AllWellFormed, Replaced, Analyzer.SaveAll, OnlyEquipmentChanged, TotalEntries, Calls;
    ghost var before, s, c := buf[..], gem.Value(), gem.Configuration();
    HeldArray(before, ptr, a, banks);
    var BankSize := Wrap32(ARRAY_HEADER + ReadU32(buf, ptr + 8));
    assert AllSound(s.vars);
    ones := Outcomes(s, banks, |banks|, c);
    NGEMBanks, calls := gem.HandleBankArray(buf, ptr, a, banks);
    Walked(before, ptr, a, banks, s, c, buf[..]);
    CountIsConserved(s, a, banks, c);
    visited, end := SendEvent(writer, buf, ptr, BankSize, SentArray(a, Sent(ones)), Sent(ones), MIDAS_TIME);
    SameVisited(Sent(ones), banks);
  }

  lemma SameVisited(sent: seq<seq<octet>>, banks: seq<seq<octet>>)
    requires SameSizes(sent, banks)
    ensures Offsets(sent, ARRAY_HEADER) == Offsets(banks, ARRAY_HEADER)
  {
    forall i | 0 <= i < |sent| ensures Offset(sent, ARRAY_HEADER, i) == Offset(banks, ARRAY_HEADER, i) {
      SameOffsets(sent, banks, ARRAY_HEADER, i);
    }
  }

  /** The event leaves as a copy of the first BankSize bytes; the analyzer walks the copy. */
  method SendEvent(writer: Analyzer.feGEMModuleWriter, buf: array<octet>, ptr: nat, BankSize: nat,
                 ghost a: seq<octet>, ghost banks: seq<seq<octet>>, MIDAS_TIME: nat)
    returns (visited: seq<nat>, end: nat)
    requires Holds(buf[..], ptr, a) && BankSize == |a| && IsArray(a, banks) && Storable(banks)
    modifies writer
    ensures writer.Value() == Analyzer.SaveAll(old(writer.Value()), Analyzer.ItemsOf(banks, MIDAS_TIME))
    ensures visited == Offsets(banks, ARRAY_HEADER) && end == |a|
  {
    hide IsArray, Analyzer.Savable, Analyzer.SaveAll, Offset;
    var event := new octet[BankSize](i requires 0 <= i < BankSize && ptr + i < buf.Length reads buf => buf[ptr + i]);
    assert event[..] == buf[..][ptr..ptr + |a|];
    assert event[..][0..0 + |a|] == a;
    visited, end := writer.AnalyzeFlowEvent(event, 0, a, banks, MIDAS_TIME);
  }

  // ---------- one connection ----------

  /** What a connection changes: the state of the worker, and the trees. */
  datatype World = World(state: State, trees: Analyzer.Trees)

  datatype Message = Message(stream: seq<octet>, banks: seq<seq<octet>>, chunks: seq<nat>, midasTime: nat)

  ghost predicate Acceptable(m: Message)
  {
    IsArray(m.stream, m.banks) && AllWellFormed(m.banks) && Storable(m.banks)
  }

  ghost predicate Ready(w: World)
  {
    AllSound(w.state.vars) && w.state.settings.eventSize >= 0
  }

  /** The banks that leave: as the walk has rewritten them, or as they came if the array is refused. */
  function SentBy(s: State, banks: seq<seq<octet>>, c: Config): seq<seq<octet>>
    requires AllSound(s.vars) && AllWellFormed(banks)
  {
    if ArraySize(banks) > s.settings.eventSize then banks else Sent(Outcomes(s, banks, |banks|, c))
  }

  lemma SentByStorable(s: State, banks: seq<seq<octet>>, c: Config)
    requires AllSound(s.vars) && AllWellFormed(banks) && Storable(banks)
    ensures Storable(SentBy(s, banks, c))
  {
    hide Outcomes, AllFaithful, Analyzer.Savable;
    SentBanks(s, banks, |banks|, c);
    SentStorable(Outcomes(s, banks, |banks|, c), banks);
  }

  ghost predicate Arrives(w: World, m: Message)
    requires Ready(w)
  {
    Receive(m.stream, m.chunks, w.state.settings.eventSize).Received?
  }

  /** One connection as a function: a message that does not arrive changes nothing. */
  ghost function ServeOne(w: World, m: Message, c: Config): (r: World)
    requires Ready(w) && Acceptable(m)
    ensures Ready(r)
  {
    if !Arrives(w, m) then w
    else
      SentByStorable(w.state, m.banks, c);
      EventSizeNeverShrinks(w.state, m.banks, |m.banks|, c);
      World(HandleArray(w.state, m.banks, c),
            Analyzer.SaveAll(w.trees, Analyzer.ItemsOf(SentBy(w.state, m.banks, c), m.midasTime)))
  }

  /** The same from the socket on: if the message arrives at all, in whatever pieces, it is handled as above;
      an array over the event size, once all of it has been read, is refused and sent on as it came. */
  method ServeHost(socket: TcpSocket, gem: FeGem, writer: Analyzer.feGEMModuleWriter, buf: array<octet>, ptr: nat,
                   ghost banks: seq<seq<octet>>, MIDAS_TIME: nat)
    returns (outcome: Delivery, NGEMBanks: int, calls: seq<Call>, visited: seq<nat>, end: nat)
    requires socket.position == 0 && socket.count == 0 && gem.Valid()
    requires ptr <= buf.Length && HasRoom(socket.stream, gem.fEventSize, buf.Length - ptr)
    requires IsArray(socket.stream, banks) && AllWellFormed(banks) && Storable(banks)
    modifies socket, gem`fEventSize, gem`fDebugMode, gem.logger, gem.logger.Repr, buf, writer
    ensures gem.Valid() && outcome == Receive(socket.stream, socket.chunks, old(gem.fEventSize))
    ensures World(gem.Value(), writer.Value()) ==
            ServeOne(World(old(gem.Value()), old(writer.Value())),
                     Message(socket.stream, banks, socket.chunks, MIDAS_TIME), old(gem.Configuration()))
    ensures outcome.Received? ==>
              && outcome.size == end == |socket.stream| && ptr + |socket.stream| <= buf.Length
              && visited == Offsets(banks, ARRAY_HEADER)
    ensures outcome.Received? && |socket.stream| <= old(gem.fEventSize) ==>
              var ones := Outcomes(old(gem.Value()), banks, |banks|, old(gem.Configuration()));
              && SentOn(Placed(old(buf[..]), ptr, socket.stream), ptr, socket.stream, banks, ones, buf[..])
              && NGEMBanks == TotalEntries(banks, |banks|)
              && calls == Calls(ones, banks) && NoneRejected(ones, banks)
    ensures outcome.Received? && |socket.stream| > old(gem.fEventSize) ==>
              NGEMBanks == -1 && calls == [] && buf[..] == Placed(old(buf[..]), ptr, socket.stream)
  {
    hide Receive, Outcomes, AllWellFormed, SentOn, TotalEntries, Storable;
    hide DeclaredSize, IsArray, ArraySize, Analyzer.SaveAll;
    NGEMBanks, calls, visited, end := 0, [], [], 0;
    outcome := socket.ReadMessage(buf, ptr, gem.fEventSize);
    if outcome.Received? {
      ReceivedWhole(socket.stream, socket.chunks, gem.fEventSize, banks);
      ArraySizeIs(socket.stream, banks);
      PlacedHolds(old(buf[..]), ptr, socket.stream);
      if outcome.size <= gem.fEventSize {
        ghost var ones;
        NGEMBanks, calls, visited, end, ones := Forward(gem, writer, buf, ptr, socket.stream, banks, MIDAS_TIME);
      } else {
        NGEMBanks, calls := gem.HandleBankArray(buf, ptr, socket.stream, banks);
        visited, end := SendEvent(writer, buf, ptr, outcome.size, socket.stream, banks, MIDAS_TIME);
      }
    }
  }

  /** The event buffer has the event size, and `ahead` bytes of headers stand before the array: one that is
      longer than the rest arrives and passes the check of its size, and its last bytes end up outside. */
  lemma AcceptedYetOutside(a: seq<octet>, banks: seq<seq<octet>>, eventSize: nat, ahead: nat)
    requires IsArray(a, banks) && HEADER <= |a| < TWO31 && |a| <= eventSize < ahead + |a|
    ensures ArraySize(banks) <= eventSize && Receive(a, [|a|], eventSize) == Received(|a|)
    ensures ahead + Taken(a, [|a|], eventSize) == ahead + |a| > eventSize
  {
    hide IsArray, DeclaredSize, ArraySize;
    ArraySizeIs(a, banks);
    DeclaredExactIff(a, banks);
    assert Sum([|a|], 1) == |a|;
    assert HeaderRead([|a|], |a|, 0, HEADER_READS - 1) == 0;
    SumGrows([|a|], 1, BODY_READS);
    SumGrows([|a|], 1, 1 + BODY_READS);
  }

  lemma PlacedHolds(before: seq<octet>, ptr: nat, a: seq<octet>)
    requires ptr + |a| <= |before|
    ensures Holds(Placed(before, ptr, a[..|a|]), ptr, a) && a[..|a|] == a
  {
  }

  lemma ReceivedWhole(a: seq<octet>, chunks: seq<nat>, eventSize: nat, banks: seq<seq<octet>>)
    requires IsArray(a, banks) && Receive(a, chunks, eventSize).Received?
    ensures Receive(a, chunks, eventSize).size == |a|
  {
    hide Concat, AllBanks, Arrived, HeaderRead, Between;
    if |a| < HEADER {
      ShortMessagesNeverArrive(a, chunks, eventSize);
    }
  }

  /** The rows stored are the entries received. */
  lemma SentRows(one: One, b: seq<octet>, MIDAS_TIME: nat, file: Option<FileHeader.FileInfo>)
    requires Faithful(one, b) && IsBank(b)
    ensures IsBank(one.bank) && Analyzer.Rows(one.bank, MIDAS_TIME, file) == Analyzer.Rows(b, MIDAS_TIME, file)
  {
    SameButEquipmentReads(one.bank, b);
    forall i | 0 <= i < NumberOfEntries(b) ensures Entry(one.bank, i) == Entry(b, i) {
      SameButEquipmentEntry(one.bank, b, i);
    }
  }
}
