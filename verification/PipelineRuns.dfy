/** Conservation end to end: every entry of every message that arrives becomes one row. */
module PipelineRuns {
  import opened CStrings
  import opened GemBank
  import opened BankNames
  import opened HistoryLogger
  import opened FrontEnd
  import opened WalkRuns
  import opened WalkHistory
  import opened Analyzer
  import opened AnalyzerRuns
  import P = Pipeline

  // ---------- one message ----------

  /** As many entries as the bank received, under a type that is stored. */
  ghost predicate CountsAs(sent: seq<octet>, b: seq<octet>)
  {
    && |sent| >= BANK_HEADER && |b| >= BANK_HEADER && KindOf(sent) != Unknown
    && NumberOfEntries(sent) == NumberOfEntries(b)
  }

  ghost predicate AllCountAs(sent: seq<seq<octet>>, banks: seq<seq<octet>>)
  {
    |sent| == |banks| && forall i | 0 <= i < |banks| :: CountsAs(sent[i], banks[i])
  }

  lemma FaithfulCounts(one: One, b: seq<octet>)
    requires Faithful(one, b) && WellFormed(b)
    ensures CountsAs(one.bank, b) && CountsAs(b, b)
  {
    SameButEquipmentReads(one.bank, b);
    assert one.bank[TYPE_AT..CATEGORY_AT] == b[TYPE_AT..CATEGORY_AT] by {
      assert one.bank[..CATEGORY_AT][TYPE_AT..] == b[..CATEGORY_AT][TYPE_AT..];
    }
  }

  lemma SentByCounts(s: State, banks: seq<seq<octet>>, c: Config)
    requires AllSound(s.vars) && AllWellFormed(banks)
    ensures AllCountAs(P.SentBy(s, banks, c), banks)
  {
    hide Outcomes, WellFormed, Faithful, CountsAs;
    SentBanks(s, banks, |banks|, c);
    var ones := Outcomes(s, banks, |banks|, c);
    forall i | 0 <= i < |banks| ensures CountsAs(ones[i].bank, banks[i]) && CountsAs(banks[i], banks[i]) {
      FaithfulCounts(ones[i], banks[i]);
    }
  }

  lemma {:induction false} CountedEntries(sent: seq<seq<octet>>, banks: seq<seq<octet>>, midasTime: nat, n: nat)
    requires AllBanks(banks) && AllCountAs(sent, banks) && n <= |banks| && AllSavable(ItemsOf(sent, midasTime))
    ensures KnownEntries(ItemsOf(sent, midasTime)[..n]) == TotalEntries(banks, n)
  {
    hide Savable, KindOf, IsBank;
    if n > 0 {
      CountedEntries(sent, banks, midasTime, n - 1);
      assert ItemsOf(sent, midasTime)[..n][..n - 1] == ItemsOf(sent, midasTime)[..n - 1];
      assert CountsAs(sent[n - 1], banks[n - 1]);
    }
  }

  lemma StoredItems(banks: seq<seq<octet>>, midasTime: nat)
    requires P.Storable(banks)
    ensures AllSavable(ItemsOf(banks, midasTime))
  {
    hide Savable;
  }

  /** A message that arrives adds as many rows to the trees as its banks have entries. */
  lemma RowsOfOneMessage(w: P.World, m: P.Message, c: Config)
    requires P.Ready(w) && P.Acceptable(m)
    ensures TotalRows(P.ServeOne(w, m, c).trees.trees) ==
            TotalRows(w.trees.trees) + (if P.Arrives(w, m) then TotalEntries(m.banks, |m.banks|) else 0)
  {
    hide SaveAll, HandleArray, P.SentBy, P.Arrives, AllWellFormed, P.Storable, TotalRows, KnownEntries;
    if P.Arrives(w, m) {
      var sent := P.SentBy(w.state, m.banks, c);
      P.SentByStorable(w.state, m.banks, c);
      StoredItems(sent, m.midasTime);
      SentByCounts(w.state, m.banks, c);
      CountedEntries(sent, m.banks, m.midasTime, |m.banks|);
      var items := ItemsOf(sent, m.midasTime);
      assert items[..|m.banks|] == items;
      EntriesAreConserved(w.trees, items);
    }
  }

  // ---------- one message after the other ----------

  ghost predicate AllAcceptable(ms: seq<P.Message>)
  {
    forall i | 0 <= i < |ms| :: P.Acceptable(ms[i])
  }

  ghost function ServeAll(w: P.World, ms: seq<P.Message>, c: Config): P.World
    requires P.Ready(w) && AllAcceptable(ms)
    decreases |ms|
  {
    if ms == [] then w else ServeAll(P.ServeOne(w, ms[0], c), ms[1..], c)
  }

  /** The entries of the messages that arrive. */
  ghost function EntriesArrived(w: P.World, ms: seq<P.Message>, c: Config): nat
    requires P.Ready(w) && AllAcceptable(ms)
    decreases |ms|
  {
    if ms == [] then 0
    else (if P.Arrives(w, ms[0]) then TotalEntries(ms[0].banks, |ms[0].banks|) else 0) +
         EntriesArrived(P.ServeOne(w, ms[0], c), ms[1..], c)
  }

  /** Over every run of connections the trees gain exactly the entries of the messages that arrive. */
  lemma {:induction false} RowsOfAllMessages(w: P.World, ms: seq<P.Message>, c: Config)
    requires P.Ready(w) && AllAcceptable(ms)
    ensures TotalRows(ServeAll(w, ms, c).trees.trees) == TotalRows(w.trees.trees) + EntriesArrived(w, ms, c)
    decreases |ms|
  {
    hide TotalRows, TotalEntries, P.ServeOne, P.Arrives, P.Acceptable;
    if ms != [] {
      RowsOfOneMessage(w, ms[0], c);
      RowsOfAllMessages(P.ServeOne(w, ms[0], c), ms[1..], c);
    }
  }
}
