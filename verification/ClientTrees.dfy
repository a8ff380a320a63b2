/** Where the banks a client packs end up in the analyzer: libGEM/src/feGEM_module.cxx:97-252. */
module ClientTrees {
  import opened CStrings
  import opened GemBank
  import opened BankNames
  import opened HistoryLogger
  import opened FileHeader
  import opened Analyzer
  import opened AnalyzerRuns
  import opened ClientBytes
  import opened ClientBanks

  /** The branch of a tree, by the tag of the bank that creates it. */
  function BranchFor(tag: seq<octet>): string
    requires |tag| == 4
  {
    if tag[..3] == "DBL" then "TStoreGEMData<double>"
    else if tag[..3] == "FLT" then "TStoreGEMData<float>"
    else if tag == "BOOL" then "TStoreGEMData<bool>"
    else if tag[..3] == "I32" then "TStoreGEMData<int32_t>"
    else if tag == "U32" + [NUL] then "TStoreGEMData<uint32_t>"
    else if tag[..3] == "U16" then "TStoreGEMData<uint16_t>"
    else if tag == "FILE" then "TStoreGEMFile<char>"
    else "TStoreGEMData<char>"
  }

  /** The tags of what is stored as data: numbers, strings and string arrays. */
  predicate DataTag(tag: seq<octet>)
    requires |tag| == 4
  {
    tag[..3] in ["DBL", "FLT", "I32", "U16", "STR"] || tag in ["BOOL", "U32" + [NUL]]
  }

  lemma BranchByTag(b: seq<octet>)
    requires |b| >= 88 && DataTag(b[4..8])
    ensures KindOf(b) != Unknown && KindOf(b) != FileKind
    ensures BranchName(KindOf(b), CombinedName(b)) == BranchFor(b[4..8])
  {
    hide KindOfType, NamesAFile, CombinedName;
    var tag := b[4..8];
    KindByTag(tag);
    DataNameIsNoFile(b);
    assert tag[..3] == "DBL" ==> tag[0] == 'D';
    assert tag[..3] == "FLT" ==> tag[0] == 'F' && tag[1] == 'L';
    assert tag[..3] == "I32" ==> tag[0] == 'I';
    assert tag[..3] == "U16" ==> tag[0] == 'U';
    assert tag[..3] == "STR" ==> tag[0] == 'S';
  }

  /** The name of the tree: category and variable, with the host in place of the category THISHOST. */
  function TreeName(p: Packet): string
  {
    (if "THISHOST" <= p.category then p.equipment else p.category) + "\\" + p.variable
  }

  lemma PacketTreeName(p: Packet)
    requires Named(p)
    ensures var b := PacketBytes(p); |b| >= 88 && CombinedName(b) == TreeName(p)
  {
    hide PacketBytes, Loggable, Category, VariableName, EquipmentName, SameUpTo;
    var b := PacketBytes(p);
    PacketReads(p);
    LoggableIs(b);
    PrefixCompared(b[8..24], "THISHOST");
    FieldBegins(p.category, 16, "THISHOST");
  }

  /** One row for each sample. */
  function RowsFor(p: Packet, midasTime: nat, file: Option<FileInfo>): (r: seq<Row>)
    requires Sendable(p)
    ensures |r| == |p.samples|
    ensures forall i | 0 <= i < |r| ::
              r[i] == Row(SampleBytes(p.samples[i], p.timeOrder), p.timeOrder, p.dataOrder, midasTime, file)
  {
    seq(|p.samples|, i requires 0 <= i < |p.samples| =>
      Row(SampleBytes(p.samples[i], p.timeOrder), p.timeOrder, p.dataOrder, midasTime, file))
  }

  lemma PacketRows(p: Packet, midasTime: nat, file: Option<FileInfo>)
    requires Named(p)
    ensures var b := PacketBytes(p); IsBank(b) && Rows(b, midasTime, file) == RowsFor(p, midasTime, file)
  {
    hide PacketBytes, Loggable, Category, VariableName, EquipmentName, SampleBytes, Stamp;
    var b := PacketBytes(p);
    PacketReads(p);
    LoggableIs(b);
    assert forall i | 0 <= i < |p.samples| :: Entry(b, i) == Entries(b)[i] == SampleBytes(p.samples[i], p.timeOrder);
  }

  /** A bank of numbers or texts, by its fields. */
  ghost predicate DataPacket(p: Packet)
  {
    Named(p) && DataTag(Padded(p.tag, 4))
  }

  /** What it brings: the tree of its names, the branch of its type and one row for each sample. */
  lemma DataPacketArrives(p: Packet, midasTime: nat)
    requires DataPacket(p)
    ensures var b := PacketBytes(p);
            && Savable(b) && KindOf(b) != Unknown
            && ArrivalOf(Item(b, midasTime)) ==
                 Arrival(TreeName(p), BranchFor(Padded(p.tag, 4)), RowsFor(p, midasTime, None))
  {
    hide PacketBytes, Category, VariableName, EquipmentName, KindOf, DataTag, Padded;
    hide CombinedName, TreeName, BranchName, BranchFor, Rows, RowsFor;
    PacketReads(p);
    BranchByTag(PacketBytes(p));
    PacketTreeName(p);
    PacketRows(p, midasTime, None);
  }

  // ---------- over a run ----------

  ghost predicate AllData(ps: seq<Packet>)
  {
    AllNamed(ps) && forall i | 0 <= i < |ps| :: DataPacket(ps[i])
  }

  /** The rows of all samples sent under this name, in order. */
  function SamplesUnder(ps: seq<Packet>, name: string, midasTime: nat): seq<Row>
    requires AllData(ps)
  {
    if ps == [] then []
    else
      var n := |ps| - 1;
      if TreeName(ps[n]) == name then SamplesUnder(ps[..n], name, midasTime) + RowsFor(ps[n], midasTime, None)
      else SamplesUnder(ps[..n], name, midasTime)
  }

  /** The branch of the first packet of this name. */
  function BranchOfFirst(ps: seq<Packet>, name: string): Option<string>
    requires AllData(ps)
  {
    if ps == [] then None
    else
      var n := |ps| - 1;
      var earlier := BranchOfFirst(ps[..n], name);
      if earlier == None && TreeName(ps[n]) == name then Some(BranchFor(Padded(ps[n].tag, 4))) else earlier
  }

  lemma PacketsAreSavable(ps: seq<Packet>, midasTime: nat)
    requires AllData(ps)
    ensures AllSavable(ItemsOf(AllBytes(ps), midasTime))
  {
    hide PacketBytes, Savable, DataPacket;
    forall i | 0 <= i < |ps| ensures Savable(ItemsOf(AllBytes(ps), midasTime)[i].bank) {
      DataPacketArrives(ps[i], midasTime);
    }
  }

  lemma {:induction false} PacketsArrive(ps: seq<Packet>, name: string, midasTime: nat)
    requires AllData(ps)
    ensures AllSavable(ItemsOf(AllBytes(ps), midasTime))
    ensures var arrivals := Arrivals(ItemsOf(AllBytes(ps), midasTime));
            && RowsOf(arrivals, name) == SamplesUnder(ps, name, midasTime)
            && FirstBranch(arrivals, name) == BranchOfFirst(ps, name)
  {
    hide PacketBytes, Savable, DataPacket, KindOf, ArrivalOf, RowsFor, TreeName, BranchFor;
    PacketsAreSavable(ps, midasTime);
    if ps != [] {
      var n, items := |ps| - 1, ItemsOf(AllBytes(ps), midasTime);
      PacketsArrive(ps[..n], name, midasTime);
      DataPacketArrives(ps[n], midasTime);
      assert items[..n] == ItemsOf(AllBytes(ps[..n]), midasTime);
      var earlier, a := Arrivals(items[..n]), ArrivalOf(items[n]);
      assert (earlier + [a])[..|earlier|] == earlier;
    }
  }

  /** Over every run of packets, the tree of a name holds exactly the samples sent under it, in order, under the
      branch of the type its first packet has. */
  lemma TreesOfPackets(ps: seq<Packet>, name: string, midasTime: nat)
    requires AllData(ps)
    ensures AllSavable(ItemsOf(AllBytes(ps), midasTime))
    ensures var t := SaveAll(NO_TREES, ItemsOf(AllBytes(ps), midasTime));
            RowsIn(t, name) == SamplesUnder(ps, name, midasTime) && BranchIn(t, name) == BranchOfFirst(ps, name)
  {
    hide PacketBytes, Savable, DataPacket, SaveAll, FillAll, Arrivals, RowsIn, BranchIn, SamplesUnder, BranchOfFirst;
    PacketsArrive(ps, name, midasTime);
    SaveAllIsFillAll(NO_TREES, ItemsOf(AllBytes(ps), midasTime));
    TreesPartition(Arrivals(ItemsOf(AllBytes(ps), midasTime)), name);
  }

  // ---------- files, and what is not stored ----------

  /** A file with its header, as the one sample of a bank. */
  ghost predicate FilePacket(p: Packet, name: bytestring, path: bytestring, md5: bytestring, contents: seq<octet>)
  {
    && Named(p) && p.tag == "FILE" && |p.samples| == 1 && name != [] && path != [] && md5 != []
    && p.samples[0].data == WriteHeader(name, path, md5, contents)
  }

  /** It brings one row with name, path and checksum, to a tree of its own. */
  lemma FilePacketArrives(p: Packet, name: bytestring, path: bytestring, md5: bytestring, contents: seq<octet>,
                          midasTime: nat)
    requires FilePacket(p, name, path, md5, contents)
    ensures var b := PacketBytes(p);
            && Savable(b) && KindOf(b) != Unknown
            && ArrivalOf(Item(b, midasTime)) ==
                 Arrival("FILE:" + TreeName(p) + "\\" + name, "TStoreGEMFile<char>",
                         RowsFor(p, midasTime, Some(FileInfo(name, path, md5, true))))
  {
    hide PacketBytes, Category, VariableName, EquipmentName, KindOfType, Loggable;
    hide CombinedName, TreeName, Rows, RowsFor, WriteHeader, HeaderInside, ScanHeader;
    var b := PacketBytes(p);
    PacketReads(p);
    LoggableIs(b);
    assert Padded("FILE", 4) == "FILE";
    KindByTag(b[4..8]);
    TextReads(p, 0);
    HeaderReadsBack(name, path, md5, contents);
    PacketTreeName(p);
    PacketRows(p, midasTime, Some(FileInfo(name, path, md5, true)));
    FileNameIsAFile(b, name);
  }

  /** A bank of any other type leaves the trees as they are. */
  lemma OtherPacketIsIgnored(p: Packet, t: Trees, midasTime: nat)
    requires Named(p) && !DataTag(Padded(p.tag, 4)) && Padded(p.tag, 4) != "FILE"
    ensures Savable(PacketBytes(p)) && Save(t, Item(PacketBytes(p), midasTime)) == t
  {
    hide PacketBytes, Category, VariableName, EquipmentName, KindOfType, Padded;
    PacketReads(p);
    KindByTag(PacketBytes(p)[4..8]);
  }
}
