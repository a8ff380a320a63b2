/** libGEM/src/feGEM_module.cxx: the analyzer walks the same arrays and sorts the entries into trees. */
module Analyzer {
  import opened CStrings
  import opened GemBank
  import opened BankNames
  import opened FileHeader
  import opened HistoryLogger

  // ---------- trees ----------

  datatype Row = Row(
    entry: seq<octet>,
    timestampEndianness: nat,
    dataEndianness: nat,
    midasTime: nat,
    file: Option<FileInfo>)

  datatype Tree = Tree(name: string, rows: seq<Row>)

  /** The two parallel vectors: the trees, and the name of the branch of each. */
  datatype Trees = Trees(trees: seq<Tree>, data: seq<string>)

  datatype Item = Item(bank: seq<octet>, midasTime: nat)

  /** A bank the analyzer can store without stopping or reading outside it. */
  predicate Savable(b: seq<octet>)
  {
    && IsBank(b) && TitleClosed(b)
    && (NumberOfEntries(b) > 0 ==> BlockSize(b) >= TIMESTAMP_SIZE)
    && (KindOf(b) == FileKind ==>
          NumberOfEntries(b) == 1 && HeaderInside(Entry(b, 0)[TIMESTAMP_SIZE..], HEADER_ITEMS, NO_FILE))
  }

  function FileOf(b: seq<octet>): Option<FileInfo>
    requires Savable(b)
  {
    if KindOf(b) == FileKind then Some(ScanHeader(Entry(b, 0)[TIMESTAMP_SIZE..], HEADER_ITEMS, NO_FILE)) else None
  }

  function Key(b: seq<octet>): string
    requires Savable(b)
  {
    if KindOf(b) == FileKind then FileKey(b, FileOf(b).value.filename) else CombinedName(b)
  }

  function BranchName(kind: Kind, name: string): string
  {
    if NamesAFile(name) then "TStoreGEMFile<char>"
    else match kind
      case Dbl => "TStoreGEMData<double>"
      case Flt => "TStoreGEMData<float>"
      case Bool => "TStoreGEMData<bool>"
      case I32 => "TStoreGEMData<int32_t>"
      case U32k => "TStoreGEMData<uint32_t>"
      case U16k => "TStoreGEMData<uint16_t>"
      case _ => "TStoreGEMData<char>"
  }

  predicate NamesAFile(name: string)
  {
    |name| >= 5 && name[..5] == FILE_PREFIX
  }

  function Rows(b: seq<octet>, midasTime: nat, file: Option<FileInfo>): (r: seq<Row>)
    requires IsBank(b)
    ensures |r| == NumberOfEntries(b)
    ensures forall i | 0 <= i < |r| ::
              r[i] == Row(Entry(b, i), TimestampEndianness(b), DataEndianness(b), midasTime, file)
  {
    seq(NumberOfEntries(b), i requires 0 <= i < NumberOfEntries(b) =>
      Row(Entry(b, i), TimestampEndianness(b), DataEndianness(b), midasTime, file))
  }

  function IndexOf(trees: seq<Tree>, name: string): (i: nat)
    ensures i <= |trees|
    ensures forall k | 0 <= k < i :: trees[k].name != name
    ensures i < |trees| ==> trees[i].name == name
  {
    if trees == [] || trees[0].name == name then 0 else 1 + IndexOf(trees[1..], name)
  }

  lemma IndexOfIs(trees: seq<Tree>, name: string, i: nat)
    requires i <= |trees|
    requires forall k | 0 <= k < i :: trees[k].name != name
    requires i < |trees| ==> trees[i].name == name
    ensures IndexOf(trees, name) == i
  {
  }

  function WithTree(t: Trees, name: string, branch: string): (r: Trees)
    ensures IndexOf(t.trees, name) < |r.trees| && r.trees[IndexOf(t.trees, name)].name == name
  {
    if IndexOf(t.trees, name) < |t.trees| then t
    else Trees(t.trees + [Tree(name, [])], t.data + [branch])
  }

  function Filled(trees: seq<Tree>, i: nat, rows: seq<Row>): seq<Tree>
    requires i < |trees|
  {
    trees[i := Tree(trees[i].name, trees[i].rows + rows)]
  }

  /** What one bank brings: the name of its tree, the branch it asks for and its rows. */
  datatype Arrival = Arrival(key: string, branch: string, rows: seq<Row>)

  function ArrivalOf(item: Item): Arrival
    requires Savable(item.bank)
  {
    var b := item.bank;
    Arrival(Key(b), BranchName(KindOf(b), Key(b)), Rows(b, item.midasTime, FileOf(b)))
  }

  function Fill(t: Trees, a: Arrival): Trees
  {
    var all := WithTree(t, a.key, a.branch);
    Trees(Filled(all.trees, IndexOf(t.trees, a.key), a.rows), all.data)
  }

  /** Saving one bank; one of an unknown type is only printed. */
  function Save(t: Trees, item: Item): Trees
    requires Savable(item.bank)
  {
    if KindOf(item.bank) == Unknown then t else Fill(t, ArrivalOf(item))
  }

  ghost predicate AllSavable(items: seq<Item>)
  {
    forall i | 0 <= i < |items| :: Savable(items[i].bank)
  }

  function SaveAll(t: Trees, items: seq<Item>): Trees
    requires AllSavable(items)
  {
    if items == [] then t else Save(SaveAll(t, items[..|items| - 1]), items[|items| - 1])
  }

  function ItemsOf(banks: seq<seq<octet>>, midasTime: nat): (r: seq<Item>)
    ensures |r| == |banks| && forall i | 0 <= i < |r| :: r[i] == Item(banks[i], midasTime)
  {
    seq(|banks|, i requires 0 <= i < |banks| => Item(banks[i], midasTime))
  }

  // ---------- the class ----------

  class feGEMModuleWriter {
    var datatrees: seq<Tree>
    var data: seq<string>

    constructor ()
      ensures Value() == Trees([], [])
    {
      datatrees, data := [], [];
    }

    ghost function Value(): Trees
      reads this
    {
      Trees(datatrees, data)
    }

    /** The tree of that name, created if there is none. */
    method FindOrCreateTree(kind: Kind, CombinedName: string) returns (t: nat)
      modifies this
      ensures t == IndexOf(old(datatrees), CombinedName)
      ensures Value() == WithTree(old(Value()), CombinedName, BranchName(kind, CombinedName))
    {
      for i := 0 to |datatrees|
        invariant Value() == old(Value())
        invariant forall k | 0 <= k < i :: datatrees[k].name != CombinedName
      {
        if datatrees[i].name == CombinedName {
          IndexOfIs(datatrees, CombinedName, i);
          return i;
        }
      }
      IndexOfIs(datatrees, CombinedName, |datatrees|);
      t := |datatrees|;
      datatrees := datatrees + [Tree(CombinedName, [])];
      data := data + [BranchName(kind, CombinedName)];
    }

    /** One row for each entry. */
    method BranchTree(t: nat, buf: array<octet>, pos: nat, ghost b: seq<octet>, MIDAS_TIME: nat, file: Option<FileInfo>)
      requires t < |datatrees| && Holds(buf[..], pos, b) && IsBank(b)
      modifies this`datatrees
      ensures datatrees == Filled(old(datatrees), t, Rows(b, MIDAS_TIME, file))
    {
      HeldNumbers(buf[..], pos, b);
      ghost var rows := Rows(b, MIDAS_TIME, file);
      FilledNone(datatrees, t);
      for i := 0 to ReadU32(buf, pos + 84)
        invariant t < |datatrees| && datatrees == Filled(old(datatrees), t, rows[..i])
      {
        var row := ReadRow(buf, pos, b, i, MIDAS_TIME, file);
        FilledNext(old(datatrees), t, rows, i);
        datatrees := datatrees[t := Tree(datatrees[t].name, datatrees[t].rows + [row])];
      }
      assert rows[..|rows|] == rows;
    }

    /** A bank never carries more than one file. */
    method BranchTreeFromFile(t: nat, buf: array<octet>, pos: nat, ghost b: seq<octet>, MIDAS_TIME: nat, info: FileInfo)
      requires t < |datatrees| && Holds(buf[..], pos, b) && IsBank(b) && NumberOfEntries(b) == 1
      modifies this`datatrees
      ensures datatrees == Filled(old(datatrees), t, Rows(b, MIDAS_TIME, Some(info)))
    {
      HeldNumbers(buf[..], pos, b);
      assert ReadU32(buf, pos + 84) == 1;
      BranchTree(t, buf, pos, b, MIDAS_TIME, Some(info));
    }

    method SaveToTree(buf: array<octet>, pos: nat, ghost b: seq<octet>, MIDAS_TIME: nat)
      requires Holds(buf[..], pos, b) && Savable(b)
      modifies this
      ensures Value() == Save(old(Value()), Item(b, MIDAS_TIME))
    {
      var CombinedName := ReadCombinedName(buf, pos, b);
      var kind := ReadKind(buf, pos, b);
      if kind == Unknown {
      } else if kind == FileKind {
        var info := ReadFileInfo(buf, pos, b);
        CombinedName := FILE_PREFIX + CombinedName + "\\" + info.filename;
        var t := FindOrCreateTree(kind, CombinedName);
        BranchTreeFromFile(t, buf, pos, b, MIDAS_TIME, info);
      } else {
        var t := FindOrCreateTree(kind, CombinedName);
        BranchTree(t, buf, pos, b, MIDAS_TIME, None);
      }
    }

    /** The walk. `visited` are the offsets in the array at which it found a bank, `end` is where it stops. */
    method AnalyzeFlowEvent(buf: array<octet>, ptr: nat, ghost a: seq<octet>, ghost banks: seq<seq<octet>>, MIDAS_TIME: nat)
      returns (visited: seq<nat>, end: nat)
      requires Holds(buf[..], ptr, a) && IsArray(a, banks) && AllSavable(ItemsOf(banks, MIDAS_TIME))
      modifies this
      ensures Value() == SaveAll(old(Value()), ItemsOf(banks, MIDAS_TIME))
      ensures visited == Offsets(banks, ARRAY_HEADER) && end == |a|
    {
      hide Savable, IsBank, Save, SaveAll, Offset;
      ghost var items := ItemsOf(banks, MIDAS_TIME);
      WalkStarts(Value(), banks, items);
      HeldCount(buf[..], ptr, a, banks);
      var dataptr: nat := ptr + ARRAY_HEADER;
      visited := [];
      for i := 0 to ReadU32(buf, ptr + 12)
        invariant dataptr == ptr + Offset(banks, ARRAY_HEADER, i)
        invariant visited == Offsets(banks, ARRAY_HEADER)[..i]
        invariant Value() == SaveAll(old(Value()), items[..i])
      {
        HeldBank(buf[..], ptr, a, banks, i);
        visited := visited + [dataptr - ptr];
        SaveNext(old(Value()), items, i);
        dataptr := AnalyzeNext(buf, dataptr, banks[i], MIDAS_TIME);
      }
      end := dataptr - ptr;
      assert items[..|items|] == items;
      OffsetEnd(banks, ARRAY_HEADER);
    }

    /** One turn of the loop. */
    method AnalyzeNext(buf: array<octet>, dataptr: nat, ghost b: seq<octet>, MIDAS_TIME: nat) returns (next: nat)
      requires Holds(buf[..], dataptr, b) && Savable(b)
      modifies this
      ensures Value() == Save(old(Value()), Item(b, MIDAS_TIME)) && next == dataptr + |b|
    {
      HeldNumbers(buf[..], dataptr, b);
      SizeArithmeticExact(b);
      SaveToTree(buf, dataptr, b, MIDAS_TIME);
      next := dataptr + Wrap32(BANK_HEADER + Wrap32(ReadU32(buf, dataptr + 80) * ReadU32(buf, dataptr + 84)));
    }
  }

  lemma WalkStarts(t: Trees, banks: seq<seq<octet>>, items: seq<Item>)
    requires AllSavable(items)
    ensures SaveAll(t, items[..0]) == t && Offset(banks, ARRAY_HEADER, 0) == ARRAY_HEADER
  {
  }

  lemma SaveNext(t: Trees, items: seq<Item>, i: nat)
    requires AllSavable(items) && i < |items|
    ensures SaveAll(t, items[..i + 1]) == Save(SaveAll(t, items[..i]), items[i])
  {
    assert items[..i + 1][..i] == items[..i];
  }

  lemma HeldCount(buf: seq<octet>, ptr: nat, a: seq<octet>, banks: seq<seq<octet>>)
    requires Holds(buf, ptr, a) && IsArray(a, banks)
    ensures U32(buf, ptr + 12) == |banks|
  {
    assert forall k | 0 <= k < |a| :: buf[ptr + k] == a[k];
  }

  /** Bank `i` stands where the sizes of the banks before it say. */
  lemma HeldBank(buf: seq<octet>, ptr: nat, a: seq<octet>, banks: seq<seq<octet>>, i: nat)
    requires Holds(buf, ptr, a) && IsArray(a, banks) && i < |banks|
    ensures Holds(buf, ptr + Offset(banks, ARRAY_HEADER, i), banks[i]) && IsBank(banks[i])
    ensures Offset(banks, ARRAY_HEADER, i + 1) == Offset(banks, ARRAY_HEADER, i) + |banks[i]|
  {
    hide IsBank, Concat, Holds, U32;
    BankAtOffset(banks, i);
    OffsetFrom(banks, ARRAY_HEADER, i);
    HeldInside(buf, ptr, a, Concat(banks), Offset(banks, 0, i), banks[i]);
  }

  lemma HeldInside(buf: seq<octet>, ptr: nat, a: seq<octet>, payload: seq<octet>, o: nat, b: seq<octet>)
    requires Holds(buf, ptr, a) && |a| >= ARRAY_HEADER && a[ARRAY_HEADER..] == payload
    requires o + |b| <= |payload| && payload[o..o + |b|] == b
    ensures Holds(buf, ptr + ARRAY_HEADER + o, b)
  {
    assert forall k | 0 <= k < |b| ::
        b[k] == payload[o + k] == a[ARRAY_HEADER + o + k] == buf[ptr + (ARRAY_HEADER + o + k)];
  }

  method ReadRow(buf: array<octet>, pos: nat, ghost b: seq<octet>, i: nat, MIDAS_TIME: nat, file: Option<FileInfo>)
    returns (row: Row)
    requires Holds(buf[..], pos, b) && IsBank(b) && i < NumberOfEntries(b)
    ensures row == Rows(b, MIDAS_TIME, file)[i]
  {
    HeldDataEndianness(buf[..], pos, b);
    var entry := ReadEntry(buf, pos, b, i);
    row := Row(entry, ReadU16(buf, pos + 76), ReadU16(buf, pos + 78), MIDAS_TIME, file);
  }

  lemma FilledNone(trees: seq<Tree>, t: nat)
    requires t < |trees|
    ensures Filled(trees, t, []) == trees
  {
    assert trees[t].rows + [] == trees[t].rows;
  }

  lemma FilledNext(trees: seq<Tree>, t: nat, rows: seq<Row>, i: nat)
    requires t < |trees| && i < |rows|
    ensures var some := Filled(trees, t, rows[..i]);
            Filled(trees, t, rows[..i + 1]) == some[t := Tree(some[t].name, some[t].rows + [rows[i]])]
  {
    assert rows[..i + 1] == rows[..i] + [rows[i]];
    assert trees[t].rows + (rows[..i] + [rows[i]]) == trees[t].rows + rows[..i] + [rows[i]];
  }

  lemma HeldDataEndianness(buf: seq<octet>, pos: nat, b: seq<octet>)
    requires Holds(buf, pos, b) && |b| >= BANK_HEADER
    ensures U16(buf, pos + 76) == TimestampEndianness(b) && U16(buf, pos + 78) == DataEndianness(b)
  {
    assert forall i | 0 <= i < |b| :: buf[pos + i] == b[i];
  }

  method ReadKind(buf: array<octet>, pos: nat, ghost b: seq<octet>) returns (kind: Kind)
    requires Holds(buf[..], pos, b) && |b| >= BANK_HEADER
    ensures kind == KindOf(b)
  {
    var header := buf[pos..pos + BANK_HEADER];
    assert header == b[..BANK_HEADER] by {
      assert forall k | 0 <= k < |b| :: buf[pos + k] == b[k];
    }
    assert header[TYPE_AT..CATEGORY_AT] == b[TYPE_AT..CATEGORY_AT];
    kind := KindOf(header);
  }

  method ReadCombinedName(buf: array<octet>, pos: nat, ghost b: seq<octet>) returns (name: string)
    requires Holds(buf[..], pos, b) && |b| >= BANK_HEADER && TitleClosed(b)
    ensures name == CombinedName(b)
  {
    HeldNumbers(buf[..], pos, b);
    var category := buf[pos + CATEGORY_AT..pos + VARNAME_AT];
    assert category == b[CATEGORY_AT..VARNAME_AT] by {
      assert forall k | 0 <= k < |b| :: buf[pos + k] == b[k];
    }
    var first;
    if SameUpTo(category, THISHOST, 8) {
      NamesFromMemory(buf[pos..], b);
      assert buf[pos..][EQUIPMENT_AT..] == buf[pos + EQUIPMENT_AT..];
      first := SanitiseBankString(buf[pos + EQUIPMENT_AT..], EQUIPMENT_SIZE);
    } else {
      first := ReadCategory(buf, pos, b);
    }
    var variable := ReadVariableName(buf, pos, b);
    name := first + "\\" + variable;
  }

  method ReadFileInfo(buf: array<octet>, pos: nat, ghost b: seq<octet>) returns (h: FileInfo)
    requires Holds(buf[..], pos, b) && Savable(b) && KindOf(b) == FileKind
    ensures Some(h) == FileOf(b)
  {
    FirstEntryInBuffer(buf[..], pos, b);
    h := ReadHeader(buf, pos + BANK_HEADER + TIMESTAMP_SIZE, Entry(b, 0)[TIMESTAMP_SIZE..]);
  }

  lemma FirstEntryInBuffer(buf: seq<octet>, pos: nat, b: seq<octet>)
    requires Holds(buf, pos, b) && IsBank(b) && NumberOfEntries(b) > 0 && BlockSize(b) >= TIMESTAMP_SIZE
    ensures var start := pos + BANK_HEADER + TIMESTAMP_SIZE;
            start <= |buf| && Entry(b, 0)[TIMESTAMP_SIZE..] <= buf[start..]
  {
    EntryInBank(b, 0);
    var start, data := pos + BANK_HEADER + TIMESTAMP_SIZE, Entry(b, 0)[TIMESTAMP_SIZE..];
    assert forall k | 0 <= k < |b| :: buf[pos + k] == b[k];
    assert EntryStart(b, 0) == BANK_HEADER;
    assert forall k | 0 <= k < |data| :: data[k] == b[BANK_HEADER + TIMESTAMP_SIZE + k] == buf[start + k];
    assert buf[start..start + |data|] == data;
  }
}
