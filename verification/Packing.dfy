/** What a client packs is what the walks accept: arrays written from headers and entries. */
module Packing {
  import opened CStrings
  import opened GemBank
  import opened BankNames
  import opened FrontEnd
  import Analyzer
  import ClientBanks
  import Pipeline
  import opened SocketReader

  /** The tags of the six types of numbers. */
  predicate Numeric(tag: seq<octet>)
    requires |tag| == 4
  {
    tag[..3] in ["DBL", "FLT", "I32", "U16"] || tag in ["BOOL", "U32" + [NUL]]
  }

  /** Header and entries of a bank of numbers. */
  ghost predicate Packable(f: Fields)
  {
    && Describable(f) && |f.entries| > 0 && f.blockSize >= TIMESTAMP_SIZE
    && Numeric(f.title[4..8])
    && Closed(f.title[CATEGORY_AT..VARNAME_AT])
    && Closed(f.title[VARNAME_AT..EQUIPMENT_AT])
    && Closed(f.title[EQUIPMENT_AT..EQUIPMENT_AT + EQUIPMENT_SIZE])
  }

  ghost predicate AllPackable(fs: seq<Fields>)
  {
    forall i | 0 <= i < |fs| :: Packable(fs[i])
  }

  lemma TitleOf(f: Fields)
    requires Describable(f)
    ensures var b := WriteBank(f);
            && b[TYPE_AT..CATEGORY_AT] == f.title[TYPE_AT..CATEGORY_AT]
            && b[CATEGORY_AT..VARNAME_AT] == f.title[CATEGORY_AT..VARNAME_AT]
            && b[VARNAME_AT..EQUIPMENT_AT] == f.title[VARNAME_AT..EQUIPMENT_AT]
            && b[EQUIPMENT_AT..EQUIPMENT_AT + EQUIPMENT_SIZE] == f.title[EQUIPMENT_AT..EQUIPMENT_AT + EQUIPMENT_SIZE]
  {
    var b := WriteBank(f);
    HeaderFields(f);
    assert forall i | 0 <= i < 72 :: b[i] == b[..72][i] == f.title[i];
  }

  /** Both walks accept such a bank and find its entries in it. */
  lemma PackedBank(f: Fields)
    requires Packable(f)
    ensures var b := WriteBank(f);
            && WellFormed(b) && RouteOf(b) == ToHistory && Analyzer.Savable(b)
            && IsBank(b) && Entries(b) == f.entries
  {
    hide WriteBank, KindOfType, Closed;
    ClientBanks.KindByTag(f.title[4..8]);
    WriteReadBank(f);
    HeaderFields(f);
    TitleOf(f);
  }

  function Packed(fs: seq<Fields>): (r: seq<seq<octet>>)
    requires forall i | 0 <= i < |fs| :: Describable(fs[i])
    ensures |r| == |fs| && forall i | 0 <= i < |r| :: r[i] == WriteBank(fs[i])
  {
    seq(|fs|, i requires 0 <= i < |fs| => WriteBank(fs[i]))
  }

  /** Any list of such banks that 32-bit sizes can describe makes an array both walks accept. */
  lemma PackedArray(id: nat, fs: seq<Fields>)
    requires AllPackable(fs) && id < TWO32 && |fs| < TWO32
    requires ARRAY_HEADER + |Concat(Packed(fs))| < TWO32
    ensures var banks := Packed(fs);
            && IsArray(MakeArray(id, banks), banks) && AllWellFormed(banks) && Pipeline.Storable(banks)
  {
    hide MakeArray, WellFormed, Analyzer.Savable, Describable, WriteBank, IsBank;
    var banks := Packed(fs);
    forall i | 0 <= i < |fs| ensures WellFormed(banks[i]) && Analyzer.Savable(banks[i]) && IsBank(banks[i]) {
      PackedBank(fs[i]);
    }
    MakeArrayIsArray(id, banks);
  }

  function Zeros(n: nat): (r: seq<octet>)
    ensures |r| == n && forall i | 0 <= i < n :: r[i] == NUL
  {
    seq(n, _ => NUL)
  }

  /** One bank of one entry that brings the array to exactly `size` bytes. */
  function Filling(size: nat): Fields
    requires size >= ARRAY_HEADER + BANK_HEADER
  {
    var n := size - ARRAY_HEADER - BANK_HEADER;
    Fields("GEB1DBL" + Zeros(65), 0, 65535, 0, 0, n, [Zeros(n)])
  }

  lemma FillingPacks(size: nat)
    requires ARRAY_HEADER + BANK_HEADER + TIMESTAMP_SIZE <= size < TWO31
    ensures Packable(Filling(size)) && |WriteBank(Filling(size))| == size - ARRAY_HEADER
  {
    var f := Filling(size);
    var title := f.title;
    assert Concat(f.entries) == f.entries[0];
    assert title[TYPE_AT..CATEGORY_AT] == "DBL" + [NUL];
    assert title[CATEGORY_AT] == NUL && title[VARNAME_AT] == NUL && title[EQUIPMENT_AT] == NUL;
    assert title[CATEGORY_AT..VARNAME_AT][0] == NUL;
    assert title[VARNAME_AT..EQUIPMENT_AT][0] == NUL;
    assert title[EQUIPMENT_AT..EQUIPMENT_AT + EQUIPMENT_SIZE][0] == NUL;
  }

  /** An array of exactly the event size, which both walks accept and which the check against the event size
      lets pass: behind any headers it ends outside the event buffer. */
  lemma FullArrayEndsOutside(eventSize: nat, ahead: nat)
    requires ARRAY_HEADER + BANK_HEADER + TIMESTAMP_SIZE <= eventSize < TWO31 && ahead > 0
    ensures Describable(Filling(eventSize))
    ensures var banks := [WriteBank(Filling(eventSize))];
            ARRAY_HEADER + |Concat(banks)| < TWO32 &&
            var a := MakeArray(0, banks);
            && IsArray(a, banks) && AllWellFormed(banks) && Pipeline.Storable(banks)
            && |a| == eventSize && Receive(a, [|a|], eventSize) == Received(eventSize)
            && ahead + Taken(a, [|a|], eventSize) > eventSize
  {
    hide WriteBank, MakeArray, Filling, Taken, Receive, WellFormed, IsBank;
    FillingPacks(eventSize);
    var fs := [Filling(eventSize)];
    var banks := [WriteBank(fs[0])];
    assert Packed(fs) == banks;
    assert Concat(banks) == banks[0];
    PackedArray(0, fs);
    Pipeline.AcceptedYetOutside(MakeArray(0, banks), banks, eventSize, ahead);
  }
}
