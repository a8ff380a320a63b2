/** libGEM/include/GEM_BANK.h: the layout of banks and bank arrays, read straight from the bytes. */
module GemBank {
  import opened CStrings

  // ---------- numbers ----------

  const TWO32: int := 0x1_0000_0000

  function U16(s: seq<octet>, p: nat): (n: nat)
    requires p + 2 <= |s|
    ensures n < 0x1_0000
  {
    s[p] as int + 0x100 * s[p + 1] as int
  }

  function U32(s: seq<octet>, p: nat): (n: nat)
    requires p + 4 <= |s|
    ensures n < TWO32
  {
    U16(s, p) + 0x1_0000 * U16(s, p + 2)
  }

  function U64(s: seq<octet>, p: nat): (n: nat)
    requires p + 8 <= |s|
    ensures n < TWO32 * TWO32
  {
    U32(s, p) + TWO32 * U32(s, p + 4)
  }

  function Put16(n: nat): (s: seq<octet>)
    requires n < 0x1_0000
    ensures |s| == 2 && U16(s, 0) == n
  {
    [(n % 0x100) as char, (n / 0x100) as char]
  }

  function Put32(n: nat): (s: seq<octet>)
    requires n < TWO32
    ensures |s| == 4 && U32(s, 0) == n
  {
    Put16(n % 0x1_0000) + Put16(n / 0x1_0000)
  }

  /** A 32-bit unsigned sum or product. */
  function Wrap32(n: int): (r: nat)
    ensures r < TWO32 && (0 <= n < TWO32 ==> r == n)
  {
    n % TWO32
  }

  const TWO31: int := 0x8000_0000

  /** Conversion to a 32-bit int. */
  function ToInt32(x: int): (r: int)
    ensures -TWO31 <= r < TWO31 && (-TWO31 <= x < TWO31 ==> r == x)
  {
    (x + TWO31) % (2 * TWO31) - TWO31
  }

  /** The conversions keep the low 32 bits: unsigned, or in two's complement. */
  lemma Low32Bits(x: int)
    ensures 0 <= Wrap32(x) < 4294967296 && exists q: int :: x == Wrap32(x) + 4294967296 * q
    ensures -2147483648 <= ToInt32(x) < 2147483648 && exists q: int :: x == ToInt32(x) + 4294967296 * q
  {
    assert x == Wrap32(x) + 4294967296 * (x / 4294967296);
    assert x == ToInt32(x) + 4294967296 * ((x + 2147483648) / 4294967296);
  }

  // ---------- byte order ----------

  function Reversed(s: seq<octet>): (r: seq<octet>)
    ensures |r| == |s| && forall i | 0 <= i < |s| :: r[i] == s[|s| - 1 - i]
  {
    seq(|s|, i requires 0 <= i < |s| => s[|s| - 1 - i])
  }

  /** The swapping loop, in place. */
  method change_endian(p: array<octet>)
    modifies p
    ensures p[..] == Reversed(old(p[..]))
  {
    var n := p.Length;
    for i := 0 to n / 2
      invariant forall k | 0 <= k < i :: p[k] == old(p[n - 1 - k]) && p[n - 1 - k] == old(p[k])
      invariant forall k | i <= k < n - i :: p[k] == old(p[k])
    {
      p[i], p[n - i - 1] := p[n - i - 1], p[i];
    }
  }

  lemma ReversedTwice(s: seq<octet>)
    ensures Reversed(Reversed(s)) == s
  {
  }

  // ---------- time stamps ----------

  const LITTLE_ENDIAN: nat := 2
  const LABVIEW_EPOCH: int := 2082844800

  function Signed64(n: nat): int
    requires n < TWO32 * TWO32
  {
    if n < TWO32 * TWO32 / 2 then n else n - TWO32 * TWO32
  }

  /** Seconds since 1970 of the entry at the front of `s`: the first eight bytes, big-endian unless the
      bank says little-endian. */
  function UnixTimestamp(s: seq<octet>, endianness: nat): int
    requires |s| >= 8
  {
    Signed64(if endianness != LITTLE_ENDIAN then U64(Reversed(s[..8]), 0) else U64(s, 0)) - LABVIEW_EPOCH
  }

  // ---------- a bank ----------

  const BANK_HEADER: nat := 88
  const TIMESTAMP_SIZE: nat := 16

  function BlockSize(b: seq<octet>): nat
    requires |b| >= BANK_HEADER
  {
    U32(b, 80)
  }

  function NumberOfEntries(b: seq<octet>): nat
    requires |b| >= BANK_HEADER
  {
    U32(b, 84)
  }

  /** `GetTotalSize` in its 32-bit arithmetic. */
  function TotalSize(b: seq<octet>): nat
    requires |b| >= BANK_HEADER
  {
    Wrap32(BANK_HEADER + Wrap32(BlockSize(b) * NumberOfEntries(b)))
  }

  /** The bytes of exactly one bank: its header and its entries. */
  predicate IsBank(b: seq<octet>)
  {
    |b| >= BANK_HEADER && |b| == BANK_HEADER + BlockSize(b) * NumberOfEntries(b) && |b| < TWO32
  }

  lemma SizeArithmeticExact(b: seq<octet>)
    requires IsBank(b)
    ensures TotalSize(b) == |b|
  {
    MulNonNegative(BlockSize(b), NumberOfEntries(b));
  }

  lemma MulNonNegative(a: nat, b: nat)
    ensures a * b >= 0
  {
  }

  /** Where `GetDataEntry(i)` starts; one past the last entry for i == NumberOfEntries. */
  function EntryStart(b: seq<octet>, i: nat): nat
    requires |b| >= BANK_HEADER
  {
    MulNonNegative(BlockSize(b), i);
    BANK_HEADER + BlockSize(b) * i
  }

  lemma EntryInBank(b: seq<octet>, i: nat)
    requires IsBank(b) && i < NumberOfEntries(b)
    ensures EntryStart(b, i) + BlockSize(b) == EntryStart(b, i + 1) <= |b|
  {
    MulMonotone(BlockSize(b), i + 1, NumberOfEntries(b));
    assert BlockSize(b) * (i + 1) == BlockSize(b) * i + BlockSize(b);
  }

  lemma MulMonotone(a: nat, i: nat, j: nat)
    requires i <= j
    ensures a * i <= a * j
  {
  }

  function Entry(b: seq<octet>, i: nat): (e: seq<octet>)
    requires IsBank(b) && i < NumberOfEntries(b)
    ensures |e| == BlockSize(b)
  {
    EntryInBank(b, i);
    b[EntryStart(b, i)..EntryStart(b, i + 1)]
  }

  function Entries(b: seq<octet>): (es: seq<seq<octet>>)
    requires IsBank(b)
    ensures |es| == NumberOfEntries(b) && forall i | 0 <= i < |es| :: es[i] == Entry(b, i)
  {
    seq(NumberOfEntries(b), i requires 0 <= i < NumberOfEntries(b) => Entry(b, i))
  }

  // ---------- writing a bank ----------

  datatype Fields = Fields(
    title: seq<octet>,              // BANK_TITLE: tag, type, category, name, equipment
    historySettings: nat,
    historyPeriod: nat,
    timestampEndianness: nat,
    dataEndianness: nat,
    blockSize: nat,
    entries: seq<seq<octet>>)

  ghost predicate Describable(f: Fields)
  {
    && |f.title| == 72
    && f.historySettings < 0x1_0000 && f.historyPeriod < 0x1_0000
    && f.timestampEndianness < 0x1_0000 && f.dataEndianness < 0x1_0000
    && f.blockSize < TWO32 && |f.entries| < TWO32
    && BANK_HEADER + |Concat(f.entries)| < TWO32
    && forall i | 0 <= i < |f.entries| :: |f.entries[i]| == f.blockSize
  }

  function WriteBank(f: Fields): (b: seq<octet>)
    requires Describable(f)
    ensures |b| == BANK_HEADER + |Concat(f.entries)|
  {
    f.title
    + (Put16(f.historySettings) + Put16(f.historyPeriod)
       + (Put16(f.timestampEndianness) + Put16(f.dataEndianness)))
    + (Put32(f.blockSize) + Put32(|f.entries|))
    + Concat(f.entries)
  }

  function ReadBank(b: seq<octet>): Fields
    requires IsBank(b)
  {
    Fields(b[..72], U16(b, 72), U16(b, 74), U16(b, 76), U16(b, 78), BlockSize(b), Entries(b))
  }

  lemma {:induction false} EqualBlocks(es: seq<seq<octet>>, size: nat, i: nat)
    requires i <= |es| && forall k | 0 <= k < |es| :: |es[k]| == size
    ensures Offset(es, 0, i) == size * i
  {
    if i > 0 {
      EqualBlocks(es, size, i - 1);
      assert size * i == size * (i - 1) + size;
    }
  }

  /** What is written is a bank, and reading it gives the fields back. */
  lemma WriteReadBank(f: Fields)
    requires Describable(f)
    ensures IsBank(WriteBank(f)) && ReadBank(WriteBank(f)) == f
  {
    var b := WriteBank(f);
    HeaderFields(f);
    EqualBlocks(f.entries, f.blockSize, |f.entries|);
    OffsetEnd(f.entries, 0);
    forall i | 0 <= i < |f.entries| ensures Entry(b, i) == f.entries[i] {
      EntryOf(f.entries, f.blockSize, b, i);
    }
    assert Entries(b) == f.entries;
  }

  lemma EntryOf(entries: seq<seq<octet>>, size: nat, b: seq<octet>, i: nat)
    requires IsBank(b) && b[BANK_HEADER..] == Concat(entries) && i < |entries| == NumberOfEntries(b)
    requires BlockSize(b) == size && forall k | 0 <= k < |entries| :: |entries[k]| == size
    ensures Entry(b, i) == entries[i]
  {
    EqualBlocks(entries, size, i);
    EqualBlocks(entries, size, i + 1);
    BankAtOffset(entries, i);
    EntryInBank(b, i);
    assert Entry(b, i) == b[BANK_HEADER..][size * i..size * (i + 1)];
  }

  lemma HeaderFields(f: Fields)
    requires Describable(f)
    ensures var b := WriteBank(f);
            && b[..72] == f.title && b[BANK_HEADER..] == Concat(f.entries)
            && U16(b, 72) == f.historySettings && U16(b, 74) == f.historyPeriod
            && U16(b, 76) == f.timestampEndianness && U16(b, 78) == f.dataEndianness
            && BlockSize(b) == f.blockSize && NumberOfEntries(b) == |f.entries|
  {
    var b := WriteBank(f);
    assert b[72..74] == Put16(f.historySettings) && b[74..76] == Put16(f.historyPeriod);
    assert b[76..78] == Put16(f.timestampEndianness) && b[78..80] == Put16(f.dataEndianness);
    assert b[80..84] == Put32(f.blockSize) && b[84..88] == Put32(|f.entries|);
    U32Slice(b, 80);
    U32Slice(b, 84);
    U16Slice(b, 72);
    U16Slice(b, 74);
    U16Slice(b, 76);
    U16Slice(b, 78);
  }

  lemma U16Slice(s: seq<octet>, p: nat)
    requires p + 2 <= |s|
    ensures U16(s, p) == U16(s[p..p + 2], 0)
  {
  }

  // ---------- an array of banks ----------

  const ARRAY_HEADER: nat := 16

  function Concat(banks: seq<seq<octet>>): seq<octet>
  {
    if banks == [] then [] else banks[0] + Concat(banks[1..])
  }

  ghost predicate AllBanks(banks: seq<seq<octet>>)
  {
    forall i | 0 <= i < |banks| :: IsBank(banks[i])
  }

  /** The bytes of one array message holding these banks. */
  ghost predicate IsArray(a: seq<octet>, banks: seq<seq<octet>>)
  {
    && |a| >= ARRAY_HEADER && |a| < TWO32
    && a[..4] == "GEA1"
    && U32(a, 8) == |a| - ARRAY_HEADER
    && U32(a, 12) == |banks|
    && a[ARRAY_HEADER..] == Concat(banks)
    && AllBanks(banks)
  }

  /** Such a message exists for every list of banks that 32-bit sizes can describe. */
  function MakeArray(id: nat, banks: seq<seq<octet>>): (a: seq<octet>)
    requires id < TWO32 && |banks| < TWO32 && ARRAY_HEADER + |Concat(banks)| < TWO32
    ensures |a| == ARRAY_HEADER + |Concat(banks)|
  {
    "GEA1" + Put32(id) + (Put32(|Concat(banks)|) + Put32(|banks|)) + Concat(banks)
  }

  lemma MakeArrayIsArray(id: nat, banks: seq<seq<octet>>)
    requires id < TWO32 && |banks| < TWO32 && ARRAY_HEADER + |Concat(banks)| < TWO32
    requires AllBanks(banks)
    ensures IsArray(MakeArray(id, banks), banks) && U32(MakeArray(id, banks), 4) == id
  {
    ArrayHeader(Put32(id), Put32(|Concat(banks)|), Put32(|banks|), Concat(banks));
  }

  lemma ArrayHeader(i: seq<octet>, s: seq<octet>, n: seq<octet>, rest: seq<octet>)
    requires |i| == 4 && |s| == 4 && |n| == 4
    ensures var a := "GEA1" + i + (s + n) + rest;
            && a[..4] == "GEA1" && a[ARRAY_HEADER..] == rest
            && U32(a, 4) == U32(i, 0) && U32(a, 8) == U32(s, 0) && U32(a, 12) == U32(n, 0)
  {
    var a := "GEA1" + i + (s + n) + rest;
    assert a[4..8] == i && a[8..12] == s && a[12..16] == n;
    U32Slice(a, 4);
    U32Slice(a, 8);
    U32Slice(a, 12);
  }

  lemma U32Slice(s: seq<octet>, p: nat)
    requires p + 4 <= |s|
    ensures U32(s, p) == U32(s[p..p + 4], 0)
  {
  }

  /** The offset of each bank behind `start`, and of the end. */
  function Offset(banks: seq<seq<octet>>, start: nat, i: nat): nat
    requires i <= |banks|
  {
    if i == 0 then start else Offset(banks, start, i - 1) + |banks[i - 1]|
  }

  function Offsets(banks: seq<seq<octet>>, start: nat): (r: seq<nat>)
    ensures |r| == |banks| && forall i | 0 <= i < |r| :: r[i] == Offset(banks, start, i)
  {
    seq(|banks|, i requires 0 <= i < |banks| => Offset(banks, start, i))
  }

  lemma {:induction false} OffsetShift(banks: seq<seq<octet>>, start: nat, i: nat)
    requires 1 <= i <= |banks|
    ensures Offset(banks, start, i) == Offset(banks[1..], start + |banks[0]|, i - 1)
  {
    if i > 1 {
      OffsetShift(banks, start, i - 1);
    }
  }

  lemma {:induction false} OffsetEnd(banks: seq<seq<octet>>, start: nat)
    ensures Offset(banks, start, |banks|) == start + |Concat(banks)|
  {
    if banks != [] {
      OffsetShift(banks, start, |banks|);
      OffsetEnd(banks[1..], start + |banks[0]|);
    }
  }

  lemma {:induction false} BankAtOffset(banks: seq<seq<octet>>, i: nat)
    requires i < |banks|
    ensures Offset(banks, 0, i) + |banks[i]| == Offset(banks, 0, i + 1) <= |Concat(banks)|
    ensures Concat(banks)[Offset(banks, 0, i)..Offset(banks, 0, i + 1)] == banks[i]
  {
    if i > 0 {
      BankAtOffset(banks[1..], i - 1);
      OffsetShift(banks, 0, i);
      OffsetShift(banks, 0, i + 1);
      OffsetFrom(banks[1..], |banks[0]|, i - 1);
      OffsetFrom(banks[1..], |banks[0]|, i);
      var o, e := Offset(banks[1..], 0, i - 1), Offset(banks[1..], 0, i);
      ShiftedSlice(banks[0], Concat(banks[1..]), o, e);
    }
  }

  lemma ShiftedSlice(x: seq<octet>, y: seq<octet>, o: nat, e: nat)
    requires o <= e <= |y|
    ensures (x + y)[|x| + o..|x| + e] == y[o..e]
  {
  }

  lemma {:induction false} OffsetFrom(banks: seq<seq<octet>>, start: nat, i: nat)
    requires i <= |banks|
    ensures Offset(banks, start, i) == start + Offset(banks, 0, i)
  {
    if i > 0 {
      OffsetFrom(banks, start, i - 1);
    }
  }

  // ---------- the payload partition ----------

  /** A piece of the payload: the header of bank `bank`, or one of its entries. */
  datatype Region = Header(bank: nat) | Data(bank: nat, entry: nat)

  predicate IsRegion(banks: seq<seq<octet>>, r: Region)
  {
    && r.bank < |banks| && IsBank(banks[r.bank])
    && (r.Data? ==> r.entry < NumberOfEntries(banks[r.bank]))
  }

  function RegionStart(banks: seq<seq<octet>>, r: Region): nat
    requires IsRegion(banks, r)
  {
    Offset(banks, 0, r.bank) + if r.Header? then 0 else EntryStart(banks[r.bank], r.entry)
  }

  function RegionEnd(banks: seq<seq<octet>>, r: Region): nat
    requires IsRegion(banks, r)
  {
    Offset(banks, 0, r.bank) + EntryStart(banks[r.bank], if r.Header? then 0 else r.entry + 1)
  }

  ghost predicate Covers(banks: seq<seq<octet>>, r: Region, pos: nat)
  {
    IsRegion(banks, r) && RegionStart(banks, r) <= pos < RegionEnd(banks, r)
  }

  lemma RegionInBank(banks: seq<seq<octet>>, r: Region)
    requires IsRegion(banks, r)
    ensures Offset(banks, 0, r.bank) <= RegionStart(banks, r)
    ensures RegionEnd(banks, r) <= Offset(banks, 0, r.bank + 1) <= |Concat(banks)|
  {
    BankAtOffset(banks, r.bank);
    var b := banks[r.bank];
    MulNonNegative(BlockSize(b), NumberOfEntries(b));
    if r.Data? {
      EntryInBank(b, r.entry);
    }
  }

  lemma {:induction false} OffsetMonotone(banks: seq<seq<octet>>, i: nat, j: nat)
    requires i <= j <= |banks|
    ensures Offset(banks, 0, i) <= Offset(banks, 0, j)
  {
    if i < j {
      OffsetMonotone(banks, i, j - 1);
    }
  }

  /** Every byte of the payload lies in exactly one header or entry, and none of them reaches outside. */
  lemma PayloadPartition(banks: seq<seq<octet>>, pos: nat)
    requires AllBanks(banks)
    ensures pos < |Concat(banks)| <==> exists r :: Covers(banks, r, pos)
    ensures forall r, r' :: Covers(banks, r, pos) && Covers(banks, r', pos) ==> r == r'
  {
    if pos < |Concat(banks)| {
      var r := Locate(banks, pos);
    }
    forall r | Covers(banks, r, pos) ensures pos < |Concat(banks)| {
      RegionInBank(banks, r);
    }
    forall r, r' | Covers(banks, r, pos) && Covers(banks, r', pos) ensures r == r' {
      CoveredOnce(banks, r, r', pos);
    }
  }

  lemma CoveredOnce(banks: seq<seq<octet>>, r: Region, r': Region, pos: nat)
    requires Covers(banks, r, pos) && Covers(banks, r', pos)
    ensures r == r'
  {
    RegionInBank(banks, r);
    RegionInBank(banks, r');
    if r.bank < r'.bank {
      OffsetMonotone(banks, r.bank + 1, r'.bank);
    } else if r'.bank < r.bank {
      OffsetMonotone(banks, r'.bank + 1, r.bank);
    } else {
      SameBankOnce(banks, r, r', pos);
    }
  }

  lemma SameBankOnce(banks: seq<seq<octet>>, r: Region, r': Region, pos: nat)
    requires Covers(banks, r, pos) && Covers(banks, r', pos) && r.bank == r'.bank
    ensures r == r'
  {
    var z := BlockSize(banks[r.bank]);
    if r.Data? && r'.Data? {
      if r.entry < r'.entry {
        MulMonotone(z, r.entry + 1, r'.entry);
      } else if r'.entry < r.entry {
        MulMonotone(z, r'.entry + 1, r.entry);
      }
    } else if r.Data? {
      MulNonNegative(z, r.entry);
    } else if r'.Data? {
      MulNonNegative(z, r'.entry);
    }
  }

  lemma {:induction false} Locate(banks: seq<seq<octet>>, pos: nat) returns (r: Region)
    requires AllBanks(banks) && pos < |Concat(banks)|
    ensures Covers(banks, r, pos)
  {
    OffsetEnd(banks, 0);
    var i := LocateBank(banks, pos, |banks|);
    BankAtOffset(banks, i);
    var b := banks[i];
    var within := pos - Offset(banks, 0, i);
    if within < BANK_HEADER {
      r := Header(i);
      assert EntryStart(b, 0) == BANK_HEADER;
    } else {
      var k := LocateEntry(b, within, NumberOfEntries(b));
      r := Data(i, k);
    }
  }

  lemma {:induction false} LocateBank(banks: seq<seq<octet>>, pos: nat, n: nat) returns (i: nat)
    requires n <= |banks| && pos < Offset(banks, 0, n)
    ensures i < n && Offset(banks, 0, i) <= pos < Offset(banks, 0, i + 1)
  {
    if Offset(banks, 0, n - 1) <= pos {
      i := n - 1;
    } else {
      i := LocateBank(banks, pos, n - 1);
    }
  }

  lemma {:induction false} LocateEntry(b: seq<octet>, within: nat, n: nat) returns (k: nat)
    requires |b| >= BANK_HEADER && BANK_HEADER <= within < EntryStart(b, n)
    ensures k < n && EntryStart(b, k) <= within < EntryStart(b, k + 1)
  {
    if EntryStart(b, n - 1) <= within {
      k := n - 1;
    } else {
      k := LocateEntry(b, within, n - 1);
    }
  }
}
