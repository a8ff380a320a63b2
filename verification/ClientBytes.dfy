/** What a client sends, byte by byte: the layout of libGEM/include/GEM_BANK.h, and the bank that
    libGEM/src/test.cxx fills in and reads back. */
module ClientBytes {
  import opened CStrings
  import opened GemBank
  import opened BankNames
  import opened HistoryLogger

  // ---------- numbers and texts as bytes ----------

  /** Least significant byte first. */
  function Little(n: nat, size: nat): (s: seq<octet>)
    ensures |s| == size
  {
    if size == 0 then [] else [(n % 256) as char] + Little(n / 256, size - 1)
  }

  /** Most significant byte first. */
  function Big(n: nat, size: nat): (s: seq<octet>)
    ensures |s| == size
  {
    if size == 0 then [] else Big(n / 256, size - 1) + [(n % 256) as char]
  }

  function Padded(text: seq<octet>, size: nat): (s: seq<octet>)
    requires |text| <= size
    ensures |s| == size
  {
    text + seq(size - |text|, _ => NUL)
  }

  lemma {:induction false} BigIsLittleReversed(n: nat, size: nat)
    ensures Reversed(Big(n, size)) == Little(n, size)
  {
    if size > 0 {
      BigIsLittleReversed(n / 256, size - 1);
      var b := Big(n / 256, size - 1);
      assert Reversed(b + [(n % 256) as char]) == [(n % 256) as char] + Reversed(b);
    }
  }

  // ---------- the numbers of a header ----------

  lemma LittleSplits(n: nat, size: nat)
    requires size >= 2
    ensures Little(n, size) == Little(n % 65536, 2) + Little(n / 65536, size - 2)
  {
    assert n / 256 / 256 == n / 65536 && (n % 65536) % 256 == n % 256;
    assert (n % 65536) / 256 % 256 == n / 256 % 256;
    assert Little(n, size) == [(n % 256) as char] + ([(n / 256 % 256) as char] + Little(n / 256 / 256, size - 2));
    assert Little(n % 65536, 2) ==
           [(n % 65536 % 256) as char] + ([(n % 65536 / 256 % 256) as char] + Little(n % 65536 / 256 / 256, 0));
  }

  /** Two bytes of a header are a number, its low byte first. */
  lemma Put16IsLittle(n: nat)
    requires n < 65536
    ensures Put16(n) == Little(n, 2) && U16(Little(n, 2), 0) == n
  {
    assert Little(n, 2) == [(n % 256) as char] + ([(n / 256 % 256) as char] + Little(n / 256 / 256, 0));
  }

  lemma Put32IsLittle(n: nat)
    requires n < 0x1_0000_0000
    ensures Put32(n) == Little(n, 4) && U32(Little(n, 4), 0) == n
  {
    LittleSplits(n, 4);
    Put16IsLittle(n % 65536);
    Put16IsLittle(n / 65536);
    U16Slice(Put32(n), 2);
  }

  lemma LittleHalves(n: nat)
    ensures Little(n, 8) == Little(n % 0x1_0000_0000, 4) + Little(n / 0x1_0000_0000, 4)
  {
    hide Little;
    var low := n % 0x1_0000_0000;
    LittleSplits(n, 8);
    LittleSplits(n / 65536, 6);
    LittleSplits(low, 4);
    assert n / 65536 / 65536 == n / 0x1_0000_0000;
    assert low % 65536 == n % 65536 && low / 65536 == n / 65536 % 65536;
  }

  /** Eight bytes, and whatever follows them. */
  lemma LittleReads(n: nat, rest: seq<octet>)
    requires n < 0x1_0000_0000_0000_0000
    ensures U64(Little(n, 8) + rest, 0) == n
  {
    hide Little, U32;
    var s, low, high := Little(n, 8) + rest, n % 0x1_0000_0000, n / 0x1_0000_0000;
    LittleHalves(n);
    Put32IsLittle(low);
    Put32IsLittle(high);
    assert s[0..4] == Little(low, 4) && s[4..8] == Little(high, 4);
    U32Slice(s, 0);
    U32Slice(s, 4);
  }

  // ---------- time stamps ----------

  /** The seconds since 1904 fit into 64 signed bits. */
  predicate TimeFits(t: int)
  {
    -0x8000_0000_0000_0000 <= t + 2082844800 < 0x8000_0000_0000_0000
  }

  /** `t` seconds since 1970, counted from 1904, in two's complement. */
  function Seconds(t: int): (n: nat)
    requires TimeFits(t)
    ensures n < 0x1_0000_0000_0000_0000
  {
    if t + 2082844800 >= 0 then t + 2082844800 else t + 2082844800 + 0x1_0000_0000_0000_0000
  }

  /** LabVIEW is big-endian; a client that is not says so with a 2 in the header. */
  function Stamp(t: int, order: nat): (s: seq<octet>)
    requires TimeFits(t)
    ensures |s| == 8
  {
    if order == 2 then Little(Seconds(t), 8) else Big(Seconds(t), 8)
  }

  /** Every time that 64 bits can hold is read back, in either byte order. */
  lemma StampReads(t: int, order: nat, rest: seq<octet>)
    requires TimeFits(t)
    ensures UnixTimestamp(Stamp(t, order) + rest, order) == t
  {
    hide Little, Big, U64;
    var s, n := Stamp(t, order) + rest, Seconds(t);
    if order == 2 {
      LittleReads(n, rest);
    } else {
      assert s[..8] == Big(n, 8);
      BigIsLittleReversed(n, 8);
      LittleReads(n, []);
      assert Little(n, 8) + [] == Little(n, 8);
    }
  }

  // ---------- a bank as a client packs it ----------

  /** One entry: seconds since 1970, the eight bytes of the fraction, and the data. */
  datatype Sample = Sample(time: int, fraction: seq<octet>, data: seq<octet>)

  datatype Packet = Packet(
    tag: seq<octet>,
    category: bytestring,
    variable: bytestring,
    equipment: bytestring,
    settings: nat,
    period: nat,
    timeOrder: nat,
    dataOrder: nat,
    samples: seq<Sample>)

  function SampleBytes(x: Sample, order: nat): (s: seq<octet>)
    requires TimeFits(x.time)
  {
    Stamp(x.time, order) + (x.fraction + x.data)
  }

  ghost predicate SamplesFit(p: Packet)
  {
    forall i | 0 <= i < |p.samples| ::
      && TimeFits(p.samples[i].time) && |p.samples[i].fraction| == 8
      && |p.samples[i].data| == |p.samples[0].data|
  }

  function AllSamples(p: Packet): (r: seq<seq<octet>>)
    requires SamplesFit(p)
    ensures |r| == |p.samples| && forall i | 0 <= i < |r| :: r[i] == SampleBytes(p.samples[i], p.timeOrder)
  {
    seq(|p.samples|, i requires 0 <= i < |p.samples| => SampleBytes(p.samples[i], p.timeOrder))
  }

  /** Everything fits into its field. */
  ghost predicate Sendable(p: Packet)
  {
    && |p.tag| <= 4 && |p.category| <= 16 && |p.variable| <= 16 && |p.equipment| <= 32
    && p.settings < 65536 && p.period < 65536 && p.timeOrder < 65536 && p.dataOrder < 65536
    && 0 < |p.samples| < 0x1_0000_0000 && SamplesFit(p)
    && 88 + |Concat(AllSamples(p))| < 0x1_0000_0000 && 16 + |p.samples[0].data| < 0x1_0000_0000
  }

  function Title(p: Packet): (s: seq<octet>)
    requires Sendable(p)
    ensures |s| == 72
  {
    "GEB1" + Padded(p.tag, 4)
    + (Padded(p.category, 16) + (Padded(p.variable, 16) + Padded(p.equipment, 32)))
  }

  function PacketBytes(p: Packet): seq<octet>
    requires Sendable(p)
  {
    Title(p)
    + (Little(p.settings, 2) + Little(p.period, 2)
       + (Little(p.timeOrder, 2) + Little(p.dataOrder, 2)))
    + (Little(16 + |p.samples[0].data|, 4) + Little(|p.samples|, 4))
    + Concat(AllSamples(p))
  }

  function FieldsOf(p: Packet): Fields
    requires Sendable(p)
  {
    Fields(Title(p), p.settings, p.period, p.timeOrder, p.dataOrder, 16 + |p.samples[0].data|, AllSamples(p))
  }

  lemma PacketIsWritten(p: Packet)
    requires Sendable(p)
    ensures Describable(FieldsOf(p)) && PacketBytes(p) == WriteBank(FieldsOf(p))
  {
    hide Little, Concat, Stamp, Title;
    Put16IsLittle(p.settings);
    Put16IsLittle(p.period);
    Put16IsLittle(p.timeOrder);
    Put16IsLittle(p.dataOrder);
    Put32IsLittle(16 + |p.samples[0].data|);
    Put32IsLittle(|p.samples|);
  }

  /** The fields of the title, where the layout has them. */
  lemma TitleReads(p: Packet)
    requires Sendable(p)
    ensures Title(p)[4..8] == Padded(p.tag, 4) && Title(p)[8..24] == Padded(p.category, 16)
    ensures Title(p)[24..40] == Padded(p.variable, 16) && Title(p)[40..72] == Padded(p.equipment, 32)
  {
    hide Padded;
  }

  // ---------- and as it is read ----------

  /** The ASCII codes of digits, letters, underscore and minus. */
  predicate Word(c: char)
  {
    var code := c as int;
    48 <= code <= 57 || 65 <= code <= 90 || 97 <= code <= 122 || code == 95 || code == 45
  }

  lemma WordIsKept(c: char)
    ensures Word(c) <==> Kept(c)
  {
  }

  predicate IsName(s: string)
  {
    forall i | 0 <= i < |s| :: Word(s[i])
  }

  lemma NameReads(text: bytestring, size: nat)
    requires |text| <= size && IsName(text)
    ensures Closed(Padded(text, size)) && Sanitised(Padded(text, size), size) == text
  {
    var field := Padded(text, size);
    assert field[..|text|] == text;
    if |text| < size {
      assert field[|text|] == NUL;
    }
    CStrUnique(field, text);
    forall i | 0 <= i < |text| ensures Kept(text[i]) {
      WordIsKept(text[i]);
    }
    FilterKept(text);
  }

  /** Any other character is dropped: "Equipment Type" is read as "EquipmentType". */
  lemma OtherCharactersAreDropped(a: bytestring, c: octet, b: bytestring, size: nat)
    requires IsName(a) && IsName(b) && !Word(c) && c != NUL && |a| + 1 + |b| <= size
    ensures Sanitised(Padded(a + [c] + b, size), size) == a + b
  {
    hide Kept, Filter;
    var text := a + [c] + b;
    var field := Padded(text, size);
    assert field[..|text|] == text;
    if |text| < size {
      assert field[|text|] == NUL;
    }
    CStrUnique(field, text);
    forall i | 0 <= i < |a| ensures Kept(a[i]) {
      WordIsKept(a[i]);
    }
    forall i | 0 <= i < |b| ensures Kept(b[i]) {
      WordIsKept(b[i]);
    }
    FilterKept(a);
    FilterKept(b);
    WordIsKept(c);
    FilterAppend(a, c);
    FilterConcat(a + [c], b);
  }

  ghost predicate Named(p: Packet)
  {
    Sendable(p) && IsName(p.category) && IsName(p.variable) && IsName(p.equipment)
  }

  /** A bank packed from names, numbers and samples has these names, numbers and samples. */
  lemma PacketReads(p: Packet)
    requires Named(p)
    ensures var b := PacketBytes(p);
            && Loggable(b) && b[4..8] == Padded(p.tag, 4)
            && b[8..24] == Padded(p.category, 16) && b[24..40] == Padded(p.variable, 16)
            && b[40..72] == Padded(p.equipment, 32)
            && Category(b) == p.category && VariableName(b) == p.variable && EquipmentName(b) == p.equipment
            && HistoryPeriod(b) == p.period
            && TimestampEndianness(b) == p.timeOrder && DataEndianness(b) == p.dataOrder
            && BlockSize(b) == 16 + |p.samples[0].data| && Entries(b) == AllSamples(p)
  {
    hide WriteBank, PacketBytes, Title, Padded, Sanitised, Closed, U16, U32;
    var f, b := FieldsOf(p), PacketBytes(p);
    PacketIsWritten(p);
    HeaderFields(f);
    WriteReadBank(f);
    TitleReads(p);
    TitleInBank(b, Title(p));
    NameReads(p.category, 16);
    NameReads(p.variable, 16);
    NameReads(p.equipment, 32);
  }

  lemma TitleInBank(b: seq<octet>, title: seq<octet>)
    requires |title| == 72 && title <= b
    ensures b[4..8] == title[4..8] && b[8..24] == title[8..24]
    ensures b[24..40] == title[24..40] && b[40..72] == title[40..72]
  {
  }

  /** What the history sees is the last sample and its time. */
  lemma LastSampleReads(p: Packet)
    requires Named(p)
    ensures var b, last := PacketBytes(p), p.samples[|p.samples| - 1];
            Loggable(b) && LastEntry(b) == SampleBytes(last, p.timeOrder) && LastTime(b) == last.time
  {
    hide PacketBytes, Stamp, UnixTimestamp, Category, VariableName, EquipmentName;
    var b, last := PacketBytes(p), p.samples[|p.samples| - 1];
    PacketReads(p);
    assert LastEntry(b) == Entries(b)[|p.samples| - 1];
    StampReads(last.time, p.timeOrder, last.fraction + last.data);
  }
}
