/** libGEM/include/GEM_BANK.h: the names in a bank's title and the keys made of them. */
module BankNames {
  import opened CStrings
  import opened GemBank

  predicate Kept(c: char)
  {
    'a' <= c <= 'z' || 'A' <= c <= 'Z' || '0' <= c <= '9' || c == '_' || c == '-'
  }

  function Filter(s: string): (r: string)
    ensures |r| <= |s| && forall i | 0 <= i < |r| :: Kept(r[i])
  {
    if s == "" then ""
    else if Kept(s[0]) then [s[0]] + Filter(s[1..])
    else Filter(s[1..])
  }

  function Take(s: string, n: nat): (r: string)
    ensures |r| <= n && r <= s && (|s| <= n ==> r == s)
  {
    if |s| <= n then s else s[..n]
  }

  /** The kept characters of the C string, at most `n` of them. */
  function Sanitised(input: seq<octet>, n: nat): (r: string)
    ensures |r| <= n && forall i | 0 <= i < |r| :: Kept(r[i])
  {
    Take(Filter(CStr(input)), n)
  }

  lemma {:induction false} FilterConcat(s: string, t: string)
    ensures Filter(s + t) == Filter(s) + Filter(t)
  {
    if s == "" {
      assert s + t == t;
    } else {
      assert (s + t)[1..] == s[1..] + t;
      FilterConcat(s[1..], t);
    }
  }

  lemma FilterAppend(s: string, c: char)
    ensures Filter(s + [c]) == if Kept(c) then Filter(s) + [c] else Filter(s)
  {
    FilterConcat(s, [c]);
  }

  lemma {:induction false} FilterKept(s: string)
    requires forall i | 0 <= i < |s| :: Kept(s[i])
    ensures Filter(s) == s
  {
    if s != "" {
      FilterKept(s[1..]);
    }
  }

  /** Filter, then truncate. `input` runs from the field to the end of memory, which is all a `const char*` says. The
      scratch array has assert_size + 1 cells, and every index written is checked against it. */
  method SanitiseBankString(input: seq<octet>, assert_size: nat) returns (name: string)
    requires assert_size > 0
    ensures name == Sanitised(input, assert_size)
  {
    var text := CStr(input);
    var input_size := |text|;
    var output_size := input_size + 1;
    if assert_size < input_size {
      output_size := assert_size;
    }
    var output := new octet[assert_size + 1];
    for i := 0 to output_size {
      output[i] := NUL;
    }
    var i, j := 0, 0;
    while i < input_size
      invariant 0 <= i <= input_size && 0 <= j <= i && j <= output_size && j <= assert_size
      invariant output[..j] == Filter(text[..i])
    {
      FilterNext(text, i);
      if Kept(text[i]) {
        output[j] := text[i];
      } else {
        j := j - 1;
      }
      if j >= output_size {
        break;
      }
      assert Kept(text[i]) ==> output[..j + 1] == output[..j] + [text[i]];
      i, j := i + 1, j + 1;
    }
    output[j] := NUL;
    output[assert_size] := NUL;
    Finished(output[..], text, i, j, assert_size);
    name := CStr(output[..]);
  }

  lemma FilterNext(s: string, i: nat)
    requires i < |s|
    ensures Filter(s[..i + 1]) == if Kept(s[i]) then Filter(s[..i]) + [s[i]] else Filter(s[..i])
  {
    FilterAppend(s[..i], s[i]);
    assert s[..i + 1] == s[..i] + [s[i]];
  }

  /** Either everything has been filtered, or the first `n` kept characters are in place. */
  lemma Finished(output: seq<octet>, text: string, i: nat, j: nat, n: nat)
    requires i <= |text| && j <= n < |output| && output[..j] == Filter(text[..i]) && output[j] == NUL
    requires i == |text| || j == n
    ensures CStr(output) == Take(Filter(text), n)
  {
    FilterSplit(text, i);
    assert text[i..] == "" || j == n;
    assert NUL !in output[..j];
    CStrUnique(output, output[..j]);
  }

  lemma FilterSplit(s: string, i: nat)
    requires i <= |s|
    ensures Filter(s) == Filter(s[..i]) + Filter(s[i..])
  {
    assert s == s[..i] + s[i..];
    FilterConcat(s[..i], s[i..]);
  }

  /** Sanitising a sanitised name changes nothing. */
  lemma SanitisedTwice(input: seq<octet>, n: nat)
    ensures Sanitised(Sanitised(input, n), n) == Sanitised(input, n)
  {
    var s := Sanitised(input, n);
    CStrUnique(s, s);
    FilterKept(s);
  }

  // ---------- the fields of a title ----------

  const NAME_SIZE: nat := 16
  const EQUIPMENT_SIZE: nat := 32
  const TYPE_AT: nat := 4
  const CATEGORY_AT: nat := 8
  const VARNAME_AT: nat := 24
  const EQUIPMENT_AT: nat := 40

  /** The field settles its own name: it is terminated, or full of characters that are kept. */
  predicate Closed(field: seq<octet>)
  {
    NUL in field || forall i | 0 <= i < |field| :: Kept(field[i])
  }

  lemma ClosedField(field: seq<octet>, rest: seq<octet>)
    requires Closed(field)
    ensures Sanitised(field + rest, |field|) == Sanitised(field, |field|)
  {
    var whole := field + rest;
    if NUL in field {
      assert whole[|CStr(field)|] == field[|CStr(field)|];
      CStrUnique(whole, CStr(field));
    } else {
      CStrUnique(field, field);
      var c := CStr(whole);
      assert forall i | 0 <= i < |field| :: whole[i] == field[i] && Kept(whole[i]);
      assert c == field + c[|field|..];
      FilterConcat(field, c[|field|..]);
      FilterKept(field);
    }
  }

  /** The getter's answer does not depend on what stands behind the field. */
  ghost predicate SettlesItself(field: seq<octet>)
  {
    forall rest: seq<octet> :: Sanitised(field + rest, |field|) == Sanitised(field, |field|)
  }

  /** That is so exactly for a closed field. Any other, such as sixteen characters with a blank among them,
      takes characters of the next field into the name. */
  lemma SettlesItselfIff(field: seq<octet>)
    ensures SettlesItself(field) <==> Closed(field)
  {
    if Closed(field) {
      forall rest: seq<octet> ensures Sanitised(field + rest, |field|) == Sanitised(field, |field|) {
        ClosedField(field, rest);
      }
    } else {
      OpenFieldReadsOn(field);
    }
  }

  lemma OpenFieldReadsOn(field: seq<octet>)
    requires !Closed(field)
    ensures Sanitised(field + ['A', NUL], |field|) != Sanitised(field, |field|)
  {
    var whole := field + ['A'] + [NUL];
    assert field + ['A', NUL] == whole;
    CStrOfTerminated(field + ['A'], []);
    assert field + ['A'] + [NUL] + [] == whole;
    CStrUnique(field, field);
    FilterAppend(field, 'A');
    SomethingIsDropped(field);
  }

  lemma {:induction false} SomethingIsDropped(s: string)
    requires !AllKept(s)
    ensures |Filter(s)| < |s|
  {
    if Kept(s[0]) {
      assert s == [s[0]] + s[1..];
      SomethingIsDropped(s[1..]);
    }
  }

  function Category(b: seq<octet>): string
    requires |b| >= BANK_HEADER
  {
    Sanitised(b[CATEGORY_AT..VARNAME_AT], NAME_SIZE)
  }

  function VariableName(b: seq<octet>): string
    requires |b| >= BANK_HEADER
  {
    Sanitised(b[VARNAME_AT..EQUIPMENT_AT], NAME_SIZE)
  }

  function EquipmentName(b: seq<octet>): string
    requires |b| >= BANK_HEADER
  {
    Sanitised(b[EQUIPMENT_AT..EQUIPMENT_AT + EQUIPMENT_SIZE], EQUIPMENT_SIZE)
  }

  predicate TitleClosed(b: seq<octet>)
    requires |b| >= BANK_HEADER
  {
    && Closed(b[CATEGORY_AT..VARNAME_AT])
    && Closed(b[VARNAME_AT..EQUIPMENT_AT])
    && Closed(b[EQUIPMENT_AT..EQUIPMENT_AT + EQUIPMENT_SIZE])
  }

  /** The name getters see memory from the field on; for a closed title that makes no difference. */
  lemma NamesFromMemory(memory: seq<octet>, b: seq<octet>)
    requires |b| >= BANK_HEADER && b <= memory && TitleClosed(b)
    ensures Sanitised(memory[CATEGORY_AT..], NAME_SIZE) == Category(b)
    ensures Sanitised(memory[VARNAME_AT..], NAME_SIZE) == VariableName(b)
    ensures Sanitised(memory[EQUIPMENT_AT..], EQUIPMENT_SIZE) == EquipmentName(b)
  {
    FieldFromMemory(memory, b, CATEGORY_AT, NAME_SIZE);
    FieldFromMemory(memory, b, VARNAME_AT, NAME_SIZE);
    FieldFromMemory(memory, b, EQUIPMENT_AT, EQUIPMENT_SIZE);
  }

  lemma FieldFromMemory(memory: seq<octet>, b: seq<octet>, at: nat, size: nat)
    requires b <= memory && at + size <= |b| && Closed(b[at..at + size])
    ensures Sanitised(memory[at..], size) == Sanitised(b[at..at + size], size)
  {
    assert memory[at..at + size] == b[at..at + size];
    assert memory[at..] == memory[at..at + size] + memory[at + size..];
    ClosedField(b[at..at + size], memory[at + size..]);
  }

  /** `strncmp(field, word, n) == 0` for a field of at least `n` characters. */
  predicate SameUpTo(field: seq<octet>, word: string, n: nat)
    requires n <= |field| && |word| <= |field|
  {
    if n <= |word| then field[..n] == word[..n]
    else field[..|word|] == word && (|word| < |field| ==> field[|word|] == NUL)
  }

  datatype Kind = Dbl | Flt | Bool | I32 | U32k | U16k | StrArray | Str | FileKind | Unknown

  /** The chain of comparisons with the DATATYPE field; "U32" is compared over four characters. */
  function KindOfType(t: seq<octet>): Kind
    requires |t| == CATEGORY_AT - TYPE_AT
  {
    if SameUpTo(t, "DBL", 3) then Dbl
    else if SameUpTo(t, "FLT", 3) then Flt
    else if SameUpTo(t, "BOOL", 4) then Bool
    else if SameUpTo(t, "I32", 3) then I32
    else if SameUpTo(t, "U32", 4) then U32k
    else if SameUpTo(t, "U16", 3) then U16k
    else if SameUpTo(t, "STRA", 4) then StrArray
    else if SameUpTo(t, "STR", 3) then Str
    else if SameUpTo(t, "FILE", 4) then FileKind
    else Unknown
  }

  function KindOf(b: seq<octet>): Kind
    requires |b| >= BANK_HEADER
  {
    KindOfType(b[TYPE_AT..CATEGORY_AT])
  }

  const THISHOST := "THISHOST"

  /** The analyzer's test, on the raw field. */
  predicate IsThisHost(b: seq<octet>)
    requires |b| >= BANK_HEADER
  {
    SameUpTo(b[CATEGORY_AT..VARNAME_AT], THISHOST, 8)
  }

  function CombinedName(b: seq<octet>): string
    requires |b| >= BANK_HEADER
  {
    (if IsThisHost(b) then EquipmentName(b) else Category(b)) + "\\" + VariableName(b)
  }

  predicate AllKept(s: string)
  {
    forall i | 0 <= i < |s| :: Kept(s[i])
  }

  lemma KeySplits(a: string, v: string, a': string, v': string)
    requires AllKept(a) && AllKept(a') && a + "\\" + v == a' + "\\" + v'
    ensures a == a' && v == v'
  {
    var k := a + "\\" + v;
    assert |a| == |a'| by {
      assert k[|a|] == '\\' && k[|a'|] == '\\';
      assert forall i | 0 <= i < |a| :: k[i] == a[i];
      assert forall i | 0 <= i < |a'| :: k[i] == a'[i];
    }
    assert a == k[..|a|] && a' == k[..|a'|];
    assert v == k[|a| + 1..] && v' == k[|a'| + 1..];
  }

  /** A combined name determines the two names it is made of. */
  lemma CombinedNameDetermines(b: seq<octet>, b': seq<octet>)
    requires |b| >= BANK_HEADER && |b'| >= BANK_HEADER && CombinedName(b) == CombinedName(b')
    ensures VariableName(b) == VariableName(b')
    ensures (if IsThisHost(b) then EquipmentName(b) else Category(b)) ==
            (if IsThisHost(b') then EquipmentName(b') else Category(b'))
  {
    KeySplits(if IsThisHost(b) then EquipmentName(b) else Category(b), VariableName(b),
              if IsThisHost(b') then EquipmentName(b') else Category(b'), VariableName(b'));
  }

  const FILE_PREFIX := "FILE:"

  function FileKey(b: seq<octet>, filename: string): string
    requires |b| >= BANK_HEADER
  {
    FILE_PREFIX + CombinedName(b) + "\\" + filename
  }

  /** The key of a file bank is never the key of a data bank. */
  lemma FileKeysApart(b: seq<octet>, b': seq<octet>, filename: string)
    requires |b| >= BANK_HEADER && |b'| >= BANK_HEADER
    ensures FileKey(b, filename) != CombinedName(b')
  {
    var first := if IsThisHost(b') then EquipmentName(b') else Category(b');
    var k, f := CombinedName(b'), FileKey(b, filename);
    assert k[|first|] == '\\' && forall i | 0 <= i < |first| :: k[i] == first[i];
    assert f[0] == 'F' && f[1] == 'I' && f[2] == 'L' && f[3] == 'E' && f[4] == ':';
  }
}
