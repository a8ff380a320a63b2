/** src/feGEMClass.cxx:272-311: the strings of a string array bank. */
module StringArray {
  import opened CStrings

  /** The strings between the NULs. */
  function Strings(data: seq<octet>): (r: seq<string>)
    ensures forall i | 0 <= i < |r| :: r[i] != "" && NUL !in r[i]
    decreases |data|
  {
    if data == [] then []
    else if data[0] == NUL then Strings(data[1..])
    else [CStr(data)] + Strings(data[|CStr(data)|..])
  }

  /** What is left of the data at `i`: all of it, or the part behind the string in progress. */
  function Left(data: seq<octet>, i: nat, between: bool): seq<octet>
    requires i <= |data|
  {
    if between then data[i..] else data[i..][|CStr(data[i..])|..]
  }

  /** A string starts at a character that follows a NUL or stands at the front. */
  method HandleStrArrayBank(data: seq<octet>) returns (strings: seq<string>)
    ensures strings == Strings(data)
  {
    strings := [];
    var last_char_was_null := true;
    for i := 0 to |data|
      invariant strings + Strings(Left(data, i, last_char_was_null)) == Strings(data)
    {
      ghost var rest := data[i..];
      assert rest[1..] == data[i + 1..];
      if last_char_was_null && data[i] != NUL {
        strings := strings + [CStr(data[i..])];
        last_char_was_null := false;
      }
      if data[i] == NUL {
        last_char_was_null := true;
      } else {
        assert rest[|CStr(rest)|..] == rest[1..][|CStr(rest[1..])|..];
      }
    }
  }

  // ---------- what a sender gets through ----------

  /** The strings, each with its terminator. */
  function Terminated(strings: seq<bytestring>): seq<octet>
  {
    if strings == [] then [] else strings[0] + [NUL] + Terminated(strings[1..])
  }

  function NonEmpty(strings: seq<bytestring>): (r: seq<string>)
    ensures |r| <= |strings|
  {
    if strings == [] then []
    else if strings[0] == [] then NonEmpty(strings[1..])
    else [strings[0]] + NonEmpty(strings[1..])
  }

  /** Empty strings are lost, all others arrive in order. */
  lemma {:induction false} StringsOfTerminated(strings: seq<bytestring>)
    ensures Strings(Terminated(strings)) == NonEmpty(strings)
  {
    if strings != [] {
      var s, rest := strings[0], Terminated(strings[1..]);
      StringsOfTerminated(strings[1..]);
      var data := s + [NUL] + rest;
      if s == [] {
        assert data[0] == NUL && data[1..] == rest;
      } else {
        CStrOfTerminated(s, rest);
        var tail := data[|s|..];
        assert tail[0] == NUL && tail[1..] == rest;
        assert Strings(tail) == Strings(rest);
      }
    }
  }

  /** The array arrives as it was sent exactly when none of its strings is empty. */
  lemma StringArrayReadsBackIff(strings: seq<bytestring>)
    ensures Strings(Terminated(strings)) == strings <==> forall i | 0 <= i < |strings| :: strings[i] != []
  {
    StringsOfTerminated(strings);
    NonEmptyIff(strings);
  }

  lemma {:induction false} NonEmptyIff(strings: seq<bytestring>)
    ensures NonEmpty(strings) == strings <==> forall i | 0 <= i < |strings| :: strings[i] != []
  {
    if strings != [] {
      NonEmptyIff(strings[1..]);
      assert strings == [strings[0]] + strings[1..];
      if strings[0] == [] {
        assert |NonEmpty(strings)| < |strings|;
      } else {
        assert NonEmpty(strings)[1..] == NonEmpty(strings[1..]);
        assert forall i | 0 < i < |strings| :: strings[i] == strings[1..][i - 1];
      }
    }
  }
}
