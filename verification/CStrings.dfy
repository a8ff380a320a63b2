/** C characters and strings: an 8-bit char is a Dafny char below 256. */
module CStrings {
  datatype Option<+T> = None | Some(value: T)

  const NUL: char := '\0'

  type octet = c: char | (c as int) < 256 witness '\0'

  /** The contents of a NUL-terminated string, terminator left off. */
  type cstring = s: string | NUL !in s witness ""

  /** The same, of 8-bit characters. */
  type bytestring = s: seq<octet> | NUL !in s witness []

  /** `s[i]` as C reads it: index `|s|` is the terminator, anything beyond is out of bounds. */
  function At(s: cstring, i: nat): (c: char)
    requires i <= |s|
    ensures c == NUL <==> i == |s|
  {
    if i < |s| then s[i] else NUL
  }

  /** The C string that starts at the front of `s`; it stops at the end of `s` if no NUL comes first. */
  function CStr(s: string): (r: cstring)
    ensures r <= s
    ensures |r| < |s| ==> s[|r|] == NUL
  {
    if s == [] || s[0] == NUL then "" else [s[0]] + CStr(s[1..])
  }

  /** What lies behind the first NUL. */
  function BehindNul(data: seq<octet>): (r: seq<octet>)
    ensures |r| <= |data|
  {
    if |CStr(data)| < |data| then data[|CStr(data)| + 1..] else []
  }

  /** Those two facts determine `CStr`. */
  lemma {:induction false} CStrUnique(s: string, r: cstring)
    requires r <= s
    requires |r| < |s| ==> s[|r|] == NUL
    ensures CStr(s) == r
  {
    if s != [] && s[0] != NUL {
      assert r != [] && r == [s[0]] + r[1..] && r[1..] <= s[1..];
      CStrUnique(s[1..], r[1..]);
    }
  }

  lemma CStrOfTerminated(s: cstring, rest: string)
    ensures CStr(s + [NUL] + rest) == s
  {
    CStrUnique(s + [NUL] + rest, s);
  }

  lemma TextEndsInside(data: seq<octet>, rest: seq<octet>)
    requires NUL in data
    ensures CStr(data + rest) == CStr(data)
  {
    assert (data + rest)[|CStr(data)|] == data[|CStr(data)|];
    CStrUnique(data + rest, CStr(data));
  }

  /** A number in decimal, without leading zeros. */
  function Decimal(n: nat): (s: seq<octet>)
    ensures s != "" && forall c | c in s :: '0' <= c <= '9'
  {
    if n < 10 then [DecimalDigit(n)] else Decimal(n / 10) + [DecimalDigit(n % 10)]
  }

  function DecimalDigit(n: nat): (c: octet)
    requires n < 10
    ensures '0' <= c <= '9'
  {
    '0' + n as char
  }
}
