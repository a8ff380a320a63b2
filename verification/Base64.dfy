/** src/SettingsFileDatabase.cxx: base64_encode, against the decoder of section 4 of RFC 4648. */
module Base64 {
  import opened CStrings

  /** Digit `n` of the alphabet of section 4 of RFC 4648. */
  function Digit(n: int): (c: char)
    requires 0 <= n < 64
  {
    if n < 26 then 'A' + n as char
    else if n < 52 then 'a' + (n - 26) as char
    else if n < 62 then '0' + (n - 52) as char
    else if n == 62 then '+' else '/'
  }

  const BASE64_CHARS: string :=
    "ABCDEFGHIJKLMNOPQRSTUVWXYZ" + "abcdefghijklmnopqrstuvwxyz" + "0123456789" + "+/"

  /** The look-up table holds that alphabet in that order. */
  lemma TableIsAlphabet(n: int)
    requires 0 <= n < 64
    ensures |BASE64_CHARS| == 64 && BASE64_CHARS[n] == Digit(n)
  {
  }

  function DigitValue(c: char): (v: Option<int>)
    ensures v.Some? ==> 0 <= v.value < 64 && Digit(v.value) == c
  {
    if 'A' <= c <= 'Z' then Some(c as int - 'A' as int)
    else if 'a' <= c <= 'z' then Some(c as int - 'a' as int + 26)
    else if '0' <= c <= '9' then Some(c as int - '0' as int + 52)
    else if c == '+' then Some(62)
    else if c == '/' then Some(63)
    else None
  }

  lemma DigitRoundTrip(n: int)
    requires 0 <= n < 64
    ensures DigitValue(Digit(n)) == Some(n) && Digit(n) != '='
  {
  }

  // ---------- one group ----------

  // The four table look-ups; `& 0xfc) >> 2` and its like are written as divisions and remainders.

  function Digit0(a: octet): char { Digit(a as int / 4) }
  function Digit1(a: octet, b: octet): char { Digit(a as int % 4 * 16 + b as int / 16) }
  function Digit2(b: octet, c: octet): char { Digit(b as int % 16 * 4 + c as int / 64) }
  function Digit3(c: octet): char { Digit(c as int % 64) }

  /** The digits of one, two or three bytes, padded to four characters. */
  function EncodeGroup(g: seq<octet>): (s: string)
    requires 1 <= |g| <= 3
    ensures |s| == 4
  {
    if |g| == 1 then [Digit0(g[0]), Digit1(g[0], NUL), '=', '=']
    else if |g| == 2 then [Digit0(g[0]), Digit1(g[0], g[1]), Digit2(g[1], NUL), '=']
    else [Digit0(g[0]), Digit1(g[0], g[1]), Digit2(g[1], g[2]), Digit3(g[2])]
  }

  /** The bytes of four characters; misplaced padding and non-zero pad bits are refused. */
  function DecodeGroup(s: string): (g: Option<seq<octet>>)
    requires |s| == 4
    ensures g.Some? ==> 1 <= |g.value| <= 3
  {
    match (DigitValue(s[0]), DigitValue(s[1]), DigitValue(s[2]), DigitValue(s[3]))
    case (Some(w), Some(x), Some(y), Some(z)) => Some([Byte0(w, x), Byte1(x, y), Byte2(y, z)])
    case (Some(w), Some(x), Some(y), None) =>
      if s[3] == '=' && y % 4 == 0 then Some([Byte0(w, x), Byte1(x, y)]) else None
    case (Some(w), Some(x), None, None) =>
      if s[2] == s[3] == '=' && x % 16 == 0 then Some([Byte0(w, x)]) else None
    case _ => None
  }

  function Byte0(w: int, x: int): (c: octet)
    requires 0 <= w < 64 && 0 <= x < 64
    ensures c as int / 4 == w && c as int % 4 == x / 16
  {
    (w * 4 + x / 16) as char
  }

  function Byte1(x: int, y: int): (c: octet)
    requires 0 <= x < 64 && 0 <= y < 64
    ensures c as int / 16 == x % 16 && c as int % 16 == y / 4
  {
    (x % 16 * 16 + y / 4) as char
  }

  function Byte2(y: int, z: int): (c: octet)
    requires 0 <= y < 64 && 0 <= z < 64
    ensures c as int / 64 == y % 4 && c as int % 64 == z
  {
    (y % 4 * 64 + z) as char
  }

  lemma DigitsOf(a: octet, b: octet, c: octet)
    ensures DigitValue(Digit0(a)) == Some(a as int / 4)
    ensures DigitValue(Digit1(a, b)) == Some(a as int % 4 * 16 + b as int / 16)
    ensures DigitValue(Digit2(b, c)) == Some(b as int % 16 * 4 + c as int / 64)
    ensures DigitValue(Digit3(c)) == Some(c as int % 64)
  {
    DigitRoundTrip(a as int / 4);
    DigitRoundTrip(a as int % 4 * 16 + b as int / 16);
    DigitRoundTrip(b as int % 16 * 4 + c as int / 64);
    DigitRoundTrip(c as int % 64);
  }

  lemma BytesFromDigits(a: octet, b: octet, c: octet)
    ensures var w, x := a as int / 4, a as int % 4 * 16 + b as int / 16;
            var y, z := b as int % 16 * 4 + c as int / 64, c as int % 64;
            && 0 <= w < 64 && 0 <= x < 64 && 0 <= y < 64 && 0 <= z < 64
            && Byte0(w, x) == a && Byte1(x, y) == b && Byte2(y, z) == c
  {
  }

  lemma GroupRoundTrip(g: seq<octet>)
    requires 1 <= |g| <= 3
    ensures DecodeGroup(EncodeGroup(g)) == Some(g)
  {
    var a := g[0];
    var b := if |g| > 1 then g[1] else NUL;
    var c := if |g| > 2 then g[2] else NUL;
    BytesFromDigits(a, b, c);
    DigitsOf(a, b, c);
    assert DigitValue('=') == None;
    assert g == if |g| == 1 then [a] else if |g| == 2 then [a, b] else [a, b, c];
  }

  lemma GroupRoundTripBack(s: string)
    requires |s| == 4 && DecodeGroup(s).Some?
    ensures EncodeGroup(DecodeGroup(s).value) == s
  {
  }

  // ---------- whole inputs ----------

  /** Groups of three bytes, the last one possibly shorter. */
  function Encode(bytes: seq<octet>): (s: string)
    ensures |s| == (|bytes| + 2) / 3 * 4
  {
    if bytes == [] then ""
    else if |bytes| <= 3 then EncodeGroup(bytes)
    else EncodeGroup(bytes[..3]) + Encode(bytes[3..])
  }

  /** The decoder of section 4 of RFC 4648: a short group must be the last. */
  function Decode(s: string): Option<seq<octet>>
  {
    if s == "" then Some([])
    else if |s| < 4 then None
    else
      match (DecodeGroup(s[..4]), Decode(s[4..]))
      case (Some(g), Some(rest)) => if |g| == 3 || rest == [] then Some(g + rest) else None
      case _ => None
  }

  /** The encoding loop: one group per turn, appended to the result. */
  method base64_encode(bytes_to_encode: seq<octet>) returns (ret: string)
    ensures ret == Encode(bytes_to_encode)
  {
    hide Digit0, Digit1, Digit2, Digit3;
    var in_len := |bytes_to_encode|;
    ret := "";
    var pos := 0;
    while pos < in_len
      invariant 0 <= pos
      invariant Encoded(bytes_to_encode, pos, ret)
    {
      ghost var before := ret;
      ret := ret + [Digit0(bytes_to_encode[pos])];
      if pos + 1 < in_len {
        ret := ret + [Digit1(bytes_to_encode[pos], bytes_to_encode[pos + 1])];
        if pos + 2 < in_len {
          ret := ret + [Digit2(bytes_to_encode[pos + 1], bytes_to_encode[pos + 2])];
          ret := ret + [Digit3(bytes_to_encode[pos + 2])];
        } else {
          ret := ret + [Digit2(bytes_to_encode[pos + 1], NUL)];
          ret := ret + ['='];
        }
      } else {
        ret := ret + [Digit1(bytes_to_encode[pos], NUL)];
        ret := ret + ['='];
        ret := ret + ['='];
      }
      EncodedStep(bytes_to_encode, pos, before, ret);
      pos := pos + 3;
    }
  }

  /** The (up to) three bytes at `pos`. */
  function GroupAt(bytes: seq<octet>, pos: nat): (g: seq<octet>)
    requires pos < |bytes|
    ensures |g| == if pos + 2 < |bytes| then 3 else |bytes| - pos
  {
    bytes[pos..if pos + 2 < |bytes| then pos + 3 else |bytes|]
  }

  /** `ret` is the encoding up to `pos`, the encoding of the rest still missing. */
  ghost predicate Encoded(bytes: seq<octet>, pos: nat, ret: string)
  {
    Encode(bytes) == if pos < |bytes| then ret + Encode(bytes[pos..]) else ret
  }

  lemma EncodedStep(bytes: seq<octet>, pos: nat, ret: string, ret': string)
    requires pos < |bytes| && Encoded(bytes, pos, ret)
    requires |ret'| == |ret| + 4 && ret'[..|ret|] == ret
    requires ret'[|ret|] == Digit0(bytes[pos])
    requires ret'[|ret| + 1] == Digit1(bytes[pos], if pos + 1 < |bytes| then bytes[pos + 1] else NUL)
    requires ret'[|ret| + 2] == if pos + 1 < |bytes|
                                then Digit2(bytes[pos + 1], if pos + 2 < |bytes| then bytes[pos + 2] else NUL)
                                else '='
    requires ret'[|ret| + 3] == if pos + 2 < |bytes| then Digit3(bytes[pos + 2]) else '='
    ensures Encoded(bytes, pos + 3, ret')
  {
    var g := EncodeGroup(GroupAt(bytes, pos));
    assert g[0] == ret'[|ret|] && g[1] == ret'[|ret| + 1] && g[2] == ret'[|ret| + 2] && g[3] == ret'[|ret| + 3];
    AppendedFour(ret, ret', g);
    EncodedAppend(bytes, pos, ret);
  }

  lemma EncodedAppend(bytes: seq<octet>, pos: nat, ret: string)
    requires pos < |bytes| && Encoded(bytes, pos, ret)
    ensures Encoded(bytes, pos + 3, ret + EncodeGroup(GroupAt(bytes, pos)))
  {
    EncodeNextGroup(bytes, pos);
  }

  lemma AppendedFour(s: string, s': string, g: string)
    requires |g| == 4 && |s'| == |s| + 4 && s'[..|s|] == s
    requires g[0] == s'[|s|] && g[1] == s'[|s| + 1] && g[2] == s'[|s| + 2] && g[3] == s'[|s| + 3]
    ensures s' == s + g
  {
  }

  lemma EncodeNextGroup(bytes: seq<octet>, pos: nat)
    requires pos < |bytes|
    ensures Encode(bytes[pos..]) ==
            if pos + 3 < |bytes| then EncodeGroup(GroupAt(bytes, pos)) + Encode(bytes[pos + 3..])
            else EncodeGroup(GroupAt(bytes, pos))
  {
    var rest := bytes[pos..];
    if |rest| > 3 {
      assert rest[3..] == bytes[pos + 3..] && rest[..3] == GroupAt(bytes, pos);
    } else {
      assert rest == GroupAt(bytes, pos);
    }
  }

  lemma EncodeSplit(g: seq<octet>, rest: seq<octet>)
    requires 1 <= |g| <= 3 && (|g| < 3 ==> rest == [])
    ensures Encode(g + rest) == EncodeGroup(g) + Encode(rest)
  {
    if rest == [] {
      assert g + rest == g && EncodeGroup(g) + "" == EncodeGroup(g);
    } else {
      assert (g + rest)[..3] == g && (g + rest)[3..] == rest;
    }
  }

  /** Decoding an encoding gives the bytes back. */
  lemma {:induction false} DecodeEncode(bytes: seq<octet>)
    ensures Decode(Encode(bytes)) == Some(bytes)
  {
    if bytes != [] {
      var n := if 2 < |bytes| then 3 else |bytes|;
      var g, rest := bytes[..n], bytes[n..];
      assert bytes == g + rest;
      EncodeSplit(g, rest);
      var s := Encode(bytes);
      assert s[..4] == EncodeGroup(g) && s[4..] == Encode(rest);
      GroupRoundTrip(g);
      DecodeEncode(rest);
    }
  }

  /** What the decoder accepts is exactly what the encoder writes. */
  lemma {:induction false} EncodeDecode(s: string)
    requires Decode(s).Some?
    ensures Encode(Decode(s).value) == s
  {
    if s != "" {
      GroupRoundTripBack(s[..4]);
      EncodeDecode(s[4..]);
      EncodeSplit(DecodeGroup(s[..4]).value, Decode(s[4..]).value);
    }
  }

  /** Different inputs have different encodings. */
  lemma EncodeInjective(a: seq<octet>, b: seq<octet>)
    requires Encode(a) == Encode(b)
    ensures a == b
  {
    DecodeEncode(a);
    DecodeEncode(b);
  }

  /** Alphabet characters, with '=' in the last two places at most. */
  lemma {:induction false} EncodeAlphabet(bytes: seq<octet>)
    ensures forall i | 0 <= i < |Encode(bytes)| ::
              DigitValue(Encode(bytes)[i]).Some? || (Encode(bytes)[i] == '=' && i >= |Encode(bytes)| - 2)
  {
    if |bytes| > 3 {
      EncodeAlphabet(bytes[3..]);
      GroupRoundTrip(bytes[..3]);
      var s, t := Encode(bytes), Encode(bytes[3..]);
      forall i | 0 <= i < |s| ensures DigitValue(s[i]).Some? || (s[i] == '=' && i >= |s| - 2) {
        assert s[i] == if i < 4 then EncodeGroup(bytes[..3])[i] else t[i - 4];
      }
    } else if bytes != [] {
      GroupRoundTrip(bytes);
    }
  }
}
