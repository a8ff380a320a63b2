/** A reader for the part of JSON (sections 2, 4 and 7 of RFC 8259) that the replies use: objects and
    strings, with white space, escapes and nesting. It is the specification the printers are held to. */
module Json {
  import opened CStrings

  datatype Value = Text(s: string) | Object(members: seq<Member>)
  datatype Member = Member(name: string, value: Value)

  predicate White(c: char)
  {
    c == ' ' || c == '\t' || c == '\n' || c == '\r'
  }

  predicate Control(c: char)
  {
    c < ' '
  }

  /** A string the printers can copy without an escape. */
  predicate Plain(s: string)
  {
    forall c | c in s :: !Control(c) && c != '\\' && c != '"'
  }

  /** The same, except that quotes may occur. */
  predicate PlainButQuotes(s: string)
  {
    forall c | c in s :: !Control(c) && c != '\\'
  }

  function SkipWhite(s: string): (r: string)
    ensures |r| <= |s|
  {
    if s != "" && White(s[0]) then SkipWhite(s[1..]) else s
  }

  function HexValue(c: char): (v: Option<int>)
    ensures v.Some? ==> 0 <= v.value < 16 && c != '"' && c != '\\'
  {
    if '0' <= c <= '9' then Some(c as int - '0' as int)
    else if 'a' <= c <= 'f' then Some(c as int - 'a' as int + 10)
    else if 'A' <= c <= 'F' then Some(c as int - 'A' as int + 10)
    else None
  }

  /** The character an escape sequence stands for and the length of the sequence. Escaped surrogates,
      which stand for no character on their own, are refused. */
  function ReadEscape(s: string): (r: Option<(char, nat)>)
    requires s != "" && s[0] == '\\'
    ensures r.Some? ==> 2 <= r.value.1 <= |s|
    ensures r.Some? ==> r.value.1 == if s[1] == 'u' then 6 else 2
  {
    if |s| < 2 then None
    else if s[1] == '"' || s[1] == '\\' || s[1] == '/' then Some((s[1], 2))
    else if s[1] == 'b' then Some((8 as char, 2))
    else if s[1] == 'f' then Some((12 as char, 2))
    else if s[1] == 'n' then Some(('\n', 2))
    else if s[1] == 'r' then Some(('\r', 2))
    else if s[1] == 't' then Some(('\t', 2))
    else if s[1] == 'u' && |s| >= 6 then
      match (HexValue(s[2]), HexValue(s[3]), HexValue(s[4]), HexValue(s[5]))
      case (Some(a), Some(b), Some(c), Some(d)) =>
        var v := a * 4096 + b * 256 + c * 16 + d;
        if 0xD800 <= v < 0xE000 then None else Some((v as char, 6))
      case _ => None
    else None
  }

  /** A string from behind its opening quote: its value and what follows the closing quote. */
  function ReadBody(s: string): (r: Option<(string, string)>)
    ensures r.Some? ==> |r.value.0| + |r.value.1| < |s|
  {
    if s == "" || Control(s[0]) then None
    else if s[0] == '"' then Some(("", s[1..]))
    else if s[0] != '\\' then Prepend(s[0], ReadBody(s[1..]))
    else
      match ReadEscape(s)
      case Some((c, n)) => Prepend(c, ReadBody(s[n..]))
      case None => None
  }

  function Prepend(c: char, r: Option<(string, string)>): Option<(string, string)>
  {
    match r
    case Some((t, rest)) => Some(([c] + t, rest))
    case None => None
  }

  /** A member: name, colon, value. */
  function ReadMember(s: string): (r: Option<(Member, string)>)
    ensures r.Some? ==> |r.value.1| < |s|
    decreases |s|, 1
  {
    var s1 := SkipWhite(s);
    if s1 == "" || s1[0] != '"' then None
    else
      match ReadBody(s1[1..])
      case None => None
      case Some((name, rest)) =>
        var s2 := SkipWhite(rest);
        if s2 == "" || s2[0] != ':' then None
        else
          match ReadValue(s2[1..])
          case None => None
          case Some((value, rest2)) => Some((Member(name, value), rest2))
  }

  /** One or more members separated by commas, up to and including the closing brace. */
  function ReadMembers(s: string): (r: Option<(seq<Member>, string)>)
    ensures r.Some? ==> |r.value.1| < |s|
    decreases |s|, 2
  {
    match ReadMember(s)
    case None => None
    case Some((m, rest)) =>
      var s1 := SkipWhite(rest);
      if s1 == "" then None
      else if s1[0] == '}' then Some(([m], s1[1..]))
      else if s1[0] != ',' then None
      else
        match ReadMembers(s1[1..])
        case None => None
        case Some((ms, rest2)) => Some(([m] + ms, rest2))
  }

  function ReadValue(s: string): (r: Option<(Value, string)>)
    ensures r.Some? ==> |r.value.1| < |s|
    decreases |s|, 0
  {
    var s1 := SkipWhite(s);
    if s1 == "" then None
    else if s1[0] == '"' then
      match ReadBody(s1[1..])
      case None => None
      case Some((t, rest)) => Some((Text(t), rest))
    else if s1[0] == '{' then
      var s2 := SkipWhite(s1[1..]);
      if s2 != "" && s2[0] == '}' then Some((Object([]), s2[1..]))
      else
        match ReadMembers(s1[1..])
        case None => None
        case Some((ms, rest)) => Some((Object(ms), rest))
    else None
  }

  /** A whole text: one value and nothing but white space after it. */
  function Parse(s: string): Option<Value>
  {
    match ReadValue(s)
    case None => None
    case Some((v, rest)) => if SkipWhite(rest) == "" then Some(v) else None
  }

  // ---------- strings as the printers write them ----------

  /** Data with a backslash before each quote, the only escape the printers know. */
  function Escape(s: string): (r: string)
    ensures |r| >= |s|
  {
    if s == "" then ""
    else if s[0] == '"' then "\\\"" + Escape(s[1..])
    else [s[0]] + Escape(s[1..])
  }

  lemma {:induction false} EscapeAppend(s: string, c: char)
    ensures Escape(s + [c]) == Escape(s) + if c == '"' then "\\\"" else [c]
  {
    if s == "" {
      assert s + [c] == [c] && [c][1..] == "";
    } else {
      assert (s + [c])[1..] == s[1..] + [c];
      EscapeAppend(s[1..], c);
    }
  }

  lemma {:induction false} EscapePlain(s: string)
    requires '"' !in s
    ensures Escape(s) == s
  {
    if s != "" {
      EscapePlain(s[1..]);
    }
  }

  lemma {:induction false} ReadEscaped(s: string, rest: string)
    requires PlainButQuotes(s)
    ensures ReadBody(Escape(s) + "\"" + rest) == Some((s, rest))
  {
    var text := Escape(s) + "\"" + rest;
    if s == "" {
      assert text[1..] == rest;
    } else {
      ReadEscaped(s[1..], rest);
      var n := if s[0] == '"' then 2 else 1;
      assert text[n..] == Escape(s[1..]) + "\"" + rest;
      assert s == [s[0]] + s[1..];
    }
  }

  lemma ReadPlain(s: string, rest: string)
    requires Plain(s)
    ensures ReadBody(s + "\"" + rest) == Some((s, rest))
  {
    EscapePlain(s);
    ReadEscaped(s, rest);
  }

  // ---------- what a string with a backslash reads as ----------

  /** The text of a string from behind its opening quote, and whatever follows. */
  function Body(s: string, rest: string): (r: string)
    ensures |r| > |s|
  {
    Escape(s) + "\"" + rest
  }

  lemma BodyNext(s: string, rest: string)
    requires s != ""
    ensures Body(s, rest)[0] == if s[0] == '"' then '\\' else s[0]
    ensures Body(s, rest)[if s[0] == '"' then 2 else 1..] == Body(s[1..], rest)
  {
  }

  lemma BodyEnd(rest: string)
    ensures Body("", rest)[0] == '"' && Body("", rest)[1..] == rest
  {
  }

  /** Up to the first quote the text is the string. */
  lemma {:induction false} BodyTail(s: string, rest: string, n: nat)
    requires n <= |s| && '"' !in s[..n]
    ensures Body(s, rest)[..n] == s[..n] && Body(s, rest)[n..] == Body(s[n..], rest)
  {
    hide Body;
    if n > 0 {
      assert s[0] == s[..n][0] && s[1..][..n - 1] == s[..n][1..];
      BodyTail(s[1..], rest, n - 1);
      BodyNext(s, rest);
      assert Body(s, rest)[..n] == [s[0]] + Body(s, rest)[1..][..n - 1];
      assert Body(s, rest)[n..] == Body(s, rest)[1..][n - 1..];
      assert s[n..] == s[1..][n - 1..];
    }
  }

  /** How far a string goes, up to six characters, without a quote. */
  function UnquotedPrefix(s: string): (n: nat)
    requires |s| > 1 && s[0] != '"' && s[1] != '"'
    ensures 2 <= n <= |s| && n <= 6 && '"' !in s[..n]
    ensures n < 6 ==> n == |s| || s[n] == '"'
  {
    if |s| == 2 || s[2] == '"' then 2
    else if |s| == 3 || s[3] == '"' then 3
    else if |s| == 4 || s[4] == '"' then 4
    else if |s| == 5 || s[5] == '"' then 5
    else 6
  }

  /** A quote among the four digits is not a digit, whether it is data or the end of the string. */
  lemma ShortHex(s: string, rest: string, n: nat)
    requires |s| > 1 && s[0] == '\\' && s[1] == 'u' && n == UnquotedPrefix(s) < 6
    ensures Body(s, rest)[0] == '\\' && ReadEscape(Body(s, rest)) == None
  {
    hide Body;
    var text := Body(s, rest);
    BodyTail(s, rest, n);
    assert text[0] == s[..n][0] && text[1] == s[..n][1];
    if n < |s| {
      BodyNext(s[n..], rest);
    } else {
      BodyEnd(rest);
    }
    assert text[n] == text[n..][0];
  }

  /** A backslash takes the characters after it into an escape; the quotes and the end stay outside. */
  lemma BackslashEscape(s: string, rest: string)
    requires |s| > 1 && s[0] == '\\' && s[1] != '"'
    ensures var text := Body(s, rest);
            text[0] == '\\' &&
            (ReadEscape(text).Some? ==>
               var n := ReadEscape(text).value.1;
               2 <= n <= |s| && '"' !in s[..n] && text[n..] == Body(s[n..], rest))
  {
    hide Body, HexValue;
    BodyTail(s, rest, 2);
    assert Body(s, rest)[0] == s[..2][0] && Body(s, rest)[1] == s[..2][1];
    if s[1] == 'u' {
      var n := UnquotedPrefix(s);
      if n < 6 {
        ShortHex(s, rest, n);
      } else {
        BodyTail(s, rest, 6);
      }
    }
  }

  /** Before a quote it ends the string early. */
  lemma BackslashQuote(s: string, rest: string)
    requires |s| > 1 && s[0] == '\\' && s[1] == '"'
    ensures ReadBody(Body(s, rest)).Some? && ReadBody(Body(s, rest)).value.0 == "\\"
  {
    var text := Body(s, rest);
    assert Escape(s)[1..] == Escape(s[1..]) && Escape(s[1..])[..2] == "\\\"";
    assert text[1] == Escape(s[1..])[..2][0] && text[2..][0] == Escape(s[1..])[..2][1];
    assert ReadEscape(text) == Some(('\\', 2));
    assert ReadBody(text[2..]).Some? && ReadBody(text[2..]).value.0 == "";
  }

  /** At the end it takes the closing quote into the string. */
  lemma BackslashEnd(rest: string)
    ensures var r := ReadBody(Body("\\", rest)); r.Some? ==> r.value.0 != "" && r.value.0[0] == '"'
  {
    assert "\\"[1..] == "" && Escape("\\") == "\\";
    assert Body("\\", rest)[1] == '"';
  }

  /** What is read is no longer than the string, or has a quote where the string has had none so far. */
  lemma {:induction false} QuoteOrNoLonger(s: string, rest: string) returns (j: nat)
    requires ReadBody(Body(s, rest)).Some?
    ensures var r := ReadBody(Body(s, rest)).value.0;
            |r| <= |s| || (j < |s| && r[j] == '"' && '"' !in s[..j])
    decreases |s|
  {
    hide Body, ReadEscape, HexValue, UnquotedPrefix;
    j := 0;
    if s == "" {
      BodyEnd(rest);
    } else if s[0] == '"' {
      QuoteReads(s, rest);
    } else if s[0] != '\\' {
      BodyNext(s, rest);
      j := QuoteOrNoLonger(s[1..], rest);
      if |ReadBody(Body(s[1..], rest)).value.0| >= |s| {
        NoQuoteYet(s, 1, j);
      }
      j := j + 1;
    } else if |s| == 1 {
      assert s == "\\";
      BackslashEnd(rest);
    } else if s[1] == '"' {
      BackslashQuote(s, rest);
    } else {
      BackslashEscape(s, rest);
      var n := ReadEscape(Body(s, rest)).value.1;
      j := QuoteOrNoLonger(s[n..], rest);
      if |ReadBody(Body(s[n..], rest)).value.0| > |s| - n {
        NoQuoteYet(s, n, j);
      }
      j := j + 1;
    }
  }

  lemma QuoteReads(s: string, rest: string)
    requires s != "" && s[0] == '"'
    ensures ReadBody(Body(s, rest)) == Prepend('"', ReadBody(Body(s[1..], rest)))
  {
    BodyNext(s, rest);
    assert Body(s, rest)[1] == '"';
  }

  lemma NoQuoteYet(s: string, n: nat, j: nat)
    requires 1 <= n <= |s| && j <= |s| - n && '"' !in s[..n] && '"' !in s[n..][..j]
    ensures '"' !in s[..n + j] && '"' !in s[..j + 1] && forall i | 0 <= i < n + j :: s[i] != '"'
  {
    assert s[..n + j] == s[..n] + s[n..][..j];
    assert s[..j + 1] == s[..n + j][..j + 1];
    assert forall i | 0 <= i < n + j :: s[i] == s[..n + j][i];
  }

  /** Printed with the escape, data reads back exactly when it has no backslash and no control character,
      whatever follows it. */
  lemma {:induction false} EscapedReadsBackIff(s: string, rest: string)
    ensures var r := ReadBody(Escape(s) + "\"" + rest); r.Some? && r.value.0 == s <==> PlainButQuotes(s)
    decreases |s|
  {
    hide Body, ReadEscape, HexValue, UnquotedPrefix;
    var text := Body(s, rest);
    assert text == Escape(s) + "\"" + rest by {
      BodyIs(s, rest);
    }
    if PlainButQuotes(s) {
      ReadEscaped(s, rest);
    } else if ReadBody(text).Some? && ReadBody(text).value.0 == s {
      if s[0] == '"' {
        QuoteReads(s, rest);
        BodyIs(s[1..], rest);
        EscapedReadsBackIff(s[1..], rest);
        PlainTail(s);
      } else if s[0] != '\\' {
        BodyNext(s, rest);
        BodyIs(s[1..], rest);
        EscapedReadsBackIff(s[1..], rest);
        PlainTail(s);
      } else {
        BackslashDoesNotReadBack(s, rest);
      }
    }
  }

  lemma BodyIs(s: string, rest: string)
    ensures Body(s, rest) == Escape(s) + "\"" + rest
  {
  }

  lemma PlainTail(s: string)
    requires s != ""
    ensures PlainButQuotes(s) <==> !Control(s[0]) && s[0] != '\\' && PlainButQuotes(s[1..])
  {
    assert forall c :: c in s <==> c == s[0] || c in s[1..];
  }

  lemma BackslashDoesNotReadBack(s: string, rest: string)
    requires s != "" && s[0] == '\\'
    ensures var r := ReadBody(Body(s, rest)); r.Some? ==> r.value.0 != s
  {
    hide Body, ReadEscape, HexValue, UnquotedPrefix;
    var text := Body(s, rest);
    if |s| == 1 {
      assert s == "\\";
      BackslashEnd(rest);
    } else if s[1] == '"' {
      BackslashQuote(s, rest);
    } else {
      BackslashEscape(s, rest);
      if ReadBody(text).Some? && ReadBody(text).value.0 == s {
        var n := ReadEscape(text).value.1;
        var r := ReadBody(Body(s[n..], rest)).value.0;
        assert s == [ReadEscape(text).value.0] + r;
        assert forall i | 0 <= i < |r| :: r[i] == s[i + 1];
        var j := QuoteOrNoLonger(s[n..], rest);
        NoQuoteYet(s, n, j);
      }
    }
  }

  /** Copied without any escape, data reads back exactly when it has no quote either. */
  lemma CopiedReadsBackIff(s: string, rest: string)
    ensures var r := ReadBody(s + "\"" + rest); r.Some? && r.value.0 == s <==> Plain(s)
  {
    hide ReadBody;
    if '"' in s {
      var q := FirstQuote(s);
      var behind := s[q + 1..] + "\"" + rest;
      EscapePlain(s[..q]);
      BodyIs(s[..q], behind);
      assert s + "\"" + rest == s[..q] + "\"" + behind;
      if ReadBody(s + "\"" + rest).Some? && ReadBody(s + "\"" + rest).value.0 == s {
        assert forall i | 0 <= i < q :: s[i] == s[..q][i];
        var j := QuoteOrNoLonger(s[..q], behind);
      }
    } else {
      EscapePlain(s);
      EscapedReadsBackIff(s, rest);
    }
  }

  function FirstQuote(s: string): (q: nat)
    requires '"' in s
    ensures q < |s| && s[q] == '"' && '"' !in s[..q]
  {
    if s[0] == '"' then 0 else FirstQuote(s[1..]) + 1
  }

  // ---------- the shapes the printers write ----------

  function Quoted(data: string): string
  {
    "\"" + (data + "\"")
  }

  function Named(name: string, value: string): string
  {
    "\"" + (name + ("\":" + value))
  }

  function Braced(members: string): string
  {
    "{" + (members + "}")
  }

  /** The texts with commas between them. */
  function Join(texts: seq<string>): string
  {
    if texts == [] then ""
    else if |texts| == 1 then texts[0]
    else texts[0] + ("," + Join(texts[1..]))
  }

  lemma Regroup(a: string, b: string, c: string)
    ensures (a + b) + c == a + (b + c)
  {
  }

  lemma NamedAppend(name: string, value: string, rest: string)
    ensures Named(name, value) + rest == Named(name, value + rest)
  {
    Regroup("\"", name + ("\":" + value), rest);
    Regroup(name, "\":" + value, rest);
    Regroup("\":", value, rest);
  }

  lemma NamedValueReads(name: string, tail: string)
    requires Plain(name) && ReadValue(tail).Some?
    ensures ReadMember(Named(name, tail)) ==
            Some((Member(name, ReadValue(tail).value.0), ReadValue(tail).value.1))
  {
    var s := Named(name, tail);
    var t := ":" + tail;
    Regroup("\"", ":", tail);
    Regroup(name, "\"", t);
    assert s[1..] == name + "\"" + t && t[1..] == tail;
    ReadPlain(name, t);
  }

  lemma StringReads(data: string, rest: string)
    requires PlainButQuotes(data)
    ensures ReadValue(Quoted(Escape(data)) + rest) == Some((Text(data), rest))
  {
    var s := Quoted(Escape(data)) + rest;
    Regroup("\"", Escape(data) + "\"", rest);
    assert s[1..] == Escape(data) + "\"" + rest;
    ReadEscaped(data, rest);
  }

  // ---------- members in a row ----------

  /** `text` reads as the member `m`, whatever follows it. */
  ghost predicate Prints(text: string, m: Member)
  {
    text != "" && text[0] == '"' && forall rest: string :: ReadMember(text + rest) == Some((m, rest))
  }

  ghost predicate AllPrint(texts: seq<string>, ms: seq<Member>)
  {
    |texts| == |ms| && forall i | 0 <= i < |texts| :: Prints(texts[i], ms[i])
  }

  lemma {:induction false} JoinedReads(texts: seq<string>, ms: seq<Member>, rest: string)
    requires AllPrint(texts, ms) && texts != []
    ensures ReadMembers(Join(texts) + ("}" + rest)) == Some((ms, rest))
  {
    hide Prints, ReadMembers;
    assert Prints(texts[0], ms[0]);
    if |texts| == 1 {
      LastMemberReads(texts[0], ms[0], rest);
      assert ms == [ms[0]];
    } else {
      JoinedReads(texts[1..], ms[1..], rest);
      MemberThenMore(texts[0], ms[0], Join(texts[1..]) + ("}" + rest));
      Regroup(texts[0], "," + Join(texts[1..]), "}" + rest);
      Regroup(",", Join(texts[1..]), "}" + rest);
      assert ms == [ms[0]] + ms[1..];
    }
  }

  lemma LastMemberReads(text: string, m: Member, rest: string)
    requires Prints(text, m)
    ensures ReadMembers(text + ("}" + rest)) == Some(([m], rest))
  {
    assert ("}" + rest)[1..] == rest;
  }

  lemma MemberThenMore(text: string, m: Member, tail: string)
    requires Prints(text, m)
    ensures ReadMembers(text + ("," + tail)) ==
            match ReadMembers(tail)
            case None => None
            case Some((ms, rest)) => Some(([m] + ms, rest))
  {
    assert ("," + tail)[1..] == tail;
  }

  /** An object of such members. */
  lemma ObjectReads(texts: seq<string>, ms: seq<Member>, rest: string)
    requires AllPrint(texts, ms) && texts != []
    ensures ReadValue(Braced(Join(texts)) + rest) == Some((Object(ms), rest))
  {
    assert Prints(texts[0], ms[0]);
    var s := Braced(Join(texts)) + rest;
    Regroup("{", Join(texts) + "}", rest);
    Regroup(Join(texts), "}", rest);
    JoinedReads(texts, ms, rest);
    assert s[1..] == Join(texts) + ("}" + rest);
    assert s[1..][0] == texts[0][0];
  }

  /** A name and an escaped string. */
  lemma StringMemberPrints(name: string, data: string)
    requires Plain(name) && PlainButQuotes(data)
    ensures Prints(Named(name, Quoted(Escape(data))), Member(name, Text(data)))
  {
    forall rest: string
      ensures ReadMember(Named(name, Quoted(Escape(data))) + rest) == Some((Member(name, Text(data)), rest))
    {
      StringReads(data, rest);
      NamedAppend(name, Quoted(Escape(data)), rest);
      NamedValueReads(name, Quoted(Escape(data)) + rest);
    }
  }

  /** A name and an object. */
  lemma ObjectMemberPrints(name: string, texts: seq<string>, ms: seq<Member>)
    requires Plain(name) && AllPrint(texts, ms) && texts != []
    ensures Prints(Named(name, Braced(Join(texts))), Member(name, Object(ms)))
  {
    forall rest: string
      ensures ReadMember(Named(name, Braced(Join(texts))) + rest) == Some((Member(name, Object(ms)), rest))
    {
      ObjectReads(texts, ms, rest);
      NamedAppend(name, Braced(Join(texts)), rest);
      NamedValueReads(name, Braced(Join(texts)) + rest);
    }
  }

  /** A whole text made of such members. */
  lemma ObjectParses(texts: seq<string>, ms: seq<Member>)
    requires AllPrint(texts, ms) && texts != []
    ensures Parse(Braced(Join(texts))) == Some(Object(ms))
  {
    ObjectReads(texts, ms, "");
    assert Braced(Join(texts)) + "" == Braced(Join(texts));
  }

  // ---------- and the converse ----------

  /** If `text` reads as the member `m` at all, it does so whatever follows. */
  ghost predicate Settles(text: string, m: Member)
  {
    text != "" && text[0] == '"' &&
    forall rest: string :: ReadMember(text + rest).Some? && ReadMember(text + rest).value.0 == m ==> Prints(text, m)
  }

  ghost predicate AllSettle(texts: seq<string>, ms: seq<Member>)
  {
    |texts| == |ms| && forall i | 0 <= i < |texts| :: Settles(texts[i], ms[i])
  }

  predicate ReadsAsMembers(s: string, ms: seq<Member>)
  {
    ReadMembers(s).Some? && ReadMembers(s).value.0 == ms
  }

  lemma OneMoreSettles(text: string, m: Member, texts: seq<string>, ms: seq<Member>)
    requires Prints(text, m) && AllSettle(texts, ms)
    ensures AllSettle([text] + texts, [m] + ms)
    ensures AllPrint([text] + texts, [m] + ms) <==> AllPrint(texts, ms)
  {
    hide Prints, Settles;
    PrintedSettles(text, m);
    var texts', ms' := [text] + texts, [m] + ms;
    forall i | 0 <= i < |texts'| ensures Settles(texts'[i], ms'[i]) {
      if i > 0 {
        assert texts'[i] == texts[i - 1] && ms'[i] == ms[i - 1];
      }
    }
    assert texts'[1..] == texts && ms'[1..] == ms;
    if AllPrint(texts, ms) {
      forall i | 0 <= i < |texts'| ensures Prints(texts'[i], ms'[i]) {
        if i > 0 {
          assert texts'[i] == texts[i - 1] && ms'[i] == ms[i - 1];
        }
      }
    }
    if AllPrint(texts', ms') {
      forall i | 0 <= i < |texts| ensures Prints(texts[i], ms[i]) {
        assert texts[i] == texts'[i + 1] && ms[i] == ms'[i + 1];
      }
    }
  }

  lemma PrintedSettles(text: string, m: Member)
    requires Prints(text, m)
    ensures Settles(text, m)
  {
  }

  lemma FirstReads(text: string, m: Member, more: string, ms: seq<Member>)
    requires Settles(text, m) && ReadsAsMembers(text + more, ms) && ms != [] && ms[0] == m
    ensures Prints(text, m)
  {
    hide Prints;
  }

  lemma TailReads(text: string, m: Member, tail: string, ms: seq<Member>)
    requires Prints(text, m)
    ensures ReadsAsMembers(text + ("," + tail), [m] + ms) <==> ReadsAsMembers(tail, ms)
  {
    hide Prints, ReadMembers;
    MemberThenMore(text, m, tail);
    assert forall xs: seq<Member> :: ([m] + xs)[1..] == xs;
  }

  lemma {:induction false} JoinedReadsIff(texts: seq<string>, ms: seq<Member>, rest: string)
    requires AllSettle(texts, ms) && texts != []
    ensures ReadsAsMembers(Join(texts) + ("}" + rest), ms) <==> AllPrint(texts, ms)
  {
    hide Prints, Settles, ReadMembers;
    if AllPrint(texts, ms) {
      JoinedReads(texts, ms, rest);
    } else if |texts| == 1 {
      if ReadsAsMembers(Join(texts) + ("}" + rest), ms) {
        FirstReads(texts[0], ms[0], "}" + rest, ms);
      }
    } else {
      var tail := Join(texts[1..]) + ("}" + rest);
      Regroup(texts[0], "," + Join(texts[1..]), "}" + rest);
      Regroup(",", Join(texts[1..]), "}" + rest);
      assert forall i | 0 < i < |texts| :: texts[i] == texts[1..][i - 1] && ms[i] == ms[1..][i - 1];
      if ReadsAsMembers(texts[0] + ("," + tail), ms) {
        FirstReads(texts[0], ms[0], "," + tail, ms);
        assert ms == [ms[0]] + ms[1..];
        TailReads(texts[0], ms[0], tail, ms[1..]);
        JoinedReadsIff(texts[1..], ms[1..], rest);
      }
    }
  }

  /** An object of members that settle reads back, whatever follows it, exactly when all of them do. */
  lemma ObjectReadsIff(texts: seq<string>, ms: seq<Member>, rest: string)
    requires AllSettle(texts, ms) && texts != []
    ensures var r := ReadValue(Braced(Join(texts)) + rest);
            r.Some? && r.value.0 == Object(ms) <==> AllPrint(texts, ms)
  {
    hide ReadMembers, Prints;
    assert Settles(texts[0], ms[0]);
    var s := Braced(Join(texts)) + rest;
    Regroup("{", Join(texts) + "}", rest);
    Regroup(Join(texts), "}", rest);
    assert s[1..] == Join(texts) + ("}" + rest);
    assert s[1..][0] == texts[0][0];
    JoinedReadsIff(texts, ms, rest);
  }

  lemma ObjectParsesIff(texts: seq<string>, ms: seq<Member>)
    requires AllSettle(texts, ms) && texts != []
    ensures Parse(Braced(Join(texts))) == Some(Object(ms)) <==> AllPrint(texts, ms)
  {
    hide ReadValue, Prints, Settles;
    if AllPrint(texts, ms) {
      ObjectParses(texts, ms);
    } else {
      ObjectReadsIff(texts, ms, "");
      assert Braced(Join(texts)) + "" == Braced(Join(texts));
    }
  }

  /** A named value that reads back under its name has a plain one, and its value reads back. */
  lemma NamedReadsBack(name: string, value: string, rest: string)
    requires var r := ReadMember(Named(name, value) + rest); r.Some? && r.value.0.name == name
    ensures Plain(name) && ReadValue(value + rest).Some?
    ensures ReadValue(value + rest).value.0 == ReadMember(Named(name, value) + rest).value.0.value
  {
    hide ReadValue, Plain;
    var s, t := Named(name, value) + rest, ":" + (value + rest);
    NamedAppend(name, value, rest);
    Regroup("\"", ":", value + rest);
    Regroup(name, "\"", t);
    assert s[1..] == name + "\"" + t && t[1..] == value + rest;
    CopiedReadsBackIff(name, t);
    ReadPlain(name, t);
  }
}
