/** What a client reads out of the replies. */
module Replies {
  import opened CStrings
  import opened Json
  import opened MessageHandler

  /** The JSON member an item is meant to be. */
  function Meaning(item: Item): Member
  {
    match item
    case StringItem(name, data) => Member(name, Text(data))
    case ObjectItem(name, fields) => Member(name, Object(FieldMeanings(fields)))
  }

  function FieldMeanings(fields: seq<(string, string)>): (r: seq<Member>)
    ensures |r| == |fields| && forall i | 0 <= i < |r| :: r[i] == Member(fields[i].0, Text(fields[i].1))
  {
    seq(|fields|, i requires 0 <= i < |fields| => Member(fields[i].0, Text(fields[i].1)))
  }

  function Meanings(items: seq<Item>): (r: seq<Member>)
    ensures |r| == |items| && forall i | 0 <= i < |r| :: r[i] == Meaning(items[i])
  {
    seq(|items|, i requires 0 <= i < |items| => Meaning(items[i]))
  }

  /** No backslash or control character anywhere, quotes only where the printer escapes them, and at
      least one field in an object. */
  predicate Clean(item: Item)
  {
    match item
    case StringItem(name, data) => Plain(name) && PlainButQuotes(data)
    case ObjectItem(name, fields) =>
      Plain(name) && fields != [] && forall f | f in fields :: Plain(f.0) && Plain(f.1)
  }

  lemma CleanItemPrints(item: Item)
    requires Clean(item)
    ensures Prints(Print(item), Meaning(item))
  {
    match item
    case StringItem(name, data) => StringMemberPrints(name, data);
    case ObjectItem(name, fields) =>
      forall i | 0 <= i < |fields| ensures Prints(FieldTexts(fields)[i], FieldMeanings(fields)[i]) {
        assert fields[i] in fields;
        StringMemberPrints(fields[i].0, fields[i].1);
        EscapePlain(fields[i].1);
      }
      ObjectMemberPrints(name, FieldTexts(fields), FieldMeanings(fields));
  }

  predicate AllClean(items: seq<Item>)
  {
    forall i | 0 <= i < |items| :: Clean(items[i])
  }

  lemma CleanItemsPrint(items: seq<Item>)
    requires AllClean(items)
    ensures AllPrint(PrintAll(items), Meanings(items))
  {
    forall i | 0 <= i < |items| ensures Prints(PrintAll(items)[i], Meanings(items)[i]) {
      CleanItemPrints(items[i]);
    }
  }

  /** A reply built from at least one clean item parses to the time and then the items in order. */
  lemma ReplyRoundTrip(time: string, items: seq<Item>)
    requires Plain(time) && AllClean(items) && items != []
    ensures Parse(Reply(time, PrintAll(items))) ==
            Some(Object([Member("MIDASTime", Text(time))] + Meanings(items)))
  {
    var timeText := Named(TIME_NAME, Quoted(time));
    EscapePlain(time);
    StringMemberPrints(TIME_NAME, time);
    CleanItemsPrint(items);
    var texts, ms := [timeText] + PrintAll(items), [Member(TIME_NAME, Text(time))] + Meanings(items);
    assert AllPrint(texts, ms) by {
      forall i | 0 <= i < |texts| ensures Prints(texts[i], ms[i]) {
        if i > 0 {
          assert texts[i] == PrintAll(items)[i - 1] && ms[i] == Meanings(items)[i - 1];
        }
      }
    }
    assert texts[1..] == PrintAll(items);
    ObjectParses(texts, ms);
  }

  /** A reply built from nothing ends in a comma and a brace, which is not JSON. */
  lemma EmptyReplyDoesNotParse(time: string)
    requires Plain(time)
    ensures Parse(Reply(time, [])) == None
  {
    var timeText := Named(TIME_NAME, Quoted(time));
    EscapePlain(time);
    StringMemberPrints(TIME_NAME, time);
    assert Prints(timeText, Member(TIME_NAME, Text(time)));
    var s := Reply(time, []);
    assert s[1..] == timeText + ",}";
    assert ",}"[1..] == "}" && ReadMember("}") == None && ReadMembers("}") == None;
    assert ReadMembers(timeText + ",}") == None;
    assert s[1..][0] == '"';
  }

  lemma ReplyParsesIff(time: string, items: seq<Item>)
    requires Plain(time) && AllClean(items)
    ensures Parse(Reply(time, PrintAll(items))).Some? <==> items != []
  {
    if items == [] {
      assert PrintAll(items) == [];
      EmptyReplyDoesNotParse(time);
    } else {
      ReplyRoundTrip(time, items);
    }
  }

  // ---------- exactly which replies read back ----------

  /** A value read from the front of `s`, whatever follows it. */
  predicate ReadsAs(s: string, v: Value)
  {
    ReadValue(s).Some? && ReadValue(s).value.0 == v
  }

  /** A queued string reads back exactly when it has no backslash and no control character, whatever text
      follows it; for an object field, which is copied without escapes, not even quotes. */
  lemma DataReadsBackIff(data: string, rest: string)
    ensures ReadsAs(Quoted(Escape(data)) + rest, Text(data)) <==> PlainButQuotes(data)
    ensures ReadsAs(Quoted(data) + rest, Text(data)) <==> Plain(data)
  {
    EscapedReadsBackIff(data, rest);
    CopiedReadsBackIff(data, rest);
    QuotedValue(Escape(data), rest);
    QuotedValue(data, rest);
  }

  lemma QuotedValue(text: string, rest: string)
    ensures ReadValue(Quoted(text) + rest) ==
            match ReadBody(text + "\"" + rest)
            case None => None
            case Some((t, r)) => Some((Text(t), r))
  {
    assert (Quoted(text) + rest)[1..] == text + "\"" + rest;
  }

  lemma FieldReadsBack(name: string, data: string, rest: string)
    requires var r := ReadMember(Named(name, Quoted(data)) + rest); r.Some? && r.value.0 == Member(name, Text(data))
    ensures Plain(name) && Plain(data)
  {
    hide ReadMember, ReadValue, Plain, PlainButQuotes;
    NamedReadsBack(name, Quoted(data), rest);
    DataReadsBackIff(data, rest);
  }

  lemma FieldSettles(name: string, data: string)
    ensures Settles(Named(name, Quoted(data)), Member(name, Text(data)))
    ensures Prints(Named(name, Quoted(data)), Member(name, Text(data))) <==> Plain(name) && Plain(data)
  {
    hide ReadMember;
    var text, m := Named(name, Quoted(data)), Member(name, Text(data));
    if Plain(name) && Plain(data) {
      EscapePlain(data);
      StringMemberPrints(name, data);
    } else {
      forall rest: string
        ensures !(ReadMember(text + rest).Some? && ReadMember(text + rest).value.0 == m)
      {
        if ReadMember(text + rest).Some? && ReadMember(text + rest).value.0 == m {
          FieldReadsBack(name, data, rest);
        }
      }
      assert !(ReadMember(text + "") == Some((m, "")));
    }
  }

  lemma NoFieldsDoNotRead(rest: string)
    ensures ReadValue("{\"\"}" + rest) == None
  {
    var s := "{\"\"}" + rest;
    assert s[1..] == "\"\"}" + rest && s[1..][1..] == "\"}" + rest && s[1..][1..][1..] == "}" + rest;
    assert ReadBody(s[1..][1..]) == Some(("", "}" + rest));
    assert ReadMember(s[1..]) == None;
  }

  lemma ItemReadsBack(item: Item, rest: string)
    requires var r := ReadMember(Print(item) + rest); r.Some? && r.value.0 == Meaning(item)
    ensures Clean(item)
  {
    hide ReadMember, ReadValue, Plain, PlainButQuotes, Prints, Settles;
    match item
    case StringItem(name, data) =>
      NamedReadsBack(name, Quoted(Escape(data)), rest);
      DataReadsBackIff(data, rest);
    case ObjectItem(name, fields) =>
      if fields == [] {
        NamedReadsBack(name, "{\"\"}", rest);
        NoFieldsDoNotRead(rest);
      } else {
        var texts, ms := FieldTexts(fields), FieldMeanings(fields);
        NamedReadsBack(name, Braced(Join(texts)), rest);
        forall i | 0 <= i < |fields|
          ensures Settles(texts[i], ms[i]) && (Prints(texts[i], ms[i]) <==> Plain(fields[i].0) && Plain(fields[i].1))
        {
          FieldSettles(fields[i].0, fields[i].1);
        }
        ObjectReadsIff(texts, ms, rest);
        assert forall i | 0 <= i < |fields| :: Prints(texts[i], ms[i]);
      }
  }

  lemma ItemSettles(item: Item)
    ensures Settles(Print(item), Meaning(item)) && (Prints(Print(item), Meaning(item)) <==> Clean(item))
  {
    hide ReadMember, Clean, Meaning;
    var text, m := Print(item), Meaning(item);
    if Clean(item) {
      CleanItemPrints(item);
    } else {
      forall rest: string
        ensures !(ReadMember(text + rest).Some? && ReadMember(text + rest).value.0 == m)
      {
        if ReadMember(text + rest).Some? && ReadMember(text + rest).value.0 == m {
          ItemReadsBack(item, rest);
        }
      }
      assert !(ReadMember(text + "") == Some((m, "")));
    }
  }

  lemma ItemsSettle(items: seq<Item>)
    ensures AllSettle(PrintAll(items), Meanings(items))
    ensures AllPrint(PrintAll(items), Meanings(items)) <==> AllClean(items)
  {
    hide Prints, Settles, Print, Meaning, Clean;
    var texts, ms := PrintAll(items), Meanings(items);
    forall i | 0 <= i < |items|
      ensures Settles(texts[i], ms[i]) && (Prints(texts[i], ms[i]) <==> Clean(items[i]))
    {
      ItemSettles(items[i]);
    }
  }

  /** A reply says what was queued, in order, exactly when something was queued and all of it is clean. */
  lemma ReplyReadsBackIff(time: string, items: seq<Item>)
    requires Plain(time)
    ensures Parse(Reply(time, PrintAll(items))) == Some(Object([Member("MIDASTime", Text(time))] + Meanings(items))) <==>
            items != [] && AllClean(items)
  {
    hide Parse, Prints, Settles, AllSettle, AllPrint, AllClean, Plain;
    if items == [] {
      assert PrintAll(items) == [];
      EmptyReplyDoesNotParse(time);
    } else {
      var timeText, timeMember := Named(TIME_NAME, Quoted(time)), Member(TIME_NAME, Text(time));
      TimeNameIsPlain();
      FieldSettles(TIME_NAME, time);
      ItemsSettle(items);
      OneMoreSettles(timeText, timeMember, PrintAll(items), Meanings(items));
      assert ([timeText] + PrintAll(items))[1..] == PrintAll(items);
      ObjectParsesIff([timeText] + PrintAll(items), [timeMember] + Meanings(items));
    }
  }

  lemma TimeNameIsPlain()
    ensures Plain(TIME_NAME)
  {
  }

  const DATA_OK := StringItem("msg", "DATA OK")

  /** The front end queues this message before every reply it builds, so the reply always parses. */
  lemma HandledReplyParses(time: string, items: seq<Item>)
    requires Plain(time) && AllClean(items)
    ensures Parse(Reply(time, PrintAll(items + [DATA_OK]))) ==
            Some(Object([Member("MIDASTime", Text(time))] + Meanings(items) + [Member("msg", Text("DATA OK"))]))
  {
    assert Clean(DATA_OK);
    ReplyRoundTrip(time, items + [DATA_OK]);
    assert Meanings(items + [DATA_OK]) == Meanings(items) + [Member("msg", Text("DATA OK"))];
    assert [Member(TIME_NAME, Text(time))] + (Meanings(items) + [Member("msg", Text("DATA OK"))])
        == [Member(TIME_NAME, Text(time))] + Meanings(items) + [Member("msg", Text("DATA OK"))];
  }

  // ---------- runs of queueing and reading ----------

  datatype Op = Queue(item: Item) | Read(time: string)

  /** The replies sent over a run, and the items still queued at its end. */
  function Run(queue: seq<Item>, ops: seq<Op>): (seq<string>, seq<Item>)
    decreases |ops|
  {
    if ops == [] then ([], queue)
    else
      match ops[0]
      case Queue(item) => Run(queue + [item], ops[1..])
      case Read(time) =>
        var (later, left) := Run([], ops[1..]);
        ([Reply(time, PrintAll(queue))] + later, left)
  }

  function Queued(ops: seq<Op>): seq<Item>
  {
    if ops == [] then []
    else if ops[0].Queue? then [ops[0].item] + Queued(ops[1..])
    else Queued(ops[1..])
  }

  /** What a client gets out of one reply: the members after the time, or nothing if it does not parse. */
  function Received(reply: string): seq<Member>
  {
    match Parse(reply)
    case Some(Object(ms)) => if ms == [] then [] else ms[1..]
    case _ => []
  }

  function AllReceived(replies: seq<string>): seq<Member>
  {
    if replies == [] then [] else Received(replies[0]) + AllReceived(replies[1..])
  }

  predicate CleanOps(ops: seq<Op>)
  {
    forall i | 0 <= i < |ops| :: CleanOp(ops[i])
  }

  predicate CleanOp(op: Op)
  {
    match op
    case Queue(item) => Clean(item)
    case Read(time) => Plain(time)
  }

  lemma ReceivedFromReply(time: string, items: seq<Item>)
    requires Plain(time) && AllClean(items)
    ensures Received(Reply(time, PrintAll(items))) == Meanings(items)
  {
    if items == [] {
      assert PrintAll(items) == [];
      EmptyReplyDoesNotParse(time);
    } else {
      ReplyRoundTrip(time, items);
      assert ([Member(TIME_NAME, Text(time))] + Meanings(items))[1..] == Meanings(items);
    }
  }

  lemma MeaningsAppend(a: seq<Item>, b: seq<Item>)
    ensures Meanings(a + b) == Meanings(a) + Meanings(b)
  {
  }

  /** Nothing is lost, doubled or reordered: what the client reads out of all replies, followed by what
      is still queued, is everything queued, in the order of queueing. */
  lemma {:induction false} EverythingIsDeliveredOnce(queue: seq<Item>, ops: seq<Op>)
    requires AllClean(queue) && CleanOps(ops)
    ensures var (replies, left) := Run(queue, ops);
            AllReceived(replies) + Meanings(left) == Meanings(queue) + Meanings(Queued(ops))
    decreases |ops|
  {
    hide Meaning, Received, Reply, Clean, Plain, AllReceived;
    if ops == [] {
      NothingDelivered(queue);
    } else {
      var op, rest := ops[0], ops[1..];
      assert CleanOp(op);
      match op
      case Queue(item) =>
        EverythingIsDeliveredOnce(queue + [item], rest);
        QueuedLater(queue, item, Queued(rest));
      case Read(time) =>
        EverythingIsDeliveredOnce([], rest);
        ReceivedFromReply(time, queue);
        DeliveredByRead(queue, time, rest);
    }
  }

  lemma NothingDelivered(queue: seq<Item>)
    ensures AllReceived([]) + Meanings(queue) == Meanings(queue) + Meanings([])
  {
  }

  lemma QueuedLater(queue: seq<Item>, item: Item, later: seq<Item>)
    ensures Meanings(queue + [item]) + Meanings(later) == Meanings(queue) + Meanings([item] + later)
  {
    hide Meaning;
    MeaningsAppend(queue + [item], later);
    MeaningsAppend(queue, [item] + later);
    assert queue + [item] + later == queue + ([item] + later);
  }

  lemma DeliveredByRead(queue: seq<Item>, time: string, rest: seq<Op>)
    requires Received(Reply(time, PrintAll(queue))) == Meanings(queue)
    requires var (replies, left) := Run([], rest);
             AllReceived(replies) + Meanings(left) == Meanings([]) + Meanings(Queued(rest))
    ensures var (later, left) := Run([], rest);
            AllReceived([Reply(time, PrintAll(queue))] + later) + Meanings(left) ==
              Meanings(queue) + Meanings(Queued(rest))
  {
    var (later, left) := Run([], rest);
    var reply := Reply(time, PrintAll(queue));
    assert ([reply] + later)[1..] == later;
    assert Meanings([]) + Meanings(Queued(rest)) == Meanings(Queued(rest));
  }

  /** A message that passes the assertion because its quotes are escaped already is escaped again, and
      does not read back. */
  lemma EscapedQuoteIsGarbled(msg: string, i: nat)
    requires QuotesEscaped(msg) && 1 <= i < |msg| && msg[i] == '"'
    ensures forall rest :: !ReadsAs(Quoted(Escape(msg)) + rest, Text(msg))
  {
    assert msg[i - 1] in msg;
    forall rest ensures !ReadsAs(Quoted(Escape(msg)) + rest, Text(msg)) {
      DataReadsBackIff(msg, rest);
    }
  }
}
