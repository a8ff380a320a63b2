/** src/MessageHandler.cxx: replies queued one by one and sent as one JSON object. */
module MessageHandler {
  import opened CStrings
  import opened Json

  /** One queued reply: a string, or an object of strings. */
  datatype Item = StringItem(name: string, data: string)
                | ObjectItem(name: string, fields: seq<(string, string)>)

  function FieldTexts(fields: seq<(string, string)>): (r: seq<string>)
    ensures |r| == |fields|
    ensures forall i | 0 <= i < |r| :: r[i] == Named(fields[i].0, Quoted(fields[i].1))
  {
    seq(|fields|, i requires 0 <= i < |fields| => Named(fields[i].0, Quoted(fields[i].1)))
  }

  /** The text an item is queued as. Only the string form escapes quotes. */
  function Print(item: Item): string
  {
    match item
    case StringItem(name, data) => Named(name, Quoted(Escape(data)))
    case ObjectItem(name, fields) =>
      Named(name, if fields == [] then "{\"\"}" else Braced(Join(FieldTexts(fields))))
  }

  function PrintAll(items: seq<Item>): (r: seq<string>)
    ensures |r| == |items| && forall i | 0 <= i < |r| :: r[i] == Print(items[i])
  {
    seq(|items|, i requires 0 <= i < |items| => Print(items[i]))
  }

  const TIME_NAME := "MIDASTime"

  /** The text sent for the queued texts. */
  function Reply(time: string, texts: seq<string>): string
  {
    Braced(Named(TIME_NAME, Quoted(time)) + ("," + Join(texts)))
  }

  /** The fields handed over in three parallel vectors. */
  function Fields(names: seq<cstring>, data: seq<string>, length: seq<nat>): (r: seq<(string, string)>)
    requires |names| >= |length| && |data| >= |length|
    requires forall i | 0 <= i < |length| :: length[i] <= |data[i]|
    ensures |r| == |length|
    ensures forall i | 0 <= i < |r| :: r[i] == (names[i], data[i][..length[i]])
  {
    seq(|length|, i requires 0 <= i < |length| => (names[i], data[i][..length[i]]))
  }

  /** What the assertions of QueueMessage and QueueError demand: from the second character on, a quote
      has a backslash before it. */
  predicate QuotesEscaped(msg: string)
  {
    forall i | 1 <= i < |msg| && msg[i] == '"' :: msg[i - 1] == '\\'
  }

  class MessageHandler {
    var JSONMessageQueue: seq<string>
    var JSONErrorQueue: seq<string>
    var TotalText: int

    constructor ()
      ensures JSONMessageQueue == [] && JSONErrorQueue == [] && TotalText == 0
    {
      JSONMessageQueue, JSONErrorQueue, TotalText := [], [], 0;
    }

    method HaveErrors() returns (r: bool)
      ensures r <==> JSONErrorQueue != []
    {
      r := |JSONErrorQueue| != 0;
    }

    /** The loops that push the characters of `s` one at a time. */
    static method PushAll(message: string, s: string) returns (r: string)
      ensures r == message + s
    {
      r := message;
      for i := 0 to |s|
        invariant r == message + s[..i]
      {
        r := r + [s[i]];
      }
    }

    static method PushEscaped(message: string, s: string) returns (r: string)
      ensures r == message + Escape(s)
    {
      r := message;
      for i := 0 to |s|
        invariant r == message + Escape(s[..i])
      {
        EscapeAppend(s[..i], s[i]);
        assert s[..i + 1] == s[..i] + [s[i]];
        if s[i] == '"' {
          r := r + ['\\'];
        }
        r := r + [s[i]];
      }
      assert s[..|s|] == s;
    }

    /** A negative `length` asks for the C string at `data`. */
    method QueueData(name: cstring, data: string, length: int)
      requires length <= |data|
      modifies this
      ensures var payload := if length < 0 then CStr(data) else data[..length];
              && JSONMessageQueue == old(JSONMessageQueue) + [Print(StringItem(name, payload))]
              && TotalText == old(TotalText) + |Print(StringItem(name, payload))|
      ensures JSONErrorQueue == old(JSONErrorQueue)
    {
      var payload := if length < 0 then CStr(data) else data[..length];
      var message := ['"'];
      message := PushAll(message, name);
      message := message + ['"'];
      message := message + [':'];
      message := message + ['"'];
      message := PushEscaped(message, payload);
      message := message + ['"'];
      StringShape(name, Escape(payload), message);
      JSONMessageQueue := JSONMessageQueue + [message];
      TotalText := TotalText + |message|;
    }

    /** One field, from behind its opening quote up to its closing quote. */
    static method PushField(message: string, name: string, data: string, ghost open: string) returns (r: string)
      requires message == open + "\""
      ensures r + "\"" == open + Named(name, Quoted(data))
    {
      hide Named, Quoted;
      r := PushAll(message, name);
      r := r + ['"'];
      r := r + [':'];
      r := r + ['"'];
      r := PushAll(r, data);
      FieldShape(open, name, data, message, r);
    }

    method QueueObject(name: cstring, names: seq<cstring>, data: seq<string>, length: seq<nat>)
      requires |names| >= |length| && |data| >= |length|
      requires forall i | 0 <= i < |length| :: length[i] <= |data[i]|
      modifies this
      ensures var fields := Fields(names, data, length);
              && JSONMessageQueue == old(JSONMessageQueue) + [Print(ObjectItem(name, fields))]
              && TotalText == old(TotalText) + |Print(ObjectItem(name, fields))|
      ensures JSONErrorQueue == old(JSONErrorQueue)
    {
      hide Join, Started, Named, Quoted;
      ghost var texts := FieldTexts(Fields(names, data, length));
      var message := ['"'];
      message := PushAll(message, name);
      message := message + ['"'];
      message := message + [':'];
      ghost var head := message;
      message := message + ['{'];
      message := message + ['"'];
      StartedNone(texts);
      for i := 0 to |length|
        invariant unchanged(this)
        invariant i < |length| || i == 0 ==> message == head + (Started(texts, i) + "\"")
        invariant i == |length| > 0 ==> message + "\"" == head + ("{" + Join(texts))
      {
        message := PushField(message, names[i], data[i][..length[i]], head + Started(texts, i));
        StartedNext(head, texts, i);
        if i != |length| - 1 {
          message := message + ['"'];
          message := message + [','];
          message := message + ['"'];
        }
      }
      message := message + ['"'];
      message := message + ['}'];
      ObjectShape(name, texts, head, message);
      JSONMessageQueue := JSONMessageQueue + [message];
      TotalText := TotalText + |message|;
    }

    method QueueMessage(msg: cstring)
      requires QuotesEscaped(msg)
      modifies this
      ensures JSONMessageQueue == old(JSONMessageQueue) + [Print(StringItem("msg", msg))]
      ensures JSONErrorQueue == old(JSONErrorQueue)
    {
      QueueData("msg", msg, |msg|);
      assert msg[..|msg|] == msg;
    }

    /** An error goes to the message queue like any other text. */
    method QueueError(err: cstring)
      requires QuotesEscaped(err)
      modifies this
      ensures JSONMessageQueue == old(JSONMessageQueue) + [Print(StringItem("err", err))]
      ensures JSONErrorQueue == old(JSONErrorQueue)
    {
      QueueData("err", err, |err|);
      assert err[..|err|] == err;
    }

    /** One queued item, behind a comma unless it is the first. */
    static method PushItem(msg: string, i: nat, item: string, ghost head: string, ghost texts: seq<string>)
      returns (r: string)
      requires msg == head + Join(texts) && i == |texts|
      ensures r == head + Join(texts + [item])
    {
      hide Join;
      r := msg;
      if i > 0 {
        r := r + [','];
      }
      r := PushAll(r, item);
      JoinAppend(texts, item);
      CommaBehind(head, texts, item);
    }

    method ReadMessageQueue(midas_time: string) returns (msg: string)
      modifies this
      ensures msg == Reply(midas_time, old(JSONMessageQueue) + old(JSONErrorQueue))
      ensures JSONMessageQueue == [] && JSONErrorQueue == [] && TotalText == old(TotalText)
    {
      hide Join;
      msg := PushAll("", "{\"MIDASTime\":\"" + midas_time + "\",");
      ghost var head := msg;
      var i := 0;
      JoinNone(head);
      for k := 0 to |JSONMessageQueue|
        invariant unchanged(this)
        invariant i == k && msg == head + Join(JSONMessageQueue[..k])
      {
        msg := PushItem(msg, i, JSONMessageQueue[k], head, JSONMessageQueue[..k]);
        assert JSONMessageQueue[..k + 1] == JSONMessageQueue[..k] + [JSONMessageQueue[k]];
        i := i + 1;
      }
      ghost var first := JSONMessageQueue;
      assert first[..|first|] == first && first + [] == first;
      JSONMessageQueue := [];
      for k := 0 to |JSONErrorQueue|
        invariant JSONMessageQueue == [] && JSONErrorQueue == old(JSONErrorQueue) && TotalText == old(TotalText)
        invariant i == |first| + k && msg == head + Join(first + JSONErrorQueue[..k])
      {
        msg := PushItem(msg, i, JSONErrorQueue[k], head, first + JSONErrorQueue[..k]);
        assert first + JSONErrorQueue[..k + 1] == first + JSONErrorQueue[..k] + [JSONErrorQueue[k]];
        i := i + 1;
      }
      assert JSONErrorQueue[..|JSONErrorQueue|] == JSONErrorQueue;
      ReplyShape(midas_time, Join(first + JSONErrorQueue), msg);
      JSONErrorQueue := [];
      msg := msg + ['}'];
    }
  }

  // ---------- the printed texts piece by piece ----------

  lemma StringShape(name: string, body: string, message: string)
    requires message == (((("\"" + name) + "\"" + ":") + "\"") + body) + "\""
    ensures message == Named(name, Quoted(body))
  {
    var n := |name|;
    assert |message| == |Named(name, Quoted(body))|;
    forall i | 0 <= i < |message| ensures message[i] == Named(name, Quoted(body))[i] {
    }
  }

  /** The opening brace and the fields so far, each with its comma. */
  function Started(texts: seq<string>, i: nat): string
    requires i <= |texts|
  {
    if i == 0 then "{" else Started(texts, i - 1) + (texts[i - 1] + ",")
  }

  lemma StartedNone(texts: seq<string>)
    ensures Started(texts, 0) + "\"" == "{\""
  {
  }

  lemma FieldShape(open: string, name: string, body: string, before: string, message: string)
    requires before == open + "\""
    requires message == (((before + name) + "\"" + ":") + "\"") + body
    ensures message + "\"" == open + Named(name, Quoted(body))
  {
    var whole := open + Named(name, Quoted(body));
    assert |message + "\""| == |whole|;
    forall i | 0 <= i < |whole| ensures (message + "\"")[i] == whole[i] {
    }
  }

  lemma StartedNext(head: string, texts: seq<string>, i: nat)
    requires i < |texts|
    ensures (head + Started(texts, i)) + texts[i] + ",\"" == head + (Started(texts, i + 1) + "\"")
    ensures i + 1 == |texts| ==> (head + Started(texts, i)) + texts[i] == head + ("{" + Join(texts))
  {
    if i + 1 == |texts| {
      StartedJoin(texts, i);
      assert texts[..i + 1] == texts;
      Regroup(head, Started(texts, i), texts[i]);
    }
  }

  lemma {:induction false} StartedJoin(texts: seq<string>, i: nat)
    requires i < |texts|
    ensures Started(texts, i) + texts[i] == "{" + Join(texts[..i + 1])
  {
    hide Join;
    if i == 0 {
      assert texts[..1] == [] + [texts[0]];
      JoinAppend([], texts[0]);
    } else {
      StartedJoin(texts, i - 1);
      JoinAppend(texts[..i], texts[i]);
      assert texts[..i + 1] == texts[..i] + [texts[i]];
      CommaBetween(Started(texts, i - 1), texts[i - 1], Join(texts[..i]), texts[i]);
    }
  }

  lemma CommaBetween(a: string, b: string, joined: string, t: string)
    requires a + b == "{" + joined
    ensures (a + (b + ",")) + t == "{" + (joined + ("," + t))
  {
    Regroup(a, b, ",");
    Regroup("{" + joined, ",", t);
    Regroup("{", joined, "," + t);
  }

  lemma JoinNone(head: string)
    ensures head == head + Join([])
  {
  }

  lemma CommaBehind(head: string, texts: seq<string>, t: string)
    ensures (head + Join(texts) + [',']) + t == head + (Join(texts) + ("," + t))
    ensures texts == [] ==> head + Join(texts) + t == head + t
  {
    Regroup(head, Join(texts), ",");
    Regroup(Join(texts), ",", t);
    Regroup(head, Join(texts) + ",", t);
    assert texts == [] ==> head + "" == head;
  }

  lemma {:induction false} JoinAppend(texts: seq<string>, t: string)
    ensures Join(texts + [t]) == if texts == [] then t else Join(texts) + ("," + t)
  {
    if |texts| == 0 {
      assert texts + [t] == [t];
    } else {
      assert (texts + [t])[1..] == texts[1..] + [t];
      JoinAppend(texts[1..], t);
      if |texts| > 1 {
        Regroup(",", Join(texts[1..]), "," + t);
        Regroup(texts[0], "," + Join(texts[1..]), "," + t);
      }
    }
  }

  lemma ObjectShape(name: string, texts: seq<string>, head: string, message: string)
    requires head == "\"" + name + "\"" + ":"
    requires texts == [] ==> message == head + "{\"" + "\"" + "}"
    requires texts != [] ==> message == head + ("{" + Join(texts)) + "}"
    ensures message == Named(name, if texts == [] then "{\"\"}" else Braced(Join(texts)))
  {
    var value := if texts == [] then "{\"\"}" else Braced(Join(texts));
    assert head == "\"" + (name + "\":");
    Regroup("{", Join(texts), "}");
    assert message == head + value by {
      if texts != [] {
        Regroup(head, "{" + Join(texts), "}");
      }
    }
    Regroup("\"", name + "\":", value);
    Regroup(name, "\":", value);
  }

  lemma ReplyShape(time: string, members: string, msg: string)
    requires msg == ("{\"MIDASTime\":\"" + time + "\",") + members
    ensures msg + "}" == Braced(Named(TIME_NAME, Quoted(time)) + ("," + members))
  {
    var whole := Braced(Named(TIME_NAME, Quoted(time)) + ("," + members));
    assert |msg + "}"| == |whole|;
    forall i | 0 <= i < |whole| ensures (msg + "}")[i] == whole[i] {
    }
  }
}
