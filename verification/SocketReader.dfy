/** src/feGEMClass.cxx:670-747: a message is put together from the reads of a socket. */
module SocketReader {
  import opened CStrings
  import opened GemBank

  /** How many bytes the k-th read would return if asked for enough; nothing arrives after the last chunk. */
  function Chunk(chunks: seq<nat>, k: nat): nat
  {
    if k < |chunks| then chunks[k] else 0
  }

  function Sum(chunks: seq<nat>, k: nat): nat
  {
    if k == 0 then 0 else Sum(chunks, k - 1) + Chunk(chunks, k - 1)
  }

  function Min(a: nat, b: nat): nat
  {
    if a < b then a else b
  }

  // ---------- the outcome of a connection ----------

  const HEADER: nat := 88
  const HEADER_READS: nat := 100000
  const BODY_READS: nat := 10000

  datatype Delivery = Nothing | HeaderTimeout | Malformed | BodyTimeout | SizeMismatch | Received(size: nat)

  /** Bytes in the buffer after `k` reads, of `n` sent. */
  function Arrived(chunks: seq<nat>, n: nat, k: nat): nat
  {
    Min(n, Sum(chunks, k))
  }

  /** The k-th read alone brings as much as a bank header. */
  predicate BringsHeader(chunks: seq<nat>, n: nat, k: nat)
  {
    Arrived(chunks, n, k + 1) - Arrived(chunks, n, k) >= HEADER
  }

  /** The first such read from `k` on; `end` if there is none before that. */
  function HeaderRead(chunks: seq<nat>, n: nat, k: nat, end: nat): (r: nat)
    requires k <= end
    ensures k <= r <= end && (r < end ==> BringsHeader(chunks, n, r))
    ensures forall i | k <= i < r :: !BringsHeader(chunks, n, i)
    decreases end - k
  {
    if k == end || BringsHeader(chunks, n, k) then k else HeaderRead(chunks, n, k + 1, end)
  }

  /** The size a message gives for itself, by its tag. */
  function DeclaredSize(s: seq<octet>): Option<int>
    requires |s| >= HEADER
  {
    if s[..4] == "GEA1" then Some(ToInt32(Wrap32(ARRAY_HEADER + U32(s, 8))))
    else if s[..4] == "GEB1" then Some(ToInt32(TotalSize(s)))
    else None
  }

  /** How much the reads from `i` up to `j` bring. */
  function Between(chunks: seq<nat>, i: nat, j: nat): nat
    requires i <= j
  {
    SumGrows(chunks, i, j);
    Sum(chunks, j) - Sum(chunks, i)
  }

  /** The header loop asks for what the event buffer still holds, the body loop for what the message lacks. */
  function Receive(stream: seq<octet>, chunks: seq<nat>, eventSize: nat): Delivery
  {
    var n := Min(eventSize, |stream|);
    if Arrived(chunks, n, 1) == 0 then Nothing
    else
      var r := HeaderRead(chunks, n, 0, HEADER_READS - 1);
      if r == HEADER_READS - 1 then HeaderTimeout
      else match DeclaredSize(stream)
        case None => Malformed
        case Some(size) =>
          var position := Arrived(chunks, n, r + 1);
          if position > size then SizeMismatch
          else if Min(|stream|, position + Between(chunks, r + 1, r + BODY_READS)) >= size then Received(size)
          else BodyTimeout
  }

  /** How much of the stream is in memory when the reading ends, however it ends. */
  function Taken(stream: seq<octet>, chunks: seq<nat>, eventSize: nat): nat
  {
    var n := Min(eventSize, |stream|);
    if Arrived(chunks, n, 1) == 0 then 0
    else
      var r := HeaderRead(chunks, n, 0, HEADER_READS - 1);
      var position := Arrived(chunks, n, r + 1);
      if r == HEADER_READS - 1 then position
      else match DeclaredSize(stream)
        case None => position
        case Some(size) =>
          if position > size then position
          else Min(Min(size, |stream|), position + Between(chunks, r + 1, r + 1 + BODY_READS))
  }

  // ---------- the loops ----------

  /** `s` copied over `buf` from `at` on. */
  function Placed(buf: seq<octet>, at: nat, s: seq<octet>): (r: seq<octet>)
    requires at + |s| <= |buf|
    ensures |r| == |buf|
  {
    buf[..at] + s + buf[at + |s|..]
  }

  lemma PlacedNext(buf: seq<octet>, at: nat, s: seq<octet>, i: nat)
    requires i < |s| && at + |s| <= |buf|
    ensures Placed(buf, at, s[..i + 1]) == Placed(buf, at, s[..i])[at + i := s[i]]
  {
  }

  lemma PlacedNone(buf: seq<octet>, at: nat)
    requires at <= |buf|
    ensures Placed(buf, at, []) == buf
  {
  }

  lemma PlacedMore(buf: seq<octet>, at: nat, s: seq<octet>, i: nat, j: nat)
    requires i <= j <= |s| && at + j <= |buf|
    ensures Placed(Placed(buf, at, s[..i]), at + i, s[i..j]) == Placed(buf, at, s[..j])
  {
  }

  lemma ArrivedNext(chunks: seq<nat>, n: nat, k: nat)
    ensures Arrived(chunks, n, k + 1) == Arrived(chunks, n, k) + Min(Chunk(chunks, k), n - Arrived(chunks, n, k))
  {
  }

  lemma {:induction false} SumGrows(chunks: seq<nat>, i: nat, j: nat)
    requires i <= j
    ensures Sum(chunks, i) <= Sum(chunks, j)
  {
    if i < j {
      SumGrows(chunks, i, j - 1);
    }
  }

  method CopyTo(buf: array<octet>, at: nat, s: seq<octet>)
    requires at + |s| <= buf.Length
    modifies buf
    ensures buf[..] == Placed(old(buf[..]), at, s)
  {
    hide Placed;
    PlacedNone(buf[..], at);
    for i := 0 to |s|
      invariant buf[..] == Placed(old(buf[..]), at, s[..i])
    {
      PlacedNext(old(buf[..]), at, s, i);
      buf[at + i] := s[i];
    }
    assert s[..|s|] == s;
  }

  datatype Phase = Empty | Timeout | Ready

  class TcpSocket {
    const stream: seq<octet>         // what the client sends
    const chunks: seq<nat>           // in which pieces it arrives
    var position: nat                // how much has been read
    var count: nat                   // in how many reads

    constructor (stream: seq<octet>, chunks: seq<nat>)
      ensures this.stream == stream && this.chunks == chunks && position == 0 && count == 0
    {
      this.stream, this.chunks := stream, chunks;
      position, count := 0, 0;
    }

    /** read(socket, buf + at, n) */
    method Read(buf: array<octet>, at: nat, n: nat) returns (read_status: nat)
      requires position <= |stream| && at + Min(n, |stream| - position) <= buf.Length
      modifies this`position, this`count, buf
      ensures count == old(count) + 1 && position == old(position) + read_status <= |stream|
      ensures read_status == Min(Chunk(chunks, old(count)), Min(n, |stream| - old(position)))
      ensures at + read_status <= buf.Length
      ensures buf[..] == Placed(old(buf[..]), at, stream[old(position)..position])
    {
      read_status := Min(Chunk(chunks, count), Min(n, |stream| - position));
      CopyTo(buf, at, stream[position..position + read_status]);
      position, count := position + read_status, count + 1;
    }

    /** Reads until one read alone has brought a header. */
    method ReadHeader(buf: array<octet>, ptr: nat, fEventSize: nat) returns (phase: Phase)
      requires position == 0 && count == 0 && ptr + Min(fEventSize, |stream|) <= buf.Length
      modifies this`position, this`count, buf
      ensures position == Arrived(chunks, Min(fEventSize, |stream|), count)
      ensures buf[..] == Placed(old(buf[..]), ptr, stream[..position])
      ensures var n := Min(fEventSize, |stream|);
              var r := HeaderRead(chunks, n, 0, HEADER_READS - 1);
              if Arrived(chunks, n, 1) == 0 then phase == Empty && position == 0
              else if r == HEADER_READS - 1 then phase == Timeout && count == HEADER_READS
              else phase == Ready && count == r + 1
    {
      hide Placed;
      var read_status := 0;
      var max_reads := HEADER_READS;
      ghost var before, n := buf[..], Min(fEventSize, |stream|);
      PlacedNone(before, ptr);
      while read_status < HEADER
        invariant count + max_reads == HEADER_READS && max_reads >= 1
        invariant position == Arrived(chunks, n, count) && (count > 0 ==> position > 0)
        invariant buf[..] == Placed(before, ptr, stream[..position])
        invariant count > 0 ==> Arrived(chunks, n, 1) > 0
        invariant if read_status < HEADER
                  then HeaderRead(chunks, n, 0, HEADER_READS - 1) == HeaderRead(chunks, n, count, HEADER_READS - 1)
                  else count > 0 && HeaderRead(chunks, n, 0, HEADER_READS - 1) == count - 1
        decreases max_reads
      {
        ghost var from := position;
        ArrivedNext(chunks, n, count);
        read_status := Read(buf, ptr + position, fEventSize - position);
        PlacedMore(before, ptr, stream, from, position);
        if position == 0 {
          return Empty;
        }
        max_reads := max_reads - 1;
        if max_reads == 0 {
          return Timeout;
        }
      }
      phase := Ready;
    }

    /** Reads what is missing, never beyond BankSize. */
    method ReadBody(buf: array<octet>, ptr: nat, BankSize: nat, ghost before: seq<octet>) returns (done: bool)
      requires position <= BankSize && position <= |stream|
      requires ptr + Min(BankSize, |stream|) <= buf.Length == |before|
      requires buf[..] == Placed(before, ptr, stream[..position])
      modifies this`position, this`count, buf
      ensures old(position) <= position <= BankSize && position <= |stream| && (done ==> position == BankSize)
      ensures done ==
              (Min(|stream|, old(position) + Between(chunks, old(count), old(count) + BODY_READS - 1)) >= BankSize)
      ensures position ==
              Min(Min(BankSize, |stream|), old(position) + Between(chunks, old(count), old(count) + BODY_READS))
      ensures buf[..] == Placed(before, ptr, stream[..position])
    {
      hide Placed;
      var max_reads := BODY_READS;
      ghost var n, first, start := Min(BankSize, |stream|), count, position;
      while position < BankSize
        invariant count + max_reads == first + BODY_READS && max_reads >= 1
        invariant start <= position <= n && Sum(chunks, count) >= Sum(chunks, first)
        invariant position == Min(n, start + Sum(chunks, count) - Sum(chunks, first))
        invariant buf[..] == Placed(before, ptr, stream[..position])
        decreases max_reads
      {
        ghost var from := position;
        var read_status := Read(buf, ptr + position, BankSize - position);
        PlacedMore(before, ptr, stream, from, position);
        max_reads := max_reads - 1;
        if max_reads == 0 {
          return false;
        }
      }
      SumGrows(chunks, count, first + BODY_READS - 1);
      SumGrows(chunks, count, first + BODY_READS);
      done := true;
    }

    /** The two loops, with the checks around them. The memory behind `ptr` must hold what they write;
        `StaysInsideIff` says that no less would do. */
    method ReadMessage(buf: array<octet>, ptr: nat, fEventSize: nat) returns (outcome: Delivery)
      requires position == 0 && count == 0
      requires ptr <= buf.Length && HasRoom(stream, fEventSize, buf.Length - ptr)
      modifies this`position, this`count, buf
      ensures outcome == Receive(stream, chunks, fEventSize) && position == Taken(stream, chunks, fEventSize)
      ensures position <= |stream| && ptr + position <= buf.Length
      ensures buf[..] == Placed(old(buf[..]), ptr, stream[..position])
      ensures outcome.Received? ==> position == outcome.size
    {
      hide HeaderRead, Between, Placed, DeclaredSize, Sum;
      ghost var before := buf[..];
      var phase := ReadHeader(buf, ptr, fEventSize);
      if phase == Empty {
        return Nothing;
      } else if phase == Timeout {
        return HeaderTimeout;
      }
      DeclaredInBuffer(before, ptr, stream, position);
      var declared := DeclaredSize(buf[ptr..ptr + HEADER]);
      if declared == None {
        return Malformed;
      }
      var BankSize := declared.value;
      if BankSize < position {
        return SizeMismatch;
      }
      var done := ReadBody(buf, ptr, BankSize, before);
      outcome := if done then Received(BankSize) else BodyTimeout;
    }
  }

  /** The body loop goes beyond what the header loop can reach. */
  predicate DeclaresMore(stream: seq<octet>, eventSize: nat)
  {
    && Min(eventSize, |stream|) >= HEADER
    && DeclaredSize(stream).Some? && DeclaredSize(stream).value > eventSize
  }

  /** What the message brings up to the event size has room, and so has what it brings up to the size it
      declares, if that is more. */
  predicate HasRoom(stream: seq<octet>, eventSize: nat, room: nat)
  {
    && Min(eventSize, |stream|) <= room
    && (DeclaresMore(stream, eventSize) ==> Min(DeclaredSize(stream).value, |stream|) <= room)
  }

  lemma DeclaredInBuffer(before: seq<octet>, ptr: nat, stream: seq<octet>, position: nat)
    requires HEADER <= position <= |stream| && ptr + position <= |before|
    ensures DeclaredSize(Placed(before, ptr, stream[..position])[ptr..ptr + HEADER]) == DeclaredSize(stream)
  {
    var header := Placed(before, ptr, stream[..position])[ptr..ptr + HEADER];
    assert header == stream[..HEADER];
    assert header[..4] == stream[..4];
    assert header[8..12] == stream[8..12];
  }

  // ---------- how much memory it takes ----------

  /** All at once, and the rest at once. */
  lemma TakenAtOnce(stream: seq<octet>, eventSize: nat)
    ensures Taken(stream, [|stream|, |stream|], eventSize) ==
            Min(if DeclaresMore(stream, eventSize) then DeclaredSize(stream).value else eventSize, |stream|)
  {
    hide DeclaredSize;
    var chunks, n := [|stream|, |stream|], Min(eventSize, |stream|);
    assert Sum(chunks, 1) == |stream| && Sum(chunks, 2) == 2 * |stream|;
    SumGrows(chunks, 2, 1 + BODY_READS);
    if n < HEADER {
      SumGrows(chunks, 1, HeaderRead(chunks, n, 0, HEADER_READS - 1) + 1);
    } else {
      assert HeaderRead(chunks, n, 0, HEADER_READS - 1) == 0;
    }
  }

  lemma TakenAtMost(stream: seq<octet>, chunks: seq<nat>, eventSize: nat)
    ensures Taken(stream, chunks, eventSize) <= Min(eventSize, |stream|) ||
            (DeclaresMore(stream, eventSize) &&
             Taken(stream, chunks, eventSize) <= Min(DeclaredSize(stream).value, |stream|))
  {
    hide DeclaredSize;
  }

  /** Whatever the pieces, the bytes taken stay inside the memory behind the pointer exactly when there is
      room for the two amounts above. */
  lemma StaysInsideIff(stream: seq<octet>, eventSize: nat, room: nat)
    ensures (forall chunks :: Taken(stream, chunks, eventSize) <= room) <==> HasRoom(stream, eventSize, room)
  {
    hide DeclaredSize, Taken;
    TakenAtOnce(stream, eventSize);
    forall chunks ensures HasRoom(stream, eventSize, room) ==> Taken(stream, chunks, eventSize) <= room {
      TakenAtMost(stream, chunks, eventSize);
    }
  }

  /** The event buffer has the event size, and the message goes behind the `ahead` bytes of the event and
      bank headers: then what stays inside is exactly a message that fits behind them. */
  lemma EventBufferHoldsIff(stream: seq<octet>, eventSize: nat, ahead: nat)
    requires 0 < ahead <= eventSize
    ensures (forall chunks :: ahead + Taken(stream, chunks, eventSize) <= eventSize) <==>
            ahead + |stream| <= eventSize
  {
    hide DeclaredSize, Taken;
    StaysInsideIff(stream, eventSize, eventSize - ahead);
    assert (forall chunks :: Taken(stream, chunks, eventSize) <= eventSize - ahead) <==>
           (forall chunks :: ahead + Taken(stream, chunks, eventSize) <= eventSize);
  }

  // ---------- which messages arrive ----------

  lemma BringsHeaderIff(chunks: seq<nat>, n: nat, k: nat)
    ensures BringsHeader(chunks, n, k) <==> Chunk(chunks, k) >= HEADER && Sum(chunks, k) + HEADER <= n
  {
  }

  /** Read `k` is the first to bring a header. */
  ghost predicate FirstHeader(chunks: seq<nat>, n: nat, k: nat)
  {
    && Chunk(chunks, k) >= 88 && Sum(chunks, k) + 88 <= n
    && forall i | 0 <= i < k :: !(Chunk(chunks, i) >= 88 && Sum(chunks, i) + 88 <= n)
  }

  lemma HeaderReadIs(chunks: seq<nat>, n: nat, k: nat, end: nat)
    requires k < end
    ensures FirstHeader(chunks, n, k) <==> HeaderRead(chunks, n, 0, end) == k
  {
    var r := HeaderRead(chunks, n, 0, end);
    forall i | 0 <= i <= k
      ensures BringsHeader(chunks, n, i) <==> Chunk(chunks, i) >= HEADER && Sum(chunks, i) + HEADER <= n
    {
      BringsHeaderIff(chunks, n, i);
    }
    if r < end {
      BringsHeaderIff(chunks, n, r);
    }
  }

  /** Read `k` is the first to bring a header, and the reads behind it bring the rest in time. */
  ghost predicate ArrivesAt(chunks: seq<nat>, size: nat, eventSize: nat, k: nat)
  {
    && k < 99999 && FirstHeader(chunks, Min(eventSize, size), k)
    && Arrived(chunks, Min(eventSize, size), k + 1) + Between(chunks, k + 1, k + 10000) >= size
  }

  /** A single message arrives exactly when the first read is not empty, some read within the limit brings
      88 bytes at once, and the rest follows within the limit. Then all of it has arrived. */
  lemma ReceivedIff(stream: seq<octet>, chunks: seq<nat>, eventSize: nat)
    requires |stream| >= HEADER && DeclaredSize(stream) == Some(|stream|)
    ensures Receive(stream, chunks, eventSize) == Received(|stream|) <==>
            Chunk(chunks, 0) > 0 && exists k :: ArrivesAt(chunks, |stream|, eventSize, k)
    ensures Receive(stream, chunks, eventSize) in {Nothing, HeaderTimeout, BodyTimeout, Received(|stream|)}
  {
    hide FirstHeader, HeaderRead, Between;
    var n, end := Min(eventSize, |stream|), HEADER_READS - 1;
    var r := HeaderRead(chunks, n, 0, end);
    ArrivedNext(chunks, n, 0);
    if r < end {
      HeaderReadIs(chunks, n, r, end);
      if Arrived(chunks, n, r + 1) + Between(chunks, r + 1, r + BODY_READS) >= |stream| {
        assert ArrivesAt(chunks, |stream|, eventSize, r);
      }
    }
    forall k | ArrivesAt(chunks, |stream|, eventSize, k) ensures k == r {
      HeaderReadIs(chunks, n, k, end);
    }
    if k :| ArrivesAt(chunks, |stream|, eventSize, k) {
      HeaderNeedsRoom(chunks, n, k);
    }
  }

  /** A sender is taken for malformed exactly when a header arrives in time that begins with neither tag. */
  lemma MalformedIff(stream: seq<octet>, chunks: seq<nat>, eventSize: nat)
    ensures Receive(stream, chunks, eventSize) == Malformed <==>
            && Chunk(chunks, 0) > 0 && stream != [] && eventSize > 0
            && (exists k :: k < 99999 && FirstHeader(chunks, Min(eventSize, |stream|), k))
            && stream[..4] != "GEA1" && stream[..4] != "GEB1"
  {
    hide FirstHeader, HeaderRead, Between, TotalSize, U32;
    var n, end := Min(eventSize, |stream|), HEADER_READS - 1;
    var r := HeaderRead(chunks, n, 0, end);
    ArrivedNext(chunks, n, 0);
    if r < end {
      HeaderReadIs(chunks, n, r, end);
      HeaderNeedsRoom(chunks, n, r);
    }
    forall k | k < 99999 && FirstHeader(chunks, n, k) ensures k == r {
      HeaderReadIs(chunks, n, k, end);
    }
  }

  lemma HeaderNeedsRoom(chunks: seq<nat>, n: nat, k: nat)
    requires FirstHeader(chunks, n, k)
    ensures n >= HEADER
  {
  }

  /** A message the event buffer can hold needs only as many bytes as it has. */
  lemma ArrivesAtIff(chunks: seq<nat>, size: nat, eventSize: nat, k: nat)
    requires size <= eventSize
    ensures ArrivesAt(chunks, size, eventSize, k) <==>
            k < HEADER_READS - 1 && FirstHeader(chunks, size, k) && Sum(chunks, k + BODY_READS) >= size
  {
    hide FirstHeader;
    SumGrows(chunks, k + 1, k + BODY_READS);
  }

  /** However the bytes are split: when two connections bring the same bytes to the end, the same bytes stand
      in both buffers, whatever these held before. */
  lemma ChunkingIndependence(stream: seq<octet>, chunks: seq<nat>, chunks': seq<nat>, eventSize: nat,
                             before: seq<octet>, before': seq<octet>, ptr: nat)
    requires Receive(stream, chunks, eventSize).Received? && Receive(stream, chunks', eventSize).Received?
    requires ptr + Receive(stream, chunks, eventSize).size <= |before|
    requires ptr + Receive(stream, chunks', eventSize).size <= |before'|
    ensures var size := Receive(stream, chunks, eventSize).size;
            && size == Receive(stream, chunks', eventSize).size <= |stream|
            && Placed(before, ptr, stream[..size])[ptr..ptr + size] == stream[..size]
            && Placed(before', ptr, stream[..size])[ptr..ptr + size] == stream[..size]
  {
    hide HeaderRead, Between, Arrived;
  }

  /** The loop looks at the size of the last read, not at what has arrived in all: in pieces of less than 88
      bytes no message ever gets through. */
  lemma SmallPiecesNeverArrive(stream: seq<octet>, chunks: seq<nat>, eventSize: nat)
    requires forall k | 0 <= k < |chunks| :: chunks[k] < HEADER
    ensures Receive(stream, chunks, eventSize) in {Nothing, HeaderTimeout}
  {
    var n := Min(eventSize, |stream|);
    BringsHeaderIff(chunks, n, HeaderRead(chunks, n, 0, HEADER_READS - 1));
  }

  lemma AllArrivedYetTimedOut(stream: seq<octet>, eventSize: nat)
    requires |stream| == 110 && eventSize >= 110
    ensures Arrived([50, 60], 110, 2) == 110 && Receive(stream, [50, 60], eventSize) == HeaderTimeout
  {
    SmallPiecesNeverArrive(stream, [50, 60], eventSize);
    assert Sum([50, 60], 1) == 50 && Sum([50, 60], 2) == 110;
  }

  /** Nor does a message shorter than a bank header, such as an array without banks. */
  lemma ShortMessagesNeverArrive(stream: seq<octet>, chunks: seq<nat>, eventSize: nat)
    requires |stream| < HEADER
    ensures Receive(stream, chunks, eventSize) in {Nothing, HeaderTimeout}
  {
    var n := Min(eventSize, |stream|);
    BringsHeaderIff(chunks, n, HeaderRead(chunks, n, 0, HEADER_READS - 1));
  }

  /** The size read from an array is its size exactly when it is below 2^31. */
  lemma DeclaredExactIff(a: seq<octet>, banks: seq<seq<octet>>)
    requires IsArray(a, banks) && |a| >= HEADER
    ensures DeclaredSize(a) == Some(|a|) <==> |a| < TWO31
  {
    hide Concat, AllBanks;
  }

  lemma DeclaredBankExactIff(b: seq<octet>)
    requires IsBank(b) && b[..4] == "GEB1"
    ensures DeclaredSize(b) == Some(|b|) <==> |b| < TWO31
  {
    SizeArithmeticExact(b);
  }
}
