// The transceiver of the file server (lesson4/mt_server/main.cpp).
//
// What `send` and `recv` report is decided by the system. A schedule is the
// list of reports still to come; when it runs out the call has not returned yet,
// so every property below holds at every point of every run.

module Transceiver {
  import opened Basics

  const BUFFER_SIZE: nat := 4096
  const MAX_PATH: nat := 256

  function Zeros(n: nat): seq<byte> { seq(n, _ => 0) }

  datatype SendReport = Took(n: nat) | SendAgain | SendBroken

  type pos = n: nat | n > 0 witness 1

  // Got(n) offers up to n bytes; on an exhausted stream it reports the end.
  datatype RecvReport = Got(n: pos) | RecvAgain | RecvBroken

  datatype Received = Pending | Again | Failed | Count(n: nat)

  datatype Outcome = Done(ok: bool) | StillRunning

  datatype Request = Request(text: seq<byte>) | Threw | StillReading

  function TookSum(reports: seq<SendReport>): nat {
    if reports == [] then 0
    else
      TookSum(reports[..|reports| - 1])
      + match reports[|reports| - 1] case Took(n) => n case _ => 0
  }

  lemma TookSumSnoc(used: seq<SendReport>, report: SendReport)
    requires used != [] && used[|used| - 1] == report
    ensures TookSum(used) == TookSum(used[..|used| - 1]) + if report.Took? then report.n else 0
  {}

  // Why a send stopped short: the last report used was a real error, or no
  // report is left.
  predicate Explained(r: Outcome, before: seq<SendReport>, used: seq<SendReport>, after: seq<SendReport>) {
    && before == used + after
    && (r == Done(false) ==> used != [] && used[|used| - 1] == SendBroken)
    && (r == StillRunning ==> after == [])
  }

  lemma ExplainedNext(r: Outcome, before: seq<SendReport>, used: seq<SendReport>, now: seq<SendReport>,
                      more: seq<SendReport>, after: seq<SendReport>)
    requires before == used + now && Explained(r, now, more, after)
    ensures Explained(r, before, used + more, after)
  {
    assert used + (more + after) == (used + more) + after;
  }

  // ---------- the file, as read by an input stream ----------

  // A file, and the position from which on it cannot be read, if there is one.
  datatype File = File(content: seq<byte>, brokenAt: Option<nat>)

  predicate Stored(f: File) { f.brokenAt.Some? ==> f.brokenAt.value <= |f.content| }

  function Readable(f: File): seq<byte>
    requires Stored(f)
  {
    if f.brokenAt.Some? then f.content[..f.brokenAt.value] else f.content
  }

  class FileStream {
    const file: File
    var at: nat
    var eof: bool
    var bad: bool

    ghost predicate Valid()
      reads this
    {
      Stored(file) && at <= |file.content| && (bad ==> file.brokenAt.Some? && at >= |Readable(file)|)
    }

    constructor (file: File)
      requires Stored(file)
      ensures Valid() && at == 0 && !eof && !bad && this.file == file
    {
      this.file, at, eof, bad := file, 0, false, false;
    }

    method SeekToEnd() returns (size: nat)
      requires Valid()
      modifies this
      ensures Valid() && at == |file.content| == size && eof == old(eof) && bad == old(bad)
    {
      at := |file.content|;
      size := at;
    }

    method SeekToStart()
      requires Valid() && !bad
      modifies this
      ensures Valid() && at == 0 && !eof && !bad
    {
      at, eof := 0, false;
    }

    // Fills the buffer as far as the file can be read. Falling short sets end-of-file
    // at the end of the file; where the file is broken it makes the stream bad, and
    // end-of-file is never seen.
    method Read(buffer: array<byte>)
      requires Valid() && !eof
      modifies this, buffer
      ensures Valid() && (old(at) <= |Readable(file)| ==> at == Min(old(at) + buffer.Length, |Readable(file)|))
      ensures old(at) >= |Readable(file)| ==> at == old(at) && buffer[..] == old(buffer[..])
      ensures var short := old(at) + buffer.Length > |Readable(file)|;
              && eof == (short && file.brokenAt == None)
              && bad == (old(bad) || (short && file.brokenAt.Some?))
      ensures old(at) <= |Readable(file)| ==>
                buffer[..] == Readable(file)[old(at)..at] + old(buffer[..])[at - old(at)..]
    {
      var readable := Readable(file);
      if bad || at > |readable| {
        bad := true;
        return;
      }
      var count := Min(buffer.Length, |readable| - at);
      Copy(buffer, 0, readable[at..at + count]);
      at := at + count;
      eof := count < buffer.Length && file.brokenAt == None;
      bad := count < buffer.Length && file.brokenAt.Some?;
    }
  }

  // What a client sees for a file: whole blocks, the last one padded with zeros;
  // below one block the file is not read at all.
  function FileOnWire(content: seq<byte>): seq<byte> {
    if |content| > BUFFER_SIZE
    then content + Zeros(BUFFER_SIZE - |content| % BUFFER_SIZE)
    else Zeros(BUFFER_SIZE)
  }

  // What the large-file loop sends first: the file as far as it can be read, then zeros.
  function Feed(readable: seq<byte>, n: nat): (r: seq<byte>)
    ensures |r| == n
  {
    (readable + Zeros(n))[..n]
  }

  // Up to its length, that is the file on the wire.
  lemma FeedIsFile(content: seq<byte>, n: nat)
    requires |content| > BUFFER_SIZE && n <= |FileOnWire(content)|
    ensures Feed(content, n) == FileOnWire(content)[..n]
  {}

  // The padded file ends with the block that begins inside it or at its end.
  lemma FileEnds(content: seq<byte>, from: nat)
    requires |content| > BUFFER_SIZE && from % BUFFER_SIZE == 0 && from <= |content|
    ensures from + BUFFER_SIZE <= |FileOnWire(content)| && (from + BUFFER_SIZE) % BUFFER_SIZE == 0
    ensures from + BUFFER_SIZE > |content| ==> from + BUFFER_SIZE == |FileOnWire(content)|
    ensures from < |FileOnWire(content)|
  {
    var n, m := |content| / BUFFER_SIZE, |content| % BUFFER_SIZE;
    assert |content| == n * BUFFER_SIZE + m && |FileOnWire(content)| == (n + 1) * BUFFER_SIZE;
    assert from == from / BUFFER_SIZE * BUFFER_SIZE;
  }

  // The block that is next behind the first `from` bytes.
  function BlockAt(readable: seq<byte>, from: nat): (r: seq<byte>)
    ensures |r| == BUFFER_SIZE
  {
    Feed(readable, from + BUFFER_SIZE)[from..]
  }

  lemma ExtendFeed(sent: seq<byte>, readable: seq<byte>, at: nat, n: nat)
    requires n <= BUFFER_SIZE
    ensures sent + Feed(readable, at) + BlockAt(readable, at)[..n] == sent + Feed(readable, at + n)
  {}

  // In plain numbers: a file of more than 4096 bytes is sent followed by 1 to 4096
  // zeros, up to a multiple of 4096; any other is sent as 4096 zeros.
  lemma FileOnWireBytes(content: seq<byte>)
    ensures var w := FileOnWire(content);
            && (|content| > 4096 ==>
                  |w| == 4096 * (|content| / 4096 + 1) && content <= w
                  && forall i :: |content| <= i < |w| ==> w[i] == 0)
            && (|content| <= 4096 ==> |w| == 4096 && forall i :: 0 <= i < 4096 ==> w[i] == 0)
  {}

  // The client can recover the file as the start of what it receives exactly
  // when the file is longer than one block, or holds only zeros.
  lemma FileArrivesIff(content: seq<byte>)
    ensures content <= FileOnWire(content)
            <==> |content| > BUFFER_SIZE || content == Zeros(|content|)
  {}

  // It receives the file and nothing else in one single case.
  lemma FileArrivesExactlyIff(content: seq<byte>)
    ensures FileOnWire(content) == content <==> content == Zeros(BUFFER_SIZE)
  {}

  // ---------- requests ----------

  predicate IsNewline(b: byte) { b == 10 || b == 13 }

  function UpToNewline(s: seq<byte>): (r: seq<byte>)
    ensures r <= s
    ensures forall i :: 0 <= i < |r| ==> !IsNewline(r[i])
    ensures |r| < |s| ==> IsNewline(s[|r|])
  {
    if s == [] || IsNewline(s[0]) then [] else [s[0]] + UpToNewline(s[1..])
  }

  // The line a text begins with: no byte of it is a line feed or a carriage return,
  // and it ends where the text ends or one of the two follows.
  ghost predicate LineOf(line: seq<byte>, text: seq<byte>) {
    && line <= text && (forall i :: 0 <= i < |line| ==> line[i] != 10 && line[i] != 13)
    && (|line| < |text| ==> text[|line|] == 10 || text[|line|] == 13)
  }

  lemma NoLonger(a: seq<byte>, b: seq<byte>, text: seq<byte>)
    requires LineOf(a, text) && LineOf(b, text)
    ensures |a| <= |b|
  {
    var c := a[..Min(|a|, |b| + 1)];
    assert c <= text && forall i :: 0 <= i < |c| ==> c[i] == a[i] == text[i];
  }

  lemma UpToNewlineIff(line: seq<byte>, text: seq<byte>)
    ensures UpToNewline(text) == line <==> LineOf(line, text)
  {
    var r := UpToNewline(text);
    assert LineOf(r, text);
    if LineOf(line, text) {
      NoLonger(r, line, text);
      NoLonger(line, r, text);
      assert r == text[..|r|] && line == text[..|line|];
    }
  }

  // The first line of the stream, capped.
  function Framed(stream: seq<byte>): seq<byte> {
    UpToNewline(stream[..Min(MAX_PATH, |stream|)])
  }

  function FirstFragment(stream: seq<byte>, n: nat): seq<byte> {
    stream[..Min(n, Min(MAX_PATH, |stream|))]
  }

  lemma Rejoin(a: seq<byte>, b: seq<byte>)
    requires a != []
    ensures [a[0]] + (a[1..] + b) == a + b
  {}

  lemma {:induction false} UpToNewlineConcat(a: seq<byte>, b: seq<byte>)
    ensures UpToNewline(a + b) == if |UpToNewline(a)| < |a| then UpToNewline(a) else a + UpToNewline(b)
  {
    if a == [] {
      assert a + b == b;
    } else {
      assert (a + b)[0] == a[0] && (a + b)[1..] == a[1..] + b;
      if !IsNewline(a[0]) {
        UpToNewlineConcat(a[1..], b);
        Rejoin(a, UpToNewline(b));
      }
    }
  }

  lemma {:induction false} NoNewline(s: seq<byte>)
    requires forall i :: 0 <= i < |s| ==> !IsNewline(s[i])
    ensures UpToNewline(s) == s
  {}

  // Stopping after the first fragment gives the framed request exactly when that
  // fragment holds a newline, fills the buffer, or is followed by a newline or
  // by the end of the stream.
  lemma FirstFragmentFramesIff(stream: seq<byte>, n: nat)
    ensures var f := FirstFragment(stream, n);
            UpToNewline(f) == Framed(stream)
            <==> |UpToNewline(f)| < |f| || |f| == MAX_PATH || |f| == |stream| || IsNewline(stream[|f|])
  {}

  // ---------- the connection ----------

  class Transceiver {
    var wire: seq<byte>                 // what the system has accepted for sending
    var sendReports: seq<SendReport>
    var inbox: seq<byte>                // the rest of the client's byte stream
    var recvReports: seq<RecvReport>

    constructor (inbox: seq<byte>, sendReports: seq<SendReport>, recvReports: seq<RecvReport>)
      ensures wire == [] && this.inbox == inbox
      ensures this.sendReports == sendReports && this.recvReports == recvReports
    {
      wire, this.inbox, this.sendReports, this.recvReports := [], inbox, sendReports, recvReports;
    }

    // On the wire after any number of short sends and retries is the start of the
    // buffer, as many bytes as were taken: all of it iff the result is true.
    method SendBuffer(buffer: seq<byte>) returns (r: Outcome, ghost transmitted: nat, ghost used: seq<SendReport>)
      modifies `wire, `sendReports
      ensures transmitted <= |buffer| && wire == old(wire) + buffer[..transmitted]
      ensures r == Done(true) <==> transmitted == |buffer|
      ensures Explained(r, old(sendReports), used, sendReports)
      ensures transmitted == Min(|buffer|, TookSum(used)) && (r == Done(false) <==> SendBroken in used)
    {
      var count := 0;
      used := [];
      while count != |buffer|
        invariant 0 <= count <= |buffer| && old(sendReports) == used + sendReports
        invariant wire == old(wire) + buffer[..count]
        invariant count == Min(|buffer|, TookSum(used)) && SendBroken !in used
        decreases |sendReports|
      {
        if sendReports == [] {
          return StillRunning, count, used;
        }
        var report := sendReports[0];
        assert used + sendReports == (used + [report]) + sendReports[1..];
        sendReports := sendReports[1..];
        used := used + [report];
        TookSumSnoc(used, report);
        match report {
          case SendAgain =>
          case SendBroken =>
            return Done(false), count, used;
          case Took(n) =>
            var result := Min(n, |buffer| - count);
            wire := wire + buffer[count..count + result];
            count := count + result;
        }
      }
      return Done(true), count, used;
    }

    // `file` is None when it cannot be opened. On the wire, at every point, is the
    // start of FileOnWire: all of it iff the result is true. A large file that
    // cannot be read to its end is followed by zeros until a send fails.
    method SendFile(file: Option<File>)
      returns (r: Outcome, ghost transmitted: nat, ghost used: seq<SendReport>)
      requires file.Some? ==> Stored(file.value)
      modifies `wire, `sendReports
      ensures file == None ==> r == Done(false) && wire == old(wire) && transmitted == 0
      ensures file.Some? && (file.value.brokenAt == None || |file.value.content| <= BUFFER_SIZE) ==>
        var total := FileOnWire(file.value.content);
        && transmitted <= |total| && wire == old(wire) + total[..transmitted]
        && (r == Done(true) <==> transmitted == |total|)
      ensures file.Some? && file.value.brokenAt.Some? && |file.value.content| > BUFFER_SIZE ==>
        wire == old(wire) + Feed(Readable(file.value), transmitted) && r != Done(true)
      ensures file.Some? ==> Explained(r, old(sendReports), used, sendReports)
    {
      var buffer := new byte[BUFFER_SIZE](_ => 0);
      if file == None { return Done(false), 0, []; }
      var stream := new FileStream(file.value);
      var size := stream.SeekToEnd();
      assert buffer[..] == Zeros(BUFFER_SIZE);
      if size > BUFFER_SIZE {
        stream.SeekToStart();
        r, transmitted, used := SendBlocks(stream, buffer);
        if file.value.brokenAt == None { FeedIsFile(file.value.content, transmitted); }
      } else {
        r, transmitted, used := SendFromEnd(stream, buffer);
      }
    }

    // The large-file loop: block after block, from the start of the file, until the
    // end of the file has been seen.
    method SendBlocks(stream: FileStream, buffer: array<byte>)
      returns (r: Outcome, ghost transmitted: nat, ghost used: seq<SendReport>)
      requires stream.Valid() && stream.at == 0 && !stream.eof && !stream.bad
      requires |stream.file.content| > BUFFER_SIZE
      requires buffer.Length == BUFFER_SIZE && buffer[..] == Zeros(BUFFER_SIZE)
      modifies `wire, `sendReports, stream, buffer
      ensures wire == old(wire) + Feed(Readable(stream.file), transmitted)
      ensures stream.file.brokenAt == None ==>
                transmitted <= |FileOnWire(stream.file.content)|
                && (r == Done(true) <==> transmitted == |FileOnWire(stream.file.content)|)
      ensures stream.file.brokenAt.Some? ==> r != Done(true)
      ensures Explained(r, old(sendReports), used, sendReports)
    {
      ghost var readable := Readable(stream.file);
      ghost var sent, reports, total := wire, sendReports, FileOnWire(stream.file.content);
      transmitted, used := 0, [];
      while !stream.eof
        invariant stream.Valid() && buffer[..] == Zeros(BUFFER_SIZE)
        invariant stream.at == Min(transmitted, |readable|) && transmitted % BUFFER_SIZE == 0
        invariant stream.eof == (stream.file.brokenAt == None && transmitted > |readable|)
        invariant stream.file.brokenAt == None ==>
                    transmitted <= |total| && (stream.eof ==> transmitted == |total|)
        invariant wire == sent + Feed(readable, transmitted)
        invariant reports == used + sendReports
        decreases |sendReports|
      {
        ghost var n, now, more := 0, sendReports, [];
        r, n, more := SendBlock(stream, buffer, transmitted);
        ExplainedNext(r, reports, used, now, more, sendReports);
        used := used + more;
        ExtendFeed(sent, readable, transmitted, n);
        if stream.file.brokenAt == None { FileEnds(stream.file.content, transmitted); }
        transmitted := transmitted + n;
        if r != Done(true) { return r, transmitted, used; }
      }
      return Done(true), transmitted, used;
    }

    // The body of that loop, for the block at `from`.
    method SendBlock(stream: FileStream, buffer: array<byte>, ghost from: nat)
      returns (r: Outcome, ghost n: nat, ghost used: seq<SendReport>)
      requires stream.Valid() && !stream.eof && stream.at == Min(from, |Readable(stream.file)|)
      requires buffer.Length == BUFFER_SIZE && buffer[..] == Zeros(BUFFER_SIZE)
      requires stream.file.brokenAt == None ==> from <= |Readable(stream.file)|
      modifies `wire, `sendReports, stream, buffer
      ensures stream.Valid() && stream.at == Min(from + BUFFER_SIZE, |Readable(stream.file)|)
      ensures stream.eof == (stream.file.brokenAt == None && from + BUFFER_SIZE > |Readable(stream.file)|)
      ensures n <= BUFFER_SIZE && wire == old(wire) + BlockAt(Readable(stream.file), from)[..n]
      ensures r == Done(true) <==> n == BUFFER_SIZE
      ensures r == Done(true) ==> buffer[..] == Zeros(BUFFER_SIZE) && |sendReports| < |old(sendReports)|
      ensures Explained(r, old(sendReports), used, sendReports)
    {
      ReadBlock(stream, buffer, from);
      r, n, used := SendBuffer(buffer[..]);
      if r == Done(true) { Clear(buffer); }
    }

    // The small-file loop: the position is still at the end of the file, so the
    // first read comes up empty.
    method SendFromEnd(stream: FileStream, buffer: array<byte>)
      returns (r: Outcome, ghost transmitted: nat, ghost used: seq<SendReport>)
      requires stream.Valid() && stream.at == |stream.file.content| && !stream.eof && !stream.bad
      requires buffer.Length == BUFFER_SIZE && buffer[..] == Zeros(BUFFER_SIZE)
      modifies `wire, `sendReports, stream, buffer
      ensures transmitted <= BUFFER_SIZE && wire == old(wire) + Zeros(BUFFER_SIZE)[..transmitted]
      ensures r == Done(true) <==> transmitted == BUFFER_SIZE
      ensures Explained(r, old(sendReports), used, sendReports)
    {
      ghost var sent, reports := wire, sendReports;
      transmitted, used := 0, [];
      while !stream.eof && !stream.bad
        invariant stream.Valid() && stream.at == |stream.file.content|
        invariant buffer[..] == Zeros(BUFFER_SIZE)
        invariant reports == used + sendReports
        invariant if stream.eof || stream.bad then transmitted == BUFFER_SIZE && wire == sent + Zeros(BUFFER_SIZE)
                  else transmitted == 0 && wire == sent
        decreases !stream.eof && !stream.bad
      {
        stream.Read(buffer);
        ghost var n, now, more := 0, sendReports, [];
        r, n, more := SendBuffer(buffer[..]);
        ExplainedNext(r, reports, used, now, more, sendReports);
        used := used + more;
        transmitted := n;
        if r != Done(true) { return r, transmitted, used; }
        WholeSlice(Zeros(BUFFER_SIZE), n);
      }
      WholeSlice(Zeros(BUFFER_SIZE), transmitted);
      return Done(true), transmitted, used;
    }

    // The system call: copies what it reports into the buffer.
    method Recv(buffer: array<byte>, at: nat, limit: nat) returns (r: Received)
      requires at + limit <= buffer.Length
      modifies `inbox, `recvReports, buffer
      ensures r.Pending? <==> old(recvReports) == []
      ensures r.Pending? ==> recvReports == []
      ensures old(recvReports) != [] ==> recvReports == old(recvReports)[1..]
      ensures r.Again? <==> old(recvReports) != [] && old(recvReports)[0].RecvAgain?
      ensures r.Failed? <==> old(recvReports) != [] && old(recvReports)[0].RecvBroken?
      ensures r.Count? ==> r.n == Min(old(recvReports)[0].n, Min(limit, |old(inbox)|))
      ensures var n := if r.Count? then r.n else 0;
              && inbox == old(inbox)[n..]
              && buffer[..at + n] == old(buffer[..at]) + old(inbox)[..n]
    {
      if recvReports == [] { return Pending; }
      var report := recvReports[0];
      recvReports := recvReports[1..];
      match report {
        case RecvAgain => r := Again;
        case RecvBroken => r := Failed;
        case Got(n) =>
          r := Count(Min(n, Min(limit, |inbox|)));
          Copy(buffer, at, inbox[..r.n]);
          inbox := inbox[r.n..];
      }
    }

    // Intended: the first line of the stream, however recv cuts it up.
    // Literal: what the first non-empty fragment holds of it.
    method GetRequest(reading: Reading) returns (r: Request, ghost used: seq<RecvReport>)
      modifies `inbox, `recvReports
      ensures reading == Intended && r.Request? ==> r.text == Framed(old(inbox))
      ensures reading == Intended && r.Request? ==>
                |r.text| <= 256 && LineOf(r.text, old(inbox)[..Min(256, |old(inbox)|)])
      ensures reading == Literal ==> r == LiteralRequest(old(inbox), old(recvReports))
      ensures reading == Literal && r.Request? ==>
                |r.text| <= 256
                && exists n :: 0 < n && Got(n) in old(recvReports)
                               && LineOf(r.text, old(inbox)[..Min(n, Min(256, |old(inbox)|))])
      ensures r.StillReading? ==> recvReports == []
      ensures old(recvReports) == used + recvReports && (r.Threw? <==> RecvBroken in used)
    {
      ghost var stream, reports := inbox, recvReports;
      r, used := ReadRequest(reading);
      if r.Request? {
        UpToNewlineIff(r.text, stream[..Min(256, |stream|)]);
        if reading == Literal { LiteralIsLine(stream, reports, r); }
      }
    }

    // The loop over the fragments.
    method ReadRequest(reading: Reading) returns (r: Request, ghost used: seq<RecvReport>)
      modifies `inbox, `recvReports
      ensures reading == Intended && r.Request? ==> r.text == Framed(old(inbox))
      ensures reading == Literal ==> r == LiteralRequest(old(inbox), old(recvReports))
      ensures r.StillReading? ==> recvReports == []
      ensures old(recvReports) == used + recvReports && (r.Threw? <==> RecvBroken in used)
    {
      var buffer := new byte[MAX_PATH + 1];
      var received, size := 0, buffer.Length - 1;
      ghost var stream := inbox;
      used := [];
      while true
        invariant 0 <= received < size && received <= |stream| && inbox == stream[received..]
        invariant buffer[..received] == stream[..received]
        invariant forall i :: 0 <= i < received ==> !IsNewline(stream[i])
        invariant old(recvReports) == used + recvReports && RecvBroken !in used
        invariant reading == Literal ==>
                    received == 0 && AfterRetries(recvReports) == AfterRetries(old(recvReports))
        decreases |recvReports|
      {
        ghost var reports := recvReports;
        var reported := Recv(buffer, received, size - received);
        if reports != [] {
          assert used + reports == (used + [reports[0]]) + recvReports;
          used := used + [reports[0]];
        }
        match reported {
          case Pending => return StillReading, used;
          case Again => continue;
          case Failed => return Threw, used;
          case Count(result) =>
            var stop;
            received, stop := TakeReported(reading, buffer, received, result, stream, reports[0].n);
            if stop { break; }
        }
      }
      buffer[received] := 0;
      r := Request(buffer[..received]);
      assert r.text == stream[..received];
    }
  }

  // What a read leaves in a zeroed buffer is the block that is next.
  lemma BlockOfFile(readable: seq<byte>, from: nat, block: seq<byte>)
    requires var at, next := Min(from, |readable|), Min(from + BUFFER_SIZE, |readable|);
             block == readable[at..next] + Zeros(BUFFER_SIZE)[next - at..]
    ensures block == BlockAt(readable, from)
  {}

  method ReadBlock(stream: FileStream, buffer: array<byte>, ghost from: nat)
    requires stream.Valid() && !stream.eof && stream.at == Min(from, |Readable(stream.file)|)
    requires buffer.Length == BUFFER_SIZE && buffer[..] == Zeros(BUFFER_SIZE)
    requires stream.file.brokenAt == None ==> from <= |Readable(stream.file)|
    modifies stream, buffer
    ensures stream.Valid() && stream.at == Min(from + BUFFER_SIZE, |Readable(stream.file)|)
    ensures stream.eof == (stream.file.brokenAt == None && from + BUFFER_SIZE > |Readable(stream.file)|)
    ensures buffer[..] == BlockAt(Readable(stream.file), from)
  {
    stream.Read(buffer);
    BlockOfFile(Readable(stream.file), from, buffer[..]);
  }

  lemma WholeSlice(s: seq<byte>, n: nat)
    requires n == |s|
    ensures s[..n] == s
  {}

  // buffer.clear() followed by buffer.resize().
  method Clear(buffer: array<byte>)
    modifies buffer
    ensures buffer[..] == Zeros(buffer.Length)
  {
    for i := 0 to buffer.Length
      invariant forall j :: 0 <= j < i ==> buffer[j] == 0
    {
      buffer[i] := 0;
    }
  }

  lemma SamePrefix(a: seq<byte>, s: seq<byte>, n: nat, k: nat)
    requires k <= n <= |a| && n <= |s| && a[..n] == s[..n]
    ensures a[..k] == s[..k]
  {}

  lemma LiteralFound(stream: seq<byte>, n: nat)
    ensures var result := Min(n, Min(MAX_PATH, |stream|));
            UpToNewline(FirstFragment(stream, n)) == stream[..|UpToNewline(stream[0..0 + result])|]
  {}

  // What recv reported: the end of the stream, or a fragment.
  method TakeReported(reading: Reading, buffer: array<byte>, received: nat, result: nat,
                      ghost stream: seq<byte>, ghost n: nat)
    returns (next: nat, stop: bool)
    requires buffer.Length == MAX_PATH + 1 && received + result <= Min(MAX_PATH, |stream|)
    requires buffer[..received + result] == stream[..received] + stream[received..][..result]
    requires forall i :: 0 <= i < received ==> !IsNewline(stream[i])
    requires reading == Literal ==> received == 0 && result == Min(n, Min(MAX_PATH, |stream|))
    requires result == 0 ==> received == |stream|
    modifies buffer
    ensures next <= received + result && buffer[..next] == stream[..next]
    ensures stop ==>
      stream[..next] == (if reading == Literal then UpToNewline(FirstFragment(stream, n)) else Framed(stream))
    ensures !stop ==> reading == Intended && next == received + result < MAX_PATH
                      && forall i :: 0 <= i < next ==> !IsNewline(stream[i])
  {
    if result == 0 {
      FramedAll(stream, received);
      return received, true;
    }
    next, stop := TakeIn(reading, buffer, received, result, stream, n);
  }

  // A fragment that has arrived: either the request is complete, or there is
  // room for more and no newline yet.
  method TakeIn(reading: Reading, buffer: array<byte>, received: nat, result: nat,
                ghost stream: seq<byte>, ghost n: nat)
    returns (next: nat, stop: bool)
    requires buffer.Length == MAX_PATH + 1 && received + result <= Min(MAX_PATH, |stream|)
    requires buffer[..received + result] == stream[..received] + stream[received..][..result]
    requires forall i :: 0 <= i < received ==> !IsNewline(stream[i])
    requires reading == Literal ==> received == 0 && result == Min(n, Min(MAX_PATH, |stream|))
    modifies buffer
    ensures next <= received + result && buffer[..next] == stream[..next]
    ensures stop ==>
      stream[..next] == (if reading == Literal then UpToNewline(FirstFragment(stream, n)) else Framed(stream))
    ensures !stop ==> reading == Intended && next == received + result < MAX_PATH
                      && forall i :: 0 <= i < next ==> !IsNewline(stream[i])
  {
    assert stream[..received] + stream[received..][..result] == stream[..received + result];
    FramedFound(stream, received, result);
    LiteralFound(stream, n);
    next, stop := Scan(reading, buffer, received, result, stream);
    if !stop && next == MAX_PATH {
      FramedAll(stream, next);
      stop := true;
    }
  }

  // The search for a newline in the fragment just received. The literal test
  // compares with the end of the buffer, which the search never reaches.
  method Scan(reading: Reading, buffer: array<byte>, received: nat, result: nat, ghost stream: seq<byte>)
    returns (next: nat, stop: bool)
    requires buffer.Length == MAX_PATH + 1 && received + result <= Min(MAX_PATH, |stream|)
    requires buffer[..received + result] == stream[..received + result]
    modifies buffer
    ensures var found := |UpToNewline(stream[received..received + result])|;
            && next == received + found && buffer[..next] == stream[..next]
            && (stop <==> reading == Literal || found < result)
  {
    assert buffer[received..received + result] == buffer[..received + result][received..];
    assert stream[received..received + result] == stream[..received + result][received..];
    var found := |UpToNewline(buffer[received..received + result])|;
    next := received + found;
    SamePrefix(buffer[..], stream, received + result, next);
    stop := next != if reading == Literal then buffer.Length else received + result;
    if stop {
      buffer[next] := 0;
    }
  }

  // The reports from the first one that is not a retry.
  function AfterRetries(reports: seq<RecvReport>): seq<RecvReport> {
    if reports != [] && reports[0].RecvAgain? then AfterRetries(reports[1..]) else reports
  }

  function LiteralRequest(stream: seq<byte>, reports: seq<RecvReport>): Request {
    var rest := AfterRetries(reports);
    if rest == [] then StillReading
    else match rest[0]
      case Got(n) => Request(UpToNewline(FirstFragment(stream, n)))
      case _ => Threw
  }

  lemma {:induction false} AfterRetriesIn(reports: seq<RecvReport>)
    ensures AfterRetries(reports) != [] ==> AfterRetries(reports)[0] in reports
  {
    if reports != [] && reports[0].RecvAgain? {
      AfterRetriesIn(reports[1..]);
    }
  }

  lemma LiteralIsLine(stream: seq<byte>, reports: seq<RecvReport>, r: Request)
    requires r == LiteralRequest(stream, reports) && r.Request?
    ensures |r.text| <= 256
    ensures exists n :: 0 < n && Got(n) in reports && LineOf(r.text, stream[..Min(n, Min(256, |stream|))])
  {
    AfterRetriesIn(reports);
    var n := AfterRetries(reports)[0].n;
    UpToNewlineIff(r.text, FirstFragment(stream, n));
    assert Got(n) in reports;
  }

  lemma FramedAll(stream: seq<byte>, received: nat)
    requires received == Min(MAX_PATH, |stream|)
    requires forall i :: 0 <= i < received ==> !IsNewline(stream[i])
    ensures Framed(stream) == stream[..received]
  {}

  lemma BehindClean(before: seq<byte>, chunk: seq<byte>, after: seq<byte>)
    requires forall i :: 0 <= i < |before| ==> !IsNewline(before[i])
    ensures |UpToNewline(chunk)| < |chunk| ==> UpToNewline(before + (chunk + after)) == before + UpToNewline(chunk)
  {
    NoNewline(before);
    UpToNewlineConcat(before, chunk + after);
    UpToNewlineConcat(chunk, after);
  }

  lemma FramedFound(stream: seq<byte>, received: nat, result: nat)
    requires received + result <= Min(MAX_PATH, |stream|)
    requires forall i :: 0 <= i < received ==> !IsNewline(stream[i])
    ensures var found := |UpToNewline(stream[received..received + result])|;
            && (found < result ==> Framed(stream) == stream[..received + found])
            && (found == result ==> forall i :: 0 <= i < received + result ==> !IsNewline(stream[i]))
  {
    var before, chunk := stream[..received], stream[received..received + result];
    var all := stream[..Min(MAX_PATH, |stream|)];
    assert all == before + (chunk + all[received + result..]);
    BehindClean(before, chunk, all[received + result..]);
    TakeMore(stream, received, result, |UpToNewline(chunk)|);
    NoneInside(stream, received, result);
  }

  lemma TakeMore(s: seq<byte>, n: nat, m: nat, k: nat)
    requires n + m <= |s| && k <= m
    ensures s[..n] + s[n..n + m][..k] == s[..n + k]
  {}

  lemma NoneInside(stream: seq<byte>, received: nat, result: nat)
    requires received + result <= |stream|
    ensures |UpToNewline(stream[received..received + result])| == result ==>
              forall i :: received <= i < received + result ==> !IsNewline(stream[i])
  {}

  // What recv does to the buffer.
  method Copy(buffer: array<byte>, at: nat, bytes: seq<byte>)
    requires at + |bytes| <= buffer.Length
    modifies buffer
    ensures buffer[..] == old(buffer[..at]) + bytes + old(buffer[at + |bytes|..])
  {
    for i := 0 to |bytes|
      invariant buffer[..] == old(buffer[..at]) + bytes[..i] + old(buffer[at + i..])
    {
      buffer[at + i] := bytes[i];
    }
  }
}
