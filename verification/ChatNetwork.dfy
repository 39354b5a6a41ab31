// One participant of the serverless chat (lesson8/f2f_chat/chatnetwork.cpp):
// the datagram text, the contact lists, and the slots that update them.

module ChatCodec {
  import opened QtText

  // kind/message/nickname/id
  datatype Packet = Packet(kind: int, message: string, nickname: string, id: string)

  function Print(kind: int, message: string, nickname: string, id: string): string {
    (if kind == 1 then "1" else "2") + "/" + message + "/" + nickname + "/" + id
  }

  // The datagram is handed over as a C string, so it ends at its first NUL.
  function Parse(data: string): Packet {
    var text := data[..IndexOf(data, '\0')];
    Packet(ToInt8(ToInt(Section(text, '/', 0))),
           Section(text, '/', 1), Section(text, '/', 2), Section(text, '/', 3))
  }

  predicate Clean(s: string) { '/' !in s && '\0' !in s }

  lemma KindDigits()
    ensures ToInt8(ToInt("1")) == 1 && ToInt8(ToInt("2")) == 2
  {}

  // The kind survives whatever the other fields contain.
  lemma KindSurvives(kind: int, message: string, nickname: string, id: string)
    requires kind == 1 || kind == 2
    ensures Parse(Print(kind, message, nickname, id)).kind == kind
  {
    KindDigits();
    var k := if kind == 1 then "1" else "2";
    var data := Print(kind, message, nickname, id);
    var text := data[..IndexOf(data, '\0')];
    assert data[0] == k[0] && data[1] == '/';
    assert |text| >= 2;
    assert text == k + ['/'] + text[2..];
    SectionStep(k, '/', text[2..], 0);
  }

  lemma NulBehind(before: string, data: string)
    requires '\0' !in before && before <= data
    ensures IndexOf(data, '\0') >= |before|
  {
    assert forall i :: 0 <= i < |before| ==> data[i] == before[i] && before[i] in before;
  }

  lemma FirstField(digits: string, rest: string)
    requires '\0' !in digits && '/' !in digits
    ensures Parse(digits + ['/'] + rest).kind == ToInt8(ToInt(digits))
  {
    var data, front := digits + ['/'] + rest, digits + ['/'];
    NulBehind(front, data);
    var text := data[..IndexOf(data, '\0')];
    assert text == digits + ['/'] + text[|front|..];
    SectionStep(digits, '/', text[|front|..], 0);
  }

  lemma Narrowed(v: int)
    ensures IsLowByte(ToInt8(v), v)
  {}

  // k is v cut to 8 bits.
  predicate IsLowByte(k: int, v: int) { -128 <= k <= 127 && (k - v) % 256 == 0 && (v == 0 ==> k == 0) }

  lemma FirstNumber(digits: string, v: int, rest: string)
    requires '\0' !in digits && '/' !in digits && ToInt(digits) == v
    ensures IsLowByte(Parse(digits + ['/'] + rest).kind, v)
  {
    FirstField(digits, rest);
    Narrowed(v);
  }

  // Of a number in front of the first separator 8 bits are kept, as a signed number.
  lemma KindWraps(n: nat, rest: string)
    ensures IsLowByte(Parse(Decimal(n) + ['/'] + rest).kind, if n <= 2147483647 then n else 0)
  {
    UnsignedReads(n);
    FirstNumber(Decimal(n), if n <= 2147483647 then n else 0, rest);
  }

  lemma FourFields(a: string, b: string, c: string, d: string)
    requires '/' !in a && '/' !in b && '/' !in c && '/' !in d
    ensures var text := a + "/" + b + "/" + c + "/" + d;
            && Section(text, '/', 0) == a && Section(text, '/', 1) == b
            && Section(text, '/', 2) == c && Section(text, '/', 3) == d
  {
    var text2 := c + ['/'] + d;
    var text1 := b + ['/'] + text2;
    assert a + "/" + b + "/" + c + "/" + d == a + ['/'] + text1;
    SectionStep(a, '/', text1, 0);
    SectionStep(a, '/', text1, 1);
    SectionStep(a, '/', text1, 2);
    SectionStep(b, '/', text2, 0);
    SectionStep(b, '/', text2, 1);
    SectionStep(c, '/', d, 0);
    SectionStep(d, '/', "", 0);
  }

  // A datagram is read back field for field exactly when no field holds a
  // separator or a NUL.
  lemma RoundTripIff(kind: int, message: string, nickname: string, id: string)
    requires kind == 1 || kind == 2
    ensures Parse(Print(kind, message, nickname, id)) == Packet(kind, message, nickname, id)
            <==> Clean(message) && Clean(nickname) && Clean(id)
  {
    KindSurvives(kind, message, nickname, id);
    var data := Print(kind, message, nickname, id);
    var text := data[..IndexOf(data, '\0')];
    if Clean(message) && Clean(nickname) && Clean(id) {
      assert '\0' !in data;
      assert text == data;
      FourFields(if kind == 1 then "1" else "2", message, nickname, id);
    } else {
      SectionClean(text, '/', 1);
      SectionClean(text, '/', 2);
      SectionClean(text, '/', 3);
    }
  }
}

module Chat {
  import opened Basics
  import opened QtText
  import opened ChatCodec
  import opened Sequences

  type Address = int

  datatype ChatUser = ChatUser(address: Address, nickname: string, programId: string)

  // What a slot does besides updating the lists.
  datatype Output =
    | NewUser
    | NewMessage
    | UserDisconnect(row: string)
    | RanPastEnd
    | Sent(to: Address, data: string)

  datatype Peer = Peer(
    id: string, nickname: string,
    users: seq<ChatUser>, labels: seq<string>, messages: seq<string>)

  function Label(u: ChatUser): string { u.nickname + " (" + u.programId + ")" }

  // Row i of the contact list names the peer that entry i would address.
  ghost predicate Parallel(users: seq<ChatUser>, labels: seq<string>) {
    |labels| == |users| && forall i :: 0 <= i < |users| ==> labels[i] == Label(users[i])
  }

  ghost predicate Lists(p: Peer, id: string) {
    exists i :: 0 <= i < |p.users| && p.users[i].programId == id
  }

  ghost predicate UniqueIds(users: seq<ChatUser>) {
    forall i, j :: 0 <= i < j < |users| ==> users[i].programId != users[j].programId
  }

  function Position(users: seq<ChatUser>, id: string): (k: nat)
    ensures k <= |users|
    ensures forall i :: 0 <= i < k ==> users[i].programId != id
    ensures k < |users| ==> users[k].programId == id
  {
    if users == [] || users[0].programId == id then 0 else Position(users[1..], id) + 1
  }

  function Copies<T>(x: T, n: nat): seq<T> { seq(n, _ => x) }

  function Append(p: Peer, u: ChatUser, n: nat): Peer {
    p.(users := p.users + Copies(u, n), labels := p.labels + Copies(Label(u), n))
  }

  // ---------- AddUser ----------

  function Announce(p: Peer, u: ChatUser, backSend: bool): seq<Output> {
    [NewUser] + if backSend then [Sent(u.address, Print(1, "hi", p.nickname, p.id))] else []
  }

  function Add(reading: Reading, p: Peer, u: ChatUser, backSend: bool): (Peer, seq<Output>) {
    if u.programId == p.id then (p, [])
    else if p.users == [] then (Append(p, u, 1), Announce(p, u, backSend))
    else if reading == Literal then
      // One copy per contact scanned, then a return before the signal and the reply.
      (Append(p, u, Position(p.users, u.programId)), [])
    else if Position(p.users, u.programId) < |p.users| then (p, [])
    else (Append(p, u, 1), Announce(p, u, backSend))
  }

  // The loop does what was meant exactly when it appends nothing in passing.
  lemma AddAsMeantIff(p: Peer, u: ChatUser, backSend: bool)
    ensures Add(Literal, p, u, backSend) == Add(Intended, p, u, backSend)
            <==> u.programId == p.id || p.users == [] || p.users[0].programId == u.programId
  {
    var k := Position(p.users, u.programId);
    assert |Append(p, u, k).users| == |p.users| + k;
    assert k == 0 ==> Append(p, u, k).users == p.users && Append(p, u, k).labels == p.labels;
  }

  // Under either reading the peer lists the newcomer afterwards, keeps every
  // contact it had, and gains no other.
  lemma AddLists(reading: Reading, p: Peer, u: ChatUser, backSend: bool)
    requires u.programId != p.id
    ensures var q := Add(reading, p, u, backSend).0;
            && Lists(q, u.programId) && p.users <= q.users
            && (forall i :: |p.users| <= i < |q.users| ==> q.users[i] == u)
            && q.id == p.id && q.nickname == p.nickname && q.messages == p.messages
  {
    var q, k := Add(reading, p, u, backSend).0, Position(p.users, u.programId);
    if k < |p.users| {
      assert q.users[k].programId == u.programId;
    } else {
      assert q.users[|p.users|].programId == u.programId;
    }
  }

  // ---------- slotDisconnected ----------

  // Erasing shifts the next entry under the cursor, which then steps over it.
  function ScanOut(users: seq<ChatUser>, id: string): seq<ChatUser> {
    if users == [] then []
    else if users[0].programId != id then [users[0]] + ScanOut(users[1..], id)
    else if |users| == 1 then []
    else [users[1]] + ScanOut(users[2..], id)
  }

  // Erasing the last entry leaves the cursor beyond the end it is compared with.
  predicate Overruns(users: seq<ChatUser>, id: string) {
    if users == [] then false
    else if users[0].programId != id then Overruns(users[1..], id)
    else |users| == 1 || Overruns(users[2..], id)
  }

  function WithoutId(users: seq<ChatUser>, id: string): seq<ChatUser> {
    if users == [] then []
    else if users[0].programId == id then WithoutId(users[1..], id)
    else [users[0]] + WithoutId(users[1..], id)
  }

  function Labels(users: seq<ChatUser>): seq<string> {
    seq(|users|, i requires 0 <= i < |users| => Label(users[i]))
  }

  lemma {:induction false} WithoutIdLength(users: seq<ChatUser>, id: string)
    ensures |WithoutId(users, id)| <= |users|
    ensures (forall i :: 0 <= i < |users| ==> users[i].programId != id) ==> WithoutId(users, id) == users
    ensures forall i :: 0 <= i < |WithoutId(users, id)| ==> WithoutId(users, id)[i] in users
    ensures forall i :: 0 <= i < |WithoutId(users, id)| ==> WithoutId(users, id)[i].programId != id
  {
    if users != [] {
      WithoutIdLength(users[1..], id);
    }
  }

  ghost predicate EveryMatchIsIsolated(users: seq<ChatUser>, id: string) {
    forall i :: 0 <= i < |users| && users[i].programId == id ==>
      i + 1 < |users| && users[i + 1].programId != id
  }

  // Dropping a first entry that is no match, or a lone match with its follower,
  // does not change whether the matches are isolated.
  lemma IsolatedRest(users: seq<ChatUser>, id: string, k: nat)
    requires k <= |users| && k in {1, 2}
    requires if k == 1 then users[0].programId != id else users[0].programId == id != users[1].programId
    ensures EveryMatchIsIsolated(users, id) <==> EveryMatchIsIsolated(users[k..], id)
  {}

  // The scan removes what was meant, and stays inside the list, exactly when
  // every match is followed by an entry that is not a match.
  lemma {:induction false} DisconnectAsMeantIff(users: seq<ChatUser>, id: string)
    ensures ScanOut(users, id) == WithoutId(users, id) && !Overruns(users, id)
            <==> EveryMatchIsIsolated(users, id)
    decreases |users|
  {
    var scanned, meant := ScanOut(users, id), WithoutId(users, id);
    if users == [] {
    } else if users[0].programId != id {
      DisconnectAsMeantIff(users[1..], id);
      IsolatedRest(users, id, 1);
      assert scanned[1..] == ScanOut(users[1..], id) && meant[1..] == WithoutId(users[1..], id);
    } else if |users| == 1 {
      assert users[0].programId == id;
    } else if users[1].programId == id {
      assert users[0].programId == id;
      assert meant == WithoutId(users[1..], id) && users[1..][0] == users[1] && users[1..][1..] == users[2..];
      WithoutIdLength(users[2..], id);
      assert scanned[0] == users[1];
      assert |meant| > 0 ==> meant[0].programId != id;
    } else {
      DisconnectAsMeantIff(users[2..], id);
      IsolatedRest(users, id, 2);
      assert meant == WithoutId(users[1..], id) && users[1..][0] == users[1] && users[1..][1..] == users[2..];
      assert scanned[1..] == ScanOut(users[2..], id) && meant[1..] == WithoutId(users[2..], id);
    }
  }

  // The remaining entries, in either reading, are entries the list had.
  lemma {:induction false} ScanOutSubset(users: seq<ChatUser>, id: string)
    ensures forall i :: 0 <= i < |ScanOut(users, id)| ==> ScanOut(users, id)[i] in users
    decreases |users|
  {
    if users == [] {
    } else if users[0].programId != id {
      ScanOutSubset(users[1..], id);
    } else if |users| > 1 {
      ScanOutSubset(users[2..], id);
    }
  }

  function Disconnect(reading: Reading, p: Peer, id: string): (Peer, seq<Output>) {
    var users := if reading == Literal then ScanOut(p.users, id) else WithoutId(p.users, id);
    (p.(users := users, labels := Labels(users)),
     Departures(p.users, id, reading) + if reading == Literal && Overruns(p.users, id) then [RanPastEnd] else [])
  }

  function Departures(users: seq<ChatUser>, id: string, reading: Reading): seq<Output> {
    if users == [] then []
    else if users[0].programId != id then Departures(users[1..], id, reading)
    else
      [UserDisconnect(Label(users[0]))]
      + if reading == Literal && |users| > 1 then Departures(users[2..], id, reading)
        else Departures(users[1..], id, reading)
  }

  // ---------- slotReadMessages, one datagram ----------

  function TextLines(k: Packet): seq<string> {
    ["<font color=\"blue\">Принято от " + k.nickname + " (" + k.id + "):",
     "<font color=\"black\">" + k.message + "</font>"]
  }

  function Handle(reading: Reading, p: Peer, from: Address, k: Packet): (Peer, seq<Output>) {
    if !(k.kind > 0 || |k.nickname| > 0 || |k.id| > 0) then (p, [])
    else if k.kind == 1 then
      if k.message == "whos here" then Add(reading, p, ChatUser(from, k.nickname, k.id), true)
      else if k.message == "hi" then Add(reading, p, ChatUser(from, k.nickname, k.id), false)
      else if k.message == "bye" then Disconnect(reading, p, k.id)
      else (p, [])
    else if k.kind == 2 && k.id != p.id then (p.(messages := p.messages + TextLines(k)), [NewMessage])
    else (p, [])
  }

  function Receive(reading: Reading, p: Peer, from: Address, data: string): (Peer, seq<Output>) {
    Handle(reading, p, from, Parse(data))
  }

  // ---------- from the datagram to the window ----------

  lemma TextHandled(reading: Reading, p: Peer, from: Address, text: string, nickname: string, id: string)
    requires id != p.id
    ensures var (q, outs) := Handle(reading, p, from, Packet(2, text, nickname, id));
            && outs == [NewMessage] && |q.messages| == |p.messages| + 2 && p.messages <= q.messages
            && q.messages[|p.messages|] == "<font color=\"blue\">Принято от " + nickname + " (" + id + "):"
            && q.messages[|p.messages| + 1] == "<font color=\"black\">" + text + "</font>"
            && q.users == p.users && q.labels == p.labels && q.id == p.id && q.nickname == p.nickname
  {}

  // A chat text of somebody else adds two lines, his name and id and then the text,
  // and a signal.
  lemma TextShown(reading: Reading, p: Peer, from: Address, data: string, text: string, nickname: string, id: string)
    requires data == "2/" + text + "/" + nickname + "/" + id
    requires Clean(text) && Clean(nickname) && Clean(id) && id != p.id
    ensures var (q, outs) := Receive(reading, p, from, data);
            && outs == [NewMessage] && |q.messages| == |p.messages| + 2 && p.messages <= q.messages
            && q.messages[|p.messages|] == "<font color=\"blue\">Принято от " + nickname + " (" + id + "):"
            && q.messages[|p.messages| + 1] == "<font color=\"black\">" + text + "</font>"
            && q.users == p.users && q.labels == p.labels && q.id == p.id && q.nickname == p.nickname
  {
    PrintedText(text, nickname, id);
    RoundTripIff(2, text, nickname, id);
    TextHandled(reading, p, from, text, nickname, id);
  }

  lemma PrintedText(text: string, nickname: string, id: string)
    ensures Print(2, text, nickname, id) == "2/" + text + "/" + nickname + "/" + id
  {
    assert "2" + "/" == "2/";
  }

  // Different texts look different.
  lemma TextsTold(reading: Reading, p: Peer, from: Address, text: string, other: string, nickname: string, id: string)
    requires text != other && id != p.id
    ensures Handle(reading, p, from, Packet(2, text, nickname, id)).0.messages
            != Handle(reading, p, from, Packet(2, other, nickname, id)).0.messages
  {
    TextHandled(reading, p, from, text, nickname, id);
    TextHandled(reading, p, from, other, nickname, id);
    FramedDiffer("<font color=\"black\">", text, other, "</font>");
  }

  lemma FramedDiffer(before: string, a: string, b: string, after: string)
    requires a != b
    ensures before + a + after != before + b + after
  {
    var x, y := before + a + after, before + b + after;
    assert x[|before|..|x| - |after|] == a && y[|before|..|y| - |after|] == b;
  }

  // Our own texts, and packets of no known kind, show nothing and change nothing.
  lemma NothingShown(reading: Reading, p: Peer, from: Address, k: Packet)
    requires (k.kind == 2 && k.id == p.id) || k.kind < 1 || k.kind > 2
    ensures Handle(reading, p, from, k) == (p, [])
  {}

  // ---------- what the contact list is told ----------

  // A discovery packet of somebody else: as meant, a signal for exactly the contact
  // added. As written, none unless the list was empty, although contacts are added.
  lemma NewUserSignals(reading: Reading, p: Peer, from: Address, k: Packet)
    requires k.kind == 1 && (k.message == "whos here" || k.message == "hi")
    ensures var (q, outs) := Handle(reading, p, from, k);
            && (NewUser in outs <==>
                  k.id != p.id
                  && (p.users == [] || (reading == Intended && forall u :: u in p.users ==> u.programId != k.id)))
            && (reading == Intended ==> (NewUser in outs <==> |q.users| == |p.users| + 1) && |q.users| <= |p.users| + 1)
  {
    var n := Position(p.users, k.id);
    assert n < |p.users| ==> p.users[n] in p.users;
    assert forall u :: u in p.users && n == |p.users| ==> u.programId != k.id;
  }

  function Rows(outs: seq<Output>): seq<string> {
    if outs == [] then []
    else (if outs[0].UserDisconnect? then [outs[0].row] else []) + Rows(outs[1..])
  }

  lemma {:induction false} RowsConcat(a: seq<Output>, b: seq<Output>)
    ensures Rows(a + b) == Rows(a) + Rows(b)
  {
    if a == [] {
      assert a + b == b;
    } else {
      assert (a + b)[1..] == a[1..] + b;
      RowsConcat(a[1..], b);
    }
  }

  lemma LabelsCons(u: ChatUser, users: seq<ChatUser>)
    ensures Labels([u] + users) == [u.nickname + " (" + u.programId + ")"] + Labels(users)
  {}

  lemma {:induction false} DeparturesConserve(reading: Reading, users: seq<ChatUser>, id: string)
    ensures var left := if reading == Literal then ScanOut(users, id) else WithoutId(users, id);
            multiset(Labels(left)) + multiset(Rows(Departures(users, id, reading))) == multiset(Labels(users))
    decreases |users|
  {
    if users != [] {
      var u, rest := users[0], users[1..];
      assert users == [u] + rest;
      LabelsCons(u, rest);
      if u.programId != id {
        DeparturesConserve(reading, rest, id);
        LabelsCons(u, if reading == Literal then ScanOut(rest, id) else WithoutId(rest, id));
      } else {
        var more := if reading == Literal && |users| > 1 then users[2..] else rest;
        DeparturesConserve(reading, more, id);
        var later := Departures(more, id, reading);
        assert ([UserDisconnect(Label(u))] + later)[1..] == later;
        assert Rows(Departures(users, id, reading)) == [Label(u)] + Rows(later);
        if reading == Literal && |users| > 1 {
          assert rest == [users[1]] + users[2..];
          LabelsCons(users[1], users[2..]);
          LabelsCons(users[1], ScanOut(users[2..], id));
        }
      }
    }
  }

  lemma DisconnectConserves(reading: Reading, p: Peer, id: string)
    requires p.labels == Labels(p.users)
    ensures var (q, outs) := Disconnect(reading, p, id);
            multiset(q.labels) + multiset(Rows(outs)) == multiset(p.labels)
  {
    DeparturesConserve(reading, p.users, id);
    var end: seq<Output> := if reading == Literal && Overruns(p.users, id) then [RanPastEnd] else [];
    RowsConcat(Departures(p.users, id, reading), end);
    assert Rows(end) == [];
  }

  // A goodbye: every row taken off the contact list is reported, and no other.
  lemma GoodbyeReported(reading: Reading, p: Peer, from: Address, nickname: string, id: string)
    requires Parallel(p.users, p.labels)
    ensures var (q, outs) := Handle(reading, p, from, Packet(1, "bye", nickname, id));
            multiset(q.labels) + multiset(Rows(outs)) == multiset(p.labels)
  {
    ParallelLabels(p.users, p.labels);
    DisconnectConserves(reading, p, id);
  }

  // ---------- the scan of slotDisconnected, part way ----------

  // `now` is the list after erasing along `was` up to the cursor.
  ghost predicate ScanAt(was: seq<ChatUser>, id: string, now: seq<ChatUser>, it: nat, out: seq<Output>) {
    if it <= |now| then
      && ScanOut(was, id) == now[..it] + ScanOut(now[it..], id)
      && Departures(was, id, Literal) == out + Departures(now[it..], id, Literal)
      && Overruns(was, id) == Overruns(now[it..], id)
    else
      it == |now| + 1 && ScanOut(was, id) == now && Departures(was, id, Literal) == out && Overruns(was, id)
  }

  lemma ScanKeep(was: seq<ChatUser>, id: string, now: seq<ChatUser>, it: nat, out: seq<Output>)
    requires ScanAt(was, id, now, it, out) && it < |now| && now[it].programId != id
    ensures ScanAt(was, id, now, it + 1, out)
  {}

  lemma ScanErase(was: seq<ChatUser>, id: string, now: seq<ChatUser>, it: nat, out: seq<Output>)
    requires ScanAt(was, id, now, it, out) && it < |now| && now[it].programId == id
    ensures ScanAt(was, id, Cut(now, it), it + 1, out + [UserDisconnect(Label(now[it]))])
  {
    var rest, next := now[it..], Cut(now, it);
    if |rest| > 1 {
      assert next[..it + 1] == now[..it] + [rest[1]];
      assert next[it + 1..] == rest[2..];
    } else {
      assert next == now[..it];
      assert Departures(rest[1..], id, Literal) == [];
    }
  }

  lemma ScanEnd(was: seq<ChatUser>, id: string, now: seq<ChatUser>, it: nat, out: seq<Output>)
    requires ScanAt(was, id, now, it, out) && it >= |now|
    ensures now == ScanOut(was, id) && out == Departures(was, id, Literal)
    ensures it != |now| <==> Overruns(was, id)
  {}

  lemma ParallelLabels(users: seq<ChatUser>, labels: seq<string>)
    ensures Parallel(users, labels) <==> labels == Labels(users)
  {}

  // ---------- the object ----------

  class ChatNetwork {
    const programId: string
    var userName: string
    var vecUser: seq<ChatUser>
    var listUsers: seq<string>
    var listMessages: seq<string>
    var listDelUsers: string

    constructor (programId: string, userName: string)
      ensures State() == Peer(programId, userName, [], [], [])
    {
      this.programId, this.userName := programId, userName;
      vecUser, listUsers, listMessages, listDelUsers := [], [], [], "";
    }

    function State(): Peer
      reads this
    {
      Peer(programId, userName, vecUser, listUsers, listMessages)
    }

    method AddUser(address: Address, nickname: string, id: string, backSend: bool) returns (out: seq<Output>)
      modifies `vecUser, `listUsers
      ensures (State(), out) == Add(Literal, old(State()), ChatUser(address, nickname, id), backSend)
    {
      out := [];
      if id == programId { return; }
      var user := ChatUser(address, nickname, id);
      if vecUser != [] {
        var at := 0;
        ghost var n := |vecUser|;
        while at < |vecUser|
          invariant at <= n
          invariant vecUser == old(vecUser) + Copies(user, at)
          invariant listUsers == old(listUsers) + Copies(Label(user), at)
          invariant forall i :: 0 <= i < at ==> old(vecUser)[i].programId != id
          decreases n - at
        {
          if vecUser[at].programId == id {
            assert Position(old(vecUser), id) == at;
            return;
          }
          vecUser := vecUser + [user];
          listUsers := listUsers + [Label(user)];
          at := at + 1;
        }
      } else {
        vecUser := vecUser + [user];
        listUsers := listUsers + [Label(user)];
        assert Copies(user, 1) == [user] && Copies(Label(user), 1) == [Label(user)];
      }
      out := [NewUser];
      if backSend {
        out := out + [Sent(address, Print(1, "hi", userName, programId))];
      }
      assert out == Announce(old(State()), user, backSend);
    }

    method SlotDisconnected(id: string) returns (out: seq<Output>)
      requires Parallel(vecUser, listUsers)
      modifies `vecUser, `listUsers, `listDelUsers
      ensures (State(), out) == Disconnect(Literal, old(State()), id)
    {
      ghost var was := vecUser;
      out := [];
      var it := 0;
      while it < |vecUser|
        invariant Parallel(vecUser, listUsers)
        invariant ScanAt(was, id, vecUser, it, out)
        decreases |vecUser| + 1 - it
      {
        if vecUser[it].programId == id {
          ScanErase(was, id, vecUser, it, out);
          vecUser := Cut(vecUser, it);
          listDelUsers := listUsers[it];
          listUsers := Cut(listUsers, it);
          out := out + [UserDisconnect(listDelUsers)];
        } else {
          ScanKeep(was, id, vecUser, it, out);
        }
        it := it + 1;
      }
      ScanEnd(was, id, vecUser, it, out);
      ParallelLabels(vecUser, listUsers);
      if it != |vecUser| {
        out := out + [RanPastEnd];
      }
    }

    // `pending` is what the listening socket holds when the slot is called.
    method SlotReadMessages(pending: seq<(Address, string)>) returns (out: seq<Output>)
      requires Parallel(vecUser, listUsers)
      modifies this
      ensures Parallel(vecUser, listUsers)
      ensures pending == [] ==> State() == old(State()) && out == []
      ensures pending != [] ==>
        var (from, data) := pending[|pending| - 1];
        (State(), out) == Receive(Literal, old(State()), from, data)
    {
      var address, packet := 0, "";
      for i := 0 to |pending|
        invariant i == 0 ==> packet == ""
        invariant i > 0 ==> (address, packet) == pending[i - 1]
      {
        address, packet := pending[i].0, pending[i].1;
      }
      out := Dispatch(address, Parse(packet));
    }

    // The switch over the packet kind. A packet with no kind, name or id is dropped.
    method Dispatch(address: Address, k: Packet) returns (out: seq<Output>)
      requires Parallel(vecUser, listUsers)
      modifies this
      ensures Parallel(vecUser, listUsers)
      ensures (State(), out) == Handle(Literal, old(State()), address, k)
      ensures k.kind == 2 && k.id != programId ==>
                out == [NewMessage]
                && listMessages == old(listMessages)
                                   + ["<font color=\"blue\">Принято от " + k.nickname + " (" + k.id + "):",
                                      "<font color=\"black\">" + k.message + "</font>"]
    {
      out := [];
      if k.kind > 0 || |k.nickname| > 0 || |k.id| > 0 {
        if k.kind == 1 {
          if k.message == "whos here" {
            out := AddUser(address, k.nickname, k.id, true);
          } else if k.message == "hi" {
            out := AddUser(address, k.nickname, k.id, false);
          } else if k.message == "bye" {
            out := SlotDisconnected(k.id);
          }
        } else if k.kind == 2 {
          if k.id == programId { return; }
          ghost var lines := listMessages + TextLines(k);
          var heading := "<font color=\"blue\">Принято от " + k.nickname + " (" + k.id + "):";
          listMessages := listMessages + [heading];
          listMessages := listMessages + ["<font color=\"black\">" + k.message + "</font>"];
          assert listMessages == lines;
          out := [NewMessage];
        }
      }
    }
  }
}
