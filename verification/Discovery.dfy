// The membership protocol of the serverless chat: any number of peers, an
// unordered network of datagrams, and every interleaving of joins, deliveries,
// chat messages, departures and losses.

module Discovery {
  import opened Basics
  import opened Chat
  import opened ChatCodec
  import opened Sequences

  // A datagram in flight, in the form its receiver parses it to.
  datatype Wire = Wire(from: Address, to: Address, packet: Packet)

  datatype World = World(
    live: map<Address, Peer>,       // who is listening, by address
    order: seq<Address>,            // the same addresses, in join order
    ever: map<string, ChatUser>,    // everybody who ever joined, by id
    net: seq<Wire>)                 // datagrams in flight; any of them may arrive next

  datatype Event =
    | Join(at: Address, id: string, nickname: string)
    | Deliver(i: nat)
    | Say(who: Address, to: Address, toAll: bool, text: string)
    | Leave(who: Address)
    | Lose(i: nat)

  const EMPTY_WORLD := World(map[], [], map[], [])

  function Broadcast(order: seq<Address>, from: Address, k: Packet): (r: seq<Wire>)
    ensures forall w :: w in r ==> w.from == from && w.packet == k && w.to in order
    ensures forall a :: a in order ==> Wire(from, a, k) in r
  {
    if order == [] then [] else [Wire(from, order[0], k)] + Broadcast(order[1..], from, k)
  }

  function SendOf(out: Output, from: Address): seq<Wire> {
    if out.Sent? then [Wire(from, out.to, Parse(out.data))] else []
  }

  function Sends(outs: seq<Output>, from: Address): seq<Wire> {
    if outs == [] then [] else SendOf(outs[0], from) + Sends(outs[1..], from)
  }

  // An event that cannot happen in w leaves w as it is. Ids are unique, and
  // ids and nicknames hold neither '/' nor NUL.
  function Step(reading: Reading, w: World, e: Event): World {
    match e
    case Join(a, id, nickname) =>
      if a in w.live || id in w.ever || !Clean(id) || !Clean(nickname) then w
      else
        var order := w.order + [a];
        World(w.live[a := Peer(id, nickname, [], [], [])], order,
              w.ever[id := ChatUser(a, nickname, id)],
              w.net + Broadcast(order, a, Parse(Print(1, "whos here", nickname, id))))
    case Deliver(i) =>
      if i >= |w.net| then w
      else
        var d, rest := w.net[i], Cut(w.net, i);
        if d.to !in w.live then w.(net := rest)
        else
          var (p, outs) := Handle(reading, w.live[d.to], d.from, d.packet);
          w.(live := w.live[d.to := p], net := rest + Sends(outs, d.to))
    case Say(a, to, toAll, text) =>
      if a !in w.live then w
      else
        var k := Parse(Print(2, text, w.live[a].nickname, w.live[a].id));
        w.(net := w.net + if toAll then Broadcast(w.order, a, k) else [Wire(a, to, k)])
    case Leave(a) =>
      if a !in w.live then w
      else
        w.(live := w.live - {a}, order := Without(w.order, a),
           net := w.net + Broadcast(w.order, a, Parse(Print(1, "bye", w.live[a].nickname, w.live[a].id))))
    case Lose(i) =>
      if i >= |w.net| then w else w.(net := Cut(w.net, i))
  }

  function Exec(reading: Reading, events: seq<Event>): World {
    if events == [] then EMPTY_WORLD
    else Step(reading, Exec(reading, events[..|events| - 1]), events[|events| - 1])
  }

  function Profile(a: Address, p: Peer): ChatUser { ChatUser(a, p.nickname, p.id) }

  // ---------- what one received packet can do to a peer ----------

  predicate Discovers(k: Packet) { k.kind == 1 && (k.message == "whos here" || k.message == "hi") }

  predicate Asks(k: Packet) { k.kind == 1 && k.message == "whos here" }

  function Greeting(p: Peer): Packet { Packet(1, "hi", p.nickname, p.id) }

  predicate Answers(reading: Reading, p: Peer, k: Packet) {
    Asks(k) && k.id != p.id
    && (p.users == [] || (reading == Intended && Position(p.users, k.id) == |p.users|))
  }

  lemma ListsIsPosition(p: Peer, id: string)
    ensures Lists(p, id) <==> Position(p.users, id) < |p.users|
  {}

  lemma {:induction false} NothingSent(outs: seq<Output>, at: Address)
    requires forall i :: 0 <= i < |outs| ==> !outs[i].Sent?
    ensures Sends(outs, at) == []
  {
    if outs != [] {
      NothingSent(outs[1..], at);
    }
  }

  lemma {:induction false} DeparturesSendNothing(reading: Reading, users: seq<ChatUser>, id: string)
    ensures forall i :: 0 <= i < |Departures(users, id, reading)| ==> !Departures(users, id, reading)[i].Sent?
    decreases |users|
  {
    if users != [] {
      DeparturesSendNothing(reading, users[1..], id);
      if |users| > 1 { DeparturesSendNothing(reading, users[2..], id); }
    }
  }

  lemma PairSends(to: Address, data: string, at: Address)
    ensures Sends([NewUser, Sent(to, data)], at) == [Wire(at, to, Parse(data))]
  {
    var outs := [NewUser, Sent(to, data)];
    assert outs[1..] == [Sent(to, data)] && outs[1..][1..] == [];
    assert Sends(outs[1..][1..], at) == [];
    assert Sends(outs[1..], at) == SendOf(outs[1], at);
    assert Sends(outs, at) == Sends(outs[1..], at);
  }

  lemma GreetingReads(p: Peer)
    requires Clean(p.nickname) && Clean(p.id)
    ensures Parse(Print(1, "hi", p.nickname, p.id)) == Greeting(p)
  {
    assert Clean("hi");
    RoundTripIff(1, "hi", p.nickname, p.id);
  }

  lemma AddSends(reading: Reading, p: Peer, from: Address, k: Packet, at: Address)
    requires Clean(p.nickname) && Clean(p.id) && Discovers(k)
    ensures Sends(Add(reading, p, ChatUser(from, k.nickname, k.id), Asks(k)).1, at)
            == if Answers(reading, p, k) then [Wire(at, from, Greeting(p))] else []
  {
    var outs := Add(reading, p, ChatUser(from, k.nickname, k.id), Asks(k)).1;
    if Answers(reading, p, k) {
      PairSends(from, Print(1, "hi", p.nickname, p.id), at);
      GreetingReads(p);
    } else {
      NothingSent(outs, at);
    }
  }

  lemma DisconnectSends(reading: Reading, p: Peer, id: string, at: Address)
    ensures Sends(Disconnect(reading, p, id).1, at) == []
  {
    DeparturesSendNothing(reading, p.users, id);
    NothingSent(Disconnect(reading, p, id).1, at);
  }

  // The only datagram a peer sends on its own is one greeting, to the sender.
  lemma HandleSends(reading: Reading, p: Peer, from: Address, k: Packet, at: Address)
    requires Clean(p.nickname) && Clean(p.id)
    ensures Sends(Handle(reading, p, from, k).1, at)
            == if Answers(reading, p, k) then [Wire(at, from, Greeting(p))] else []
  {
    if Discovers(k) {
      AddSends(reading, p, from, k, at);
    } else {
      DisconnectSends(reading, p, k.id, at);
    }
  }

  // Contacts only ever come from a discovery packet's own fields.
  lemma HandleUsers(reading: Reading, p: Peer, from: Address, k: Packet)
    ensures var q := Handle(reading, p, from, k).0;
            && q.id == p.id && q.nickname == p.nickname
            && (forall u :: u in q.users ==>
                  (u in p.users || (Discovers(k) && k.id != p.id && u == ChatUser(from, k.nickname, k.id))))
            && (Discovers(k) && k.id != p.id ==> p.users <= q.users && Lists(q, k.id))
            && (!(k.kind == 1 && k.message == "bye") && !(Discovers(k) && k.id != p.id) ==> q.users == p.users)
  {
    if Discovers(k) && k.id != p.id {
      AddLists(reading, p, ChatUser(from, k.nickname, k.id), Asks(k));
    } else {
      ScanOutSubset(p.users, k.id);
      WithoutIdLength(p.users, k.id);
    }
  }

  lemma {:induction false} ScanOutKeeps(users: seq<ChatUser>, gone: string, u: ChatUser)
    requires u in users && u.programId != gone
    ensures u in ScanOut(users, gone)
    decreases |users|
  {
    assert users == [users[0]] + users[1..];
    if users[0].programId != gone {
      if u != users[0] { ScanOutKeeps(users[1..], gone, u); }
    } else if |users| > 1 && u != users[1] {
      assert users == [users[0], users[1]] + users[2..];
      ScanOutKeeps(users[2..], gone, u);
    }
  }

  lemma {:induction false} WithoutIdKeeps(users: seq<ChatUser>, gone: string, u: ChatUser)
    requires u in users && u.programId != gone
    ensures u in WithoutId(users, gone)
  {
    assert users == [users[0]] + users[1..];
    if u != users[0] { WithoutIdKeeps(users[1..], gone, u); }
  }

  // Under either reading a goodbye takes nobody else off the list.
  lemma GoodbyeKeeps(reading: Reading, p: Peer, gone: string, id: string)
    requires id != gone
    ensures Lists(Disconnect(reading, p, gone).0, id) <==> Lists(p, id)
  {
    var users := Disconnect(reading, p, gone).0.users;
    if Lists(p, id) {
      var i :| 0 <= i < |p.users| && p.users[i].programId == id;
      var u := p.users[i];
      if reading == Literal { ScanOutKeeps(p.users, gone, u); } else { WithoutIdKeeps(p.users, gone, u); }
      var j :| 0 <= j < |users| && users[j] == u;
    }
    if Lists(Disconnect(reading, p, gone).0, id) {
      var i :| 0 <= i < |users| && users[i].programId == id;
      if reading == Literal { ScanOutSubset(p.users, gone); } else { WithoutIdLength(p.users, gone); }
      assert users[i] in p.users;
    }
  }

  lemma HandleRows(reading: Reading, p: Peer, from: Address, k: Packet)
    requires Parallel(p.users, p.labels)
    ensures var q := Handle(reading, p, from, k).0;
            && Parallel(q.users, q.labels)
            && forall i :: 0 <= i < |q.users| ==> q.labels[i] == q.users[i].nickname + " (" + q.users[i].programId + ")"
  {}

  lemma UniqueCons(u: ChatUser, users: seq<ChatUser>)
    requires UniqueIds(users) && forall i :: 0 <= i < |users| ==> users[i].programId != u.programId
    ensures UniqueIds([u] + users)
  {}

  lemma {:induction false} WithoutIdUnique(users: seq<ChatUser>, id: string)
    requires UniqueIds(users)
    ensures UniqueIds(WithoutId(users, id))
  {
    if users != [] {
      var rest := WithoutId(users[1..], id);
      assert UniqueIds(users[1..]);
      WithoutIdUnique(users[1..], id);
      WithoutIdLength(users[1..], id);
      forall i | 0 <= i < |rest| ensures rest[i].programId != users[0].programId {
        assert rest[i] in users[1..];
      }
      UniqueCons(users[0], rest);
    }
  }

  lemma HandleUnique(p: Peer, from: Address, k: Packet)
    requires UniqueIds(p.users)
    ensures UniqueIds(Handle(Intended, p, from, k).0.users)
  {
    WithoutIdUnique(p.users, k.id);
  }

  // Where no id appears twice, the skip after an erase meets no second match.
  lemma {:induction false} ScanOutUnique(users: seq<ChatUser>, id: string)
    requires UniqueIds(users)
    ensures ScanOut(users, id) == WithoutId(users, id)
    decreases |users|
  {
    if users != [] {
      if users[0].programId != id {
        assert UniqueIds(users[1..]);
        ScanOutUnique(users[1..], id);
      } else if |users| > 1 {
        WithoutIdLength(users[1..], id);
        assert [users[1]] + users[2..] == users[1..];
        ScanOutSkips(users, id);
      }
    }
  }

  lemma ScanOutSkips(users: seq<ChatUser>, id: string)
    requires UniqueIds(users) && |users| > 1 && users[0].programId == id
    ensures ScanOut(users, id) == users[1..]
  {
    assert forall i :: 0 <= i < |users| - 2 ==> users[2..][i].programId != id;
    ScanOutNone(users[2..], id);
  }

  lemma {:induction false} ScanOutNone(users: seq<ChatUser>, id: string)
    requires forall i :: 0 <= i < |users| ==> users[i].programId != id
    ensures ScanOut(users, id) == users
  {
    if users != [] {
      ScanOutNone(users[1..], id);
    }
  }

  // A duplicate-free list survives the loop as written exactly when the scan
  // stops before its first copy, or makes that one copy and ends.
  lemma AddUniqueIff(p: Peer, u: ChatUser, backSend: bool)
    requires UniqueIds(p.users) && u.programId != p.id
    ensures UniqueIds(Add(Literal, p, u, backSend).0.users)
            <==> |p.users| <= 1 || p.users[0].programId == u.programId
  {
    var users, k, after := p.users, Position(p.users, u.programId), Add(Literal, p, u, backSend).0.users;
    if users != [] {
      assert after == users + Copies(u, k);
      if k < |users| {
        assert k > 0 ==> after[k].programId == after[|users|].programId;
      } else {
        assert k > 1 ==> after[|users|].programId == after[|users| + 1].programId;
      }
    }
  }

  // A packet that the loop as written files without listing an id twice.
  predicate FilesOnce(p: Peer, k: Packet) {
    Discovers(k) && k.id != p.id ==> |p.users| <= 1 || p.users[0].programId == k.id
  }

  lemma HandleUniqueIff(p: Peer, from: Address, k: Packet)
    requires UniqueIds(p.users)
    ensures UniqueIds(Handle(Literal, p, from, k).0.users) <==> FilesOnce(p, k)
  {
    if Discovers(k) && k.id != p.id {
      AddUniqueIff(p, ChatUser(from, k.nickname, k.id), Asks(k));
    } else {
      WithoutIdUnique(p.users, k.id);
      ScanOutUnique(p.users, k.id);
    }
  }

  ghost predicate AllUnique(w: World) {
    forall a :: a in w.live ==> UniqueIds(w.live[a].users)
  }

  predicate DeliversOnce(w: World, e: Event) {
    e.Deliver? && e.i < |w.net| && w.net[e.i].to in w.live ==> FilesOnce(w.live[w.net[e.i].to], w.net[e.i].packet)
  }

  lemma StepUniqueIff(w: World, e: Event)
    requires AllUnique(w)
    ensures AllUnique(Step(Literal, w, e)) <==> DeliversOnce(w, e)
  {
    if e.Deliver? && e.i < |w.net| && w.net[e.i].to in w.live {
      var d, w' := w.net[e.i], Step(Literal, w, e);
      HandleUniqueIff(w.live[d.to], d.from, d.packet);
      assert w'.live[d.to] == Handle(Literal, w.live[d.to], d.from, d.packet).0;
      assert forall a :: a in w'.live && a != d.to ==> w'.live[a] == w.live[a];
    }
  }

  ghost predicate UniqueAfter(events: seq<Event>, n: nat)
    requires n <= |events|
  {
    AllUnique(Exec(Literal, events[..n]))
  }

  ghost predicate OnceAt(events: seq<Event>, n: nat)
    requires n < |events|
  {
    DeliversOnce(Exec(Literal, events[..n]), events[n])
  }

  lemma UniqueAtFirst(events: seq<Event>)
    ensures UniqueAfter(events, 0)
  {
    assert events[..0] == [];
  }

  lemma UniqueNext(events: seq<Event>, n: nat)
    requires n < |events| && UniqueAfter(events, n)
    ensures UniqueAfter(events, n + 1) <==> OnceAt(events, n)
  {
    assert events[..n + 1][..n] == events[..n];
    StepUniqueIff(Exec(Literal, events[..n]), events[n]);
  }

  // A property that each step keeps exactly when the step is fine holds
  // throughout exactly when all steps are fine.
  lemma {:induction false} HoldsThroughout(holds: nat -> bool, fine: nat -> bool, n: nat)
    requires holds(0) && forall k :: 0 <= k < n && holds(k) ==> (holds(k + 1) <==> fine(k))
    ensures (forall k :: 0 <= k <= n ==> holds(k)) <==> (forall k :: 0 <= k < n ==> fine(k))
  {
    if n > 0 {
      HoldsThroughout(holds, fine, n - 1);
      assert holds(n - 1) ==> (holds(n) <==> fine(n - 1));
    }
  }

  // With the loop as written, no peer lists an id twice at any time of a run
  // exactly when every discovery packet arrives from its receiver's own first
  // contact, or where there is at most one contact.
  lemma ExecUniqueIff(events: seq<Event>)
    ensures (forall n :: 0 <= n <= |events| ==> UniqueAfter(events, n))
            <==> (forall n :: 0 <= n < |events| ==> OnceAt(events, n))
  {
    ghost var unique := (n: nat) => n <= |events| && UniqueAfter(events, n);
    ghost var once := (n: nat) => n < |events| && OnceAt(events, n);
    UniqueAtFirst(events);
    forall n | 0 <= n < |events| && unique(n) ensures unique(n + 1) <==> once(n) {
      UniqueNext(events, n);
    }
    HoldsThroughout(unique, once, |events|);
    assert forall n :: 0 <= n <= |events| ==> (unique(n) <==> UniqueAfter(events, n));
    assert forall n :: 0 <= n < |events| ==> (once(n) <==> OnceAt(events, n));
  }

  // ---------- soundness: every run, losses and departures included ----------

  ghost predicate Known(w: World, u: ChatUser) { u.programId in w.ever && w.ever[u.programId] == u }

  // Labels match, no contact is the peer itself, and every contact is somebody
  // who joined under that id, nickname and address.
  ghost predicate PeerSound(reading: Reading, w: World, a: Address)
    requires a in w.live
  {
    var p := w.live[a];
    && Known(w, Profile(a, p)) && Clean(p.id) && Clean(p.nickname)
    && Parallel(p.users, p.labels)
    && (forall u :: u in p.users ==> Known(w, u) && u.programId != p.id)
    && (reading == Intended ==> UniqueIds(p.users))
  }

  ghost predicate WireSound(w: World, d: Wire) {
    d.packet.kind == 1 ==> Known(w, ChatUser(d.from, d.packet.nickname, d.packet.id))
  }

  ghost predicate Sound(reading: Reading, w: World) {
    && (forall a :: a in w.live ==> PeerSound(reading, w, a))
    && (forall d :: d in w.net ==> WireSound(w, d))
    && (forall a :: a in w.order <==> a in w.live)
  }

  lemma CutMembers<T(!new)>(s: seq<T>, k: nat)
    requires k < |s|
    ensures forall x :: x in Cut(s, k) ==> x in s
    ensures forall x :: x in s && x != s[k] ==> x in Cut(s, k)
  {
    forall x | x in s && x != s[k] ensures x in Cut(s, k) {
      CutKeeps(s, k, x);
    }
  }

  function Hello(e: Event): Packet
    requires e.Join?
  {
    Packet(1, "whos here", e.nickname, e.id)
  }

  lemma JoinNet(reading: Reading, w: World, e: Event)
    requires e.Join? && Step(reading, w, e) != w
    ensures Step(reading, w, e).net == w.net + Broadcast(w.order + [e.at], e.at, Hello(e))
  {
    assert Clean("whos here");
    RoundTripIff(1, "whos here", e.nickname, e.id);
  }

  lemma JoinSound(reading: Reading, w: World, e: Event)
    requires Sound(reading, w) && e.Join?
    ensures Sound(reading, Step(reading, w, e))
  {
    var w' := Step(reading, w, e);
    if w' != w {
      JoinNet(reading, w, e);
      var hello := Broadcast(w'.order, e.at, Hello(e));
      forall u | Known(w, u) ensures Known(w', u) {}
      forall b | b in w'.live ensures PeerSound(reading, w', b) {
        if b != e.at { assert PeerSound(reading, w, b); }
      }
      forall d | d in w'.net ensures WireSound(w', d) {
        if d in w.net { assert WireSound(w, d); } else { assert d in hello; }
      }
    }
  }

  // A delivery takes one datagram out and puts at most one greeting in.
  lemma DeliverNet(reading: Reading, w: World, i: nat)
    requires i < |w.net| && w.net[i].to in w.live && PeerSound(reading, w, w.net[i].to)
    ensures var d, net' := w.net[i], Step(reading, w, Deliver(i)).net;
            var p := w.live[d.to];
            && net' == Cut(w.net, i)
                       + (if Answers(reading, p, d.packet) then [Wire(d.to, d.from, Greeting(p))] else [])
            && (forall x :: x in w.net && x != d ==> x in net')
            && (forall x :: x in net' && x !in w.net ==>
                  Answers(reading, p, d.packet) && x == Wire(d.to, d.from, Greeting(p)))
            && (Answers(reading, p, d.packet) ==> Wire(d.to, d.from, Greeting(p)) in net')
  {
    var d := w.net[i];
    HandleSends(reading, w.live[d.to], d.from, d.packet, d.to);
    CutMembers(w.net, i);
  }

  lemma DeliverSound(reading: Reading, w: World, i: nat)
    requires Sound(reading, w) && i < |w.net| && w.net[i].to in w.live
    ensures Sound(reading, Step(reading, w, Deliver(i)))
  {
    var w', d := Step(reading, w, Deliver(i)), w.net[i];
    var p, q, k := w.live[d.to], w'.live[d.to], d.packet;
    assert PeerSound(reading, w, d.to) && WireSound(w, d);
    HandleUsers(reading, p, d.from, k);
    HandleRows(reading, p, d.from, k);
    if reading == Intended { HandleUnique(p, d.from, k); }
    DeliverNet(reading, w, i);
    assert PeerSound(reading, w', d.to);
    forall b | b in w'.live ensures PeerSound(reading, w', b) {
      if b != d.to { assert PeerSound(reading, w, b); }
    }
    forall x | x in w'.net ensures WireSound(w', x) {
      if x in w.net { assert WireSound(w, x); }
    }
  }

  // Enough for an event that changes no remaining peer and forgets nobody.
  lemma ShrinkSound(reading: Reading, w: World, w': World)
    requires Sound(reading, w) && w'.ever == w.ever
    requires forall a :: a in w'.live ==> a in w.live && w'.live[a] == w.live[a]
    requires forall d :: d in w'.net ==> d in w.net || WireSound(w, d)
    requires forall a :: a in w'.order <==> a in w'.live
    ensures Sound(reading, w')
  {}

  lemma LeaveSound(reading: Reading, w: World, a: Address)
    requires Sound(reading, w) && a in w.live
    ensures Sound(reading, Step(reading, w, Leave(a)))
  {
    var w', p := Step(reading, w, Leave(a)), w.live[a];
    assert PeerSound(reading, w, a) && Clean("bye");
    RoundTripIff(1, "bye", p.nickname, p.id);
    WithoutMembers(w.order, a);
    forall d | d in w'.net && d !in w.net ensures WireSound(w, d) {
      assert d.from == a && d.packet == Packet(1, "bye", p.nickname, p.id);
    }
    ShrinkSound(reading, w, w');
  }

  lemma SaySound(reading: Reading, w: World, e: Event)
    requires Sound(reading, w) && e.Say? && e.who in w.live
    ensures Sound(reading, Step(reading, w, e))
  {
    KindSurvives(2, e.text, w.live[e.who].nickname, w.live[e.who].id);
    ShrinkSound(reading, w, Step(reading, w, e));
  }

  lemma StepSound(reading: Reading, w: World, e: Event)
    requires Sound(reading, w)
    ensures Sound(reading, Step(reading, w, e))
  {
    match e
    case Join(_, _, _) => JoinSound(reading, w, e);
    case Say(a, _, _, _) => if a in w.live { SaySound(reading, w, e); }
    case Leave(a) => if a in w.live { LeaveSound(reading, w, a); }
    case Lose(i) =>
      if i < |w.net| {
        CutMembers(w.net, i);
        ShrinkSound(reading, w, Step(reading, w, e));
      }
    case Deliver(i) =>
      if i < |w.net| {
        if w.net[i].to in w.live {
          DeliverSound(reading, w, i);
        } else {
          CutMembers(w.net, i);
          ShrinkSound(reading, w, Step(reading, w, e));
        }
      }
  }

  // Contact soundness holds after every sequence of events, under both readings.
  lemma {:induction false} ExecSound(reading: Reading, events: seq<Event>)
    ensures Sound(reading, Exec(reading, events))
  {
    if events != [] {
      ExecSound(reading, events[..|events| - 1]);
      StepSound(reading, Exec(reading, events[..|events| - 1]), events[|events| - 1]);
    }
  }

  // ---------- who is addressed by what ----------

  lemma GoodbyeText(nickname: string, id: string)
    requires Clean(nickname) && Clean(id)
    ensures Parse(Print(1, "bye", nickname, id)) == Packet(1, "bye", nickname, id)
  {
    assert Clean("bye");
    RoundTripIff(1, "bye", nickname, id);
  }

  // Who leaves is gone, and a goodbye with his id is on its way to everybody else.
  lemma LeaveTellsAll(reading: Reading, w: World, a: Address, b: Address)
    requires Sound(reading, w) && a in w.live && b in w.live && a != b
    ensures var w' := Step(reading, w, Leave(a));
            && a !in w'.live && b in w'.live && w'.live[b] == w.live[b]
            && Wire(a, b, Packet(1, "bye", w.live[a].nickname, w.live[a].id)) in w'.net
  {
    assert PeerSound(reading, w, a);
    GoodbyeText(w.live[a].nickname, w.live[a].id);
    WithoutMembers(w.order, a);
  }

  // Who joins asks everybody, under his name and id.
  lemma JoinTellsAll(reading: Reading, w: World, e: Event, b: Address)
    requires Sound(reading, w) && e.Join? && Step(reading, w, e) != w && b in w.live
    ensures var w' := Step(reading, w, e);
            && e.at in w'.live && w'.live[e.at] == Peer(e.id, e.nickname, [], [], [])
            && Wire(e.at, b, Packet(1, "whos here", e.nickname, e.id)) in w'.net
  {
    JoinNet(reading, w, e);
    assert Wire(e.at, b, Hello(e)) in Broadcast(w.order + [e.at], e.at, Hello(e));
  }

  // A lost datagram is the only one that is gone; one that arrives is gone and may
  // leave one behind.
  lemma DatagramsKept(reading: Reading, w: World, i: nat)
    requires Sound(reading, w) && i < |w.net|
    ensures multiset(Step(reading, w, Lose(i)).net) + multiset{w.net[i]} == multiset(w.net)
    ensures Step(reading, w, Lose(i)).live == w.live
    ensures multiset(w.net) <= multiset(Step(reading, w, Deliver(i)).net) + multiset{w.net[i]}
    ensures |Step(reading, w, Deliver(i)).net| <= |w.net|
  {
    assert w.net == w.net[..i] + [w.net[i]] + w.net[i + 1..];
    if w.net[i].to in w.live { DeliverNet(reading, w, i); }
  }

  // A text typed goes to the one chosen, or to everybody present; nobody's lists change.
  lemma SayAddresses(reading: Reading, w: World, a: Address, to: Address, toAll: bool, text: string)
    requires Sound(reading, w) && a in w.live && Clean(text)
    ensures var w', k := Step(reading, w, Say(a, to, toAll, text)), Packet(2, text, w.live[a].nickname, w.live[a].id);
            && w'.live == w.live && w.net <= w'.net
            && (!toAll ==> w'.net == w.net + [Wire(a, to, k)])
            && (toAll ==> forall b :: b in w.live ==> Wire(a, b, k) in w'.net)
            && (forall d :: d in w'.net && d !in w.net ==>
                  d.from == a && d.packet == k && if toAll then d.to in w.live else d.to == to)
  {
    assert PeerSound(reading, w, a);
    RoundTripIff(2, text, w.live[a].nickname, w.live[a].id);
  }

  // When it arrives at somebody else it is shown there, under the sender's name and id.
  lemma SaidIsShown(reading: Reading, w: World, i: nat, a: Address, text: string)
    requires Sound(reading, w) && i < |w.net| && w.net[i].to in w.live && a in w.live && a != w.net[i].to
    requires w.net[i] == Wire(a, w.net[i].to, Packet(2, text, w.live[a].nickname, w.live[a].id))
    ensures var b, w' := w.net[i].to, Step(reading, w, Deliver(i));
            var before := w.live[b].messages;
            && w'.live.Keys == w.live.Keys && (forall c :: c in w.live && c != b ==> w'.live[c] == w.live[c])
            && w'.live[b].messages
               == before + ["<font color=\"blue\">Принято от " + w.live[a].nickname + " (" + w.live[a].id + "):",
                            "<font color=\"black\">" + text + "</font>"]
  {
    var b := w.net[i].to;
    assert PeerSound(reading, w, a) && PeerSound(reading, w, b);
    TextHandled(reading, w.live[b], a, text, w.live[a].nickname, w.live[a].id);
    MessagesTwo(Handle(reading, w.live[b], a, w.net[i].packet).0.messages, w.live[b].messages);
  }

  lemma MessagesTwo(after: seq<string>, before: seq<string>)
    requires |after| == |before| + 2 && before <= after
    ensures after == before + [after[|before|], after[|before| + 1]]
  {}
}
