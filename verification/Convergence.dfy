// What discovery achieves when no datagram is lost: among the peers that are
// present, for all of them if nobody leaves, and for the loop as written.

module Convergence {
  import opened Basics
  import opened Chat
  import opened ChatCodec
  import opened Sequences
  import opened Discovery

  ghost predicate Reliable(events: seq<Event>) {
    forall i :: 0 <= i < |events| ==> !events[i].Leave? && !events[i].Lose?
  }

  ghost predicate Joined(w: World, a: Address) {
    exists id :: id in w.ever && w.ever[id].address == a
  }

  // Nothing is lost, and nobody joins from an address that somebody else has left.
  ghost predicate Orderly(w: World, e: Event) {
    !e.Lose? && (e.Join? ==> e.at in w.live || !Joined(w, e.at))
  }

  ghost predicate Lossless(reading: Reading, events: seq<Event>) {
    events != [] ==>
      var before := events[..|events| - 1];
      Lossless(reading, before) && Orderly(Exec(reading, before), events[|events| - 1])
  }

  // No discovery datagram is in flight.
  ghost predicate Quiet(w: World) {
    forall d :: d in w.net ==> d.packet.kind != 1
  }

  ghost predicate ListsPeer(w: World, a: Address, b: Address)
    requires a in w.live && b in w.live
  {
    Lists(w.live[a], w.live[b].id)
  }

  ghost predicate Greeted(w: World, a: Address, b: Address) {
    exists d :: d in w.net && d.from == a && d.to == b && d.packet.kind == 1 && d.packet.message == "hi"
  }

  ghost predicate Asked(w: World, a: Address, b: Address) {
    exists d :: d in w.net && d.from == a && d.to == b && Asks(d.packet)
  }

  // ---------- who is addressed, and by whom ----------

  // Every address is used by one peer only, discovery runs between those who
  // joined, and goodbyes are from those who left.
  ghost predicate Closed(w: World) {
    && (forall id :: id in w.ever && w.ever[id].address in w.live ==> w.live[w.ever[id].address].id == id)
    && (forall i, j :: i in w.ever && j in w.ever && w.ever[i].address == w.ever[j].address ==> i == j)
    && (forall d :: d in w.net && d.packet.kind == 1 ==> Travels(w, d))
    && Distinct(w.order)
  }

  ghost predicate Travels(w: World, d: Wire) {
    Joined(w, d.to) && (Discovers(d.packet) || (d.packet.message == "bye" && d.from !in w.live))
  }

  ghost predicate Good(reading: Reading, w: World) { Sound(reading, w) && Closed(w) }

  ghost predicate NobodyLeft(w: World) {
    forall id :: id in w.ever ==> w.ever[id].address in w.live
  }

  lemma DistinctIds(reading: Reading, w: World, a: Address, b: Address)
    requires Good(reading, w) && a in w.live && b in w.live && a != b
    ensures w.live[a].id != w.live[b].id
  {
    assert PeerSound(reading, w, a) && PeerSound(reading, w, b);
  }

  lemma DistinctSnoc<T(!new)>(s: seq<T>, x: T)
    requires Distinct(s) && x !in s
    ensures Distinct(s + [x])
  {
    forall i | 0 <= i < |s| ensures s[i] != x {
      assert s[i] in s;
    }
  }

  lemma JoinAddresses(reading: Reading, w: World, e: Event)
    requires Good(reading, w) && e.Join? && Orderly(w, e) && Step(reading, w, e) != w
    ensures var w' := Step(reading, w, e);
            && (forall id :: id in w'.ever && w'.ever[id].address in w'.live ==>
                  w'.live[w'.ever[id].address].id == id)
            && (forall i, j :: i in w'.ever && j in w'.ever && w'.ever[i].address == w'.ever[j].address ==> i == j)
  {}

  lemma JoinJoins(reading: Reading, w: World, e: Event)
    requires e.Join? && Step(reading, w, e) != w
    ensures var w' := Step(reading, w, e); Joined(w', e.at) && (forall a :: Joined(w, a) ==> Joined(w', a))
  {
    var w' := Step(reading, w, e);
    assert e.id in w'.ever && w'.ever[e.id].address == e.at;
    forall a | Joined(w, a) ensures Joined(w', a) {
      var id :| id in w.ever && w.ever[id].address == a;
      assert id in w'.ever && w'.ever[id].address == a;
    }
  }

  lemma JoinClosed(reading: Reading, w: World, e: Event)
    requires Good(reading, w) && e.Join? && Orderly(w, e) && Step(reading, w, e) != w
    ensures Closed(Step(reading, w, e))
  {
    var w' := Step(reading, w, e);
    JoinNet(reading, w, e);
    JoinAddresses(reading, w, e);
    DistinctSnoc(w.order, e.at);
    forall d | d in w'.net && d.packet.kind == 1 ensures Travels(w', d) {
      JoinTravels(reading, w, e, d);
    }
  }

  lemma JoinTravels(reading: Reading, w: World, e: Event, d: Wire)
    requires Good(reading, w) && e.Join? && Orderly(w, e) && Step(reading, w, e) != w
    requires d in Step(reading, w, e).net && d.packet.kind == 1
    ensures Travels(Step(reading, w, e), d)
  {
    JoinNet(reading, w, e);
    JoinJoins(reading, w, e);
    if d in w.net {
      assert Travels(w, d) && WireSound(w, d);
    } else if d.to != e.at {
      LiveJoined(reading, w, d.to);
    }
  }

  lemma LiveJoined(reading: Reading, w: World, a: Address)
    requires Sound(reading, w) && a in w.live
    ensures Joined(w, a)
  {
    assert PeerSound(reading, w, a);
    assert w.live[a].id in w.ever;
  }

  lemma DeliverClosed(reading: Reading, w: World, i: nat)
    requires Good(reading, w) && i < |w.net| && w.net[i].to in w.live
    ensures Closed(Step(reading, w, Deliver(i)))
  {
    var d, w' := w.net[i], Step(reading, w, Deliver(i));
    assert PeerSound(reading, w, d.to);
    DeliverNet(reading, w, i);
    HandleUsers(reading, w.live[d.to], d.from, d.packet);
    forall x | x in w'.net && x.packet.kind == 1 ensures Travels(w', x) {
      if x in w.net {
        assert Travels(w, x);
      } else {
        assert WireSound(w, d) && d.packet.id in w.ever;
      }
    }
  }

  lemma LeaveClosed(reading: Reading, w: World, a: Address)
    requires Good(reading, w) && a in w.live
    ensures Closed(Step(reading, w, Leave(a)))
  {
    var w', p := Step(reading, w, Leave(a)), w.live[a];
    assert PeerSound(reading, w, a) && Clean("bye");
    RoundTripIff(1, "bye", p.nickname, p.id);
    WithoutDistinct(w.order, a);
    forall x | x in w'.net && x.packet.kind == 1 ensures Travels(w', x) {
      if x in w.net {
        assert Travels(w, x);
      } else {
        assert x.to in w.order;
        LiveJoined(reading, w, x.to);
      }
    }
  }

  lemma StepGood(reading: Reading, w: World, e: Event)
    requires Good(reading, w) && Orderly(w, e)
    ensures Good(reading, Step(reading, w, e))
  {
    StepSound(reading, w, e);
    match e
    case Join(_, _, _) => if Step(reading, w, e) != w { JoinClosed(reading, w, e); }
    case Leave(a) => if a in w.live { LeaveClosed(reading, w, a); }
    case Say(a, _, _, text) =>
      if a in w.live {
        KindSurvives(2, text, w.live[a].nickname, w.live[a].id);
      }
    case Deliver(i) =>
      if i < |w.net| {
        if w.net[i].to in w.live {
          DeliverClosed(reading, w, i);
        } else {
          CutMembers(w.net, i);
        }
      }
  }

  lemma StepNobodyLeft(reading: Reading, w: World, e: Event)
    requires NobodyLeft(w) && !e.Leave?
    ensures NobodyLeft(Step(reading, w, e))
  {}

  // ---------- how one delivery changes who lists whom ----------

  // Only the receiver's list changes, only by the sender, and a discovery
  // datagram from somebody else always puts the sender on it.
  lemma DeliverLists(reading: Reading, w: World, i: nat, a: Address, b: Address)
    requires Good(reading, w) && i < |w.net| && w.net[i].to in w.live
    requires a in w.live && b in w.live && a != b
    ensures var d, w' := w.net[i], Step(reading, w, Deliver(i));
            && w'.live.Keys == w.live.Keys
            && (ListsPeer(w, a, b) ==> ListsPeer(w', a, b))
            && (ListsPeer(w', a, b) && !ListsPeer(w, a, b) ==> a == d.to && b == d.from && d.packet.kind == 1)
            && (a == d.to && b == d.from && d.packet.kind == 1 ==> ListsPeer(w', a, b))
  {
    var d, w' := w.net[i], Step(reading, w, Deliver(i));
    var p, k := w.live[d.to], d.packet;
    HandleUsers(reading, p, d.from, k);
    assert w'.live[b].id == w.live[b].id;
    if a == d.to {
      DistinctIds(reading, w, a, b);
      if k.kind == 1 {
        assert PeerSound(reading, w, b) && WireSound(w, d) && Travels(w, d);
        assert k.id == w.live[b].id <==> d.from == b;
        if k.message == "bye" {
          GoodbyeKeeps(reading, p, k.id, w.live[b].id);
        } else {
          DiscoveryLists(reading, p, d.from, k, w.live[b].id);
        }
      }
    }
  }

  // A discovery packet lists its sender, and changes nothing for others.
  lemma DiscoveryLists(reading: Reading, p: Peer, from: Address, k: Packet, id: string)
    requires Discovers(k) && id != p.id
    ensures Lists(Handle(reading, p, from, k).0, id) <==> Lists(p, id) || k.id == id
  {
    var q := Handle(reading, p, from, k).0;
    if k.id != p.id {
      AddLists(reading, p, ChatUser(from, k.nickname, k.id), Asks(k));
      if Lists(p, id) {
        var j :| 0 <= j < |p.users| && p.users[j].programId == id;
        assert q.users[j] == p.users[j];
      }
    }
  }

  // What one delivery does to the discovery datagrams in flight.
  lemma DeliverFlights(reading: Reading, w: World, i: nat, a: Address, b: Address)
    requires Good(reading, w) && i < |w.net| && w.net[i].to in w.live
    ensures var d, w' := w.net[i], Step(reading, w, Deliver(i));
            var answered := Answers(reading, w.live[d.to], d.packet);
            var passed := d.from == a && d.to == b && d.packet.kind == 1;
            && (Greeted(w', a, b) ==> Greeted(w, a, b) || (answered && a == d.to && b == d.from))
            && (answered && a == d.to && b == d.from ==> Greeted(w', a, b))
            && (Greeted(w, a, b) ==> Greeted(w', a, b) || passed)
            && (Asked(w, a, b) ==> Asked(w', a, b) || passed)
            && (Asked(w', a, b) ==> Asked(w, a, b))
  {
    var d, w' := w.net[i], Step(reading, w, Deliver(i));
    assert PeerSound(reading, w, d.to);
    DeliverNet(reading, w, i);
    if Greeted(w, a, b) {
      var x :| x in w.net && x.from == a && x.to == b && x.packet.kind == 1 && x.packet.message == "hi";
      if x != d { assert x in w'.net; }
    }
    if Asked(w, a, b) {
      var x :| x in w.net && x.from == a && x.to == b && Asks(x.packet);
      if x != d { assert x in w'.net; }
    }
  }

  // ---------- the pair invariants ----------

  ghost predicate GreetingMeansListed(w: World) {
    forall a, b :: a in w.live && b in w.live && a != b && Greeted(w, a, b) ==> ListsPeer(w, a, b)
  }

  ghost predicate EveryPairMeets(w: World) {
    forall a, b :: a in w.live && b in w.live && a != b ==>
      ListsPeer(w, a, b) || ListsPeer(w, b, a) || Asked(w, a, b) || Asked(w, b, a)
  }

  // "a lists b implies b lists a, or a greeting from a to b is in flight".
  ghost predicate ListingIsReturned(w: World) {
    forall a, b :: a in w.live && b in w.live && a != b && ListsPeer(w, a, b) ==> ListsPeer(w, b, a) || Greeted(w, a, b)
  }

  ghost predicate Met(reading: Reading, w: World) {
    Good(reading, w) && GreetingMeansListed(w) && EveryPairMeets(w)
  }

  // A newcomer asks everybody, and greets nobody yet.
  lemma JoinFlights(reading: Reading, w: World, e: Event, a: Address, b: Address)
    requires Good(reading, w) && e.Join? && Orderly(w, e) && Step(reading, w, e) != w
    ensures var w' := Step(reading, w, e);
            && (Greeted(w', a, b) <==> Greeted(w, a, b))
            && (Greeted(w, a, b) ==> a != e.at && b != e.at)
            && (Asked(w, a, b) ==> Asked(w', a, b))
            && (a == e.at && b in w'.live ==> Asked(w', a, b))
            && (Asked(w', a, b) && a != e.at ==> Asked(w, a, b))
  {
    var w' := Step(reading, w, e);
    JoinNet(reading, w, e);
    var hello := Broadcast(w'.order, e.at, Hello(e));
    assert forall x :: x in w'.net <==> x in w.net || x in hello;
    if a == e.at && b in w'.live {
      assert Wire(a, b, Hello(e)) in hello;
    }
    if Greeted(w, a, b) {
      var x :| x in w.net && x.from == a && x.to == b && x.packet.kind == 1 && x.packet.message == "hi";
      assert WireSound(w, x) && Travels(w, x);
    }
  }

  // It lists nobody and nobody lists it.
  lemma JoinLists(reading: Reading, w: World, e: Event, a: Address, b: Address)
    requires Good(reading, w) && e.Join? && Step(reading, w, e) != w
    ensures var w' := Step(reading, w, e);
            && w'.live.Keys == w.live.Keys + {e.at} && e.at !in w.live
            && (a in w.live && b in w.live ==> ListsPeer(w', a, b) == ListsPeer(w, a, b))
            && (a in w'.live && b in w'.live && (a == e.at || b == e.at) ==> !ListsPeer(w', a, b))
  {
    if a in w.live {
      assert PeerSound(reading, w, a);
      forall j | 0 <= j < |w.live[a].users| ensures w.live[a].users[j].programId != e.id {
        assert Known(w, w.live[a].users[j]);
      }
    }
  }

  // Who leaves tells everybody; between those who stay nothing changes.
  lemma LeaveFlights(reading: Reading, w: World, e: Event, a: Address, b: Address)
    requires Good(reading, w) && e.Leave?
    requires a in Step(reading, w, e).live && b in Step(reading, w, e).live
    ensures var w' := Step(reading, w, e);
            && a in w.live && b in w.live && w'.live[a] == w.live[a] && w'.live[b] == w.live[b]
            && (Greeted(w', a, b) <==> Greeted(w, a, b)) && (Asked(w', a, b) <==> Asked(w, a, b))
  {
    var w' := Step(reading, w, e);
    if e.who in w.live {
      var p := w.live[e.who];
      assert PeerSound(reading, w, e.who) && Clean("bye");
      RoundTripIff(1, "bye", p.nickname, p.id);
      assert forall x :: x in w'.net && x !in w.net ==> x.packet == Packet(1, "bye", p.nickname, p.id);
    }
  }

  lemma StepMet(reading: Reading, w: World, e: Event)
    requires Met(reading, w) && Orderly(w, e)
    ensures Met(reading, Step(reading, w, e))
  {
    var w' := Step(reading, w, e);
    StepGood(reading, w, e);
    forall a, b | a in w'.live && b in w'.live && a != b
      ensures Greeted(w', a, b) ==> ListsPeer(w', a, b)
      ensures ListsPeer(w', a, b) || ListsPeer(w', b, a) || Asked(w', a, b) || Asked(w', b, a)
    {
      StepMeets(reading, w, e, a, b);
    }
  }

  lemma StepMeets(reading: Reading, w: World, e: Event, a: Address, b: Address)
    requires Met(reading, w) && Orderly(w, e) && a != b
    requires a in Step(reading, w, e).live && b in Step(reading, w, e).live
    ensures var w' := Step(reading, w, e);
            && (Greeted(w', a, b) ==> ListsPeer(w', a, b))
            && (ListsPeer(w', a, b) || ListsPeer(w', b, a) || Asked(w', a, b) || Asked(w', b, a))
  {
    var w' := Step(reading, w, e);
    if e.Join? && w' != w {
      JoinFlights(reading, w, e, a, b);
      JoinFlights(reading, w, e, b, a);
      JoinLists(reading, w, e, a, b);
      JoinLists(reading, w, e, b, a);
    } else if e.Leave? {
      LeaveFlights(reading, w, e, a, b);
      LeaveFlights(reading, w, e, b, a);
    } else if e.Deliver? && e.i < |w.net| && w.net[e.i].to in w.live {
      DeliverFlights(reading, w, e.i, a, b);
      DeliverFlights(reading, w, e.i, b, a);
      DeliverLists(reading, w, e.i, a, b);
      DeliverLists(reading, w, e.i, b, a);
    } else {
      NothingHappens(reading, w, e, a, b);
      NothingHappens(reading, w, e, b, a);
    }
  }

  // Chat text, and datagrams nobody receives, leave discovery as it was.
  lemma NothingHappens(reading: Reading, w: World, e: Event, a: Address, b: Address)
    requires Good(reading, w) && a in w.live && b in w.live
    requires match e
             case Join(_, _, _) => Step(reading, w, e) == w
             case Deliver(i) => i < |w.net| ==> w.net[i].to !in w.live
             case Say(_, _, _, _) => true
             case _ => false
    ensures var w' := Step(reading, w, e);
            && w'.live == w.live && w'.order == w.order
            && (Greeted(w', a, b) <==> Greeted(w, a, b)) && (Asked(w', a, b) <==> Asked(w, a, b))
  {
    match e
    case Say(who, _, _, text) =>
      if who in w.live {
        KindSurvives(2, text, w.live[who].nickname, w.live[who].id);
      }
    case Deliver(i) =>
      if i < |w.net| {
        CutMembers(w.net, i);
      }
    case Join(_, _, _) =>
  }

  lemma {:induction false} ExecMet(reading: Reading, events: seq<Event>)
    requires Lossless(reading, events)
    ensures Met(reading, Exec(reading, events))
  {
    if events != [] {
      ExecMet(reading, events[..|events| - 1]);
      StepMet(reading, Exec(reading, events[..|events| - 1]), events[|events| - 1]);
    }
  }

  // Where nobody leaves, nobody can join from a place that was left.
  lemma {:induction false} ReliableIsLossless(reading: Reading, events: seq<Event>)
    requires Reliable(events)
    ensures Lossless(reading, events) && NobodyLeft(Exec(reading, events))
  {
    if events != [] {
      var before, e := events[..|events| - 1], events[|events| - 1];
      ReliableIsLossless(reading, before);
      StepNobodyLeft(reading, Exec(reading, before), e);
    }
  }

  // ---------- every listing is returned, or about to be ----------

  // With at most two participants a non-empty list already names the other one.
  lemma OnlyOther(reading: Reading, w: World, a: Address, b: Address)
    requires Good(reading, w) && NobodyLeft(w) && |w.order| <= 2
    requires a in w.live && b in w.live && a != b && w.live[a].users != []
    ensures ListsPeer(w, a, b)
  {
    var u := w.live[a].users[0];
    assert PeerSound(reading, w, a) && u in w.live[a].users;
    var c := u.address;
    assert Known(w, u) && c in w.live && w.live[c].id == u.programId;
    assert a in w.order && b in w.order && c in w.order;
    assert c == b;
  }

  ghost predicate TwoAtMost(w: World) { NobodyLeft(w) && |w.order| <= 2 }

  lemma StepReturns(reading: Reading, w: World, e: Event, a: Address, b: Address)
    requires Met(reading, w) && ListingIsReturned(w) && Orderly(w, e) && a != b
    requires reading == Intended || (TwoAtMost(Step(reading, w, e)) && TwoAtMost(w))
    requires a in Step(reading, w, e).live && b in Step(reading, w, e).live
    requires ListsPeer(Step(reading, w, e), a, b)
    ensures var w' := Step(reading, w, e); ListsPeer(w', b, a) || Greeted(w', a, b)
  {
    var w' := Step(reading, w, e);
    if e.Join? && w' != w {
      JoinFlights(reading, w, e, a, b);
      JoinLists(reading, w, e, a, b);
      JoinLists(reading, w, e, b, a);
    } else if e.Leave? {
      LeaveFlights(reading, w, e, a, b);
    } else if e.Deliver? && e.i < |w.net| && w.net[e.i].to in w.live {
      DeliverFlights(reading, w, e.i, a, b);
      DeliverLists(reading, w, e.i, a, b);
      DeliverLists(reading, w, e.i, b, a);
      if !ListsPeer(w, a, b) {
        NewListing(reading, w, e.i, a, b);
      }
    } else {
      NothingHappens(reading, w, e, a, b);
    }
  }

  // A first listing of the sender comes with a greeting, or in return for one.
  lemma NewListing(reading: Reading, w: World, i: nat, a: Address, b: Address)
    requires Met(reading, w) && (reading == Intended || TwoAtMost(w))
    requires a in w.live && b in w.live && a != b && !ListsPeer(w, a, b)
    requires i < |w.net| && w.net[i].to == a && w.net[i].from == b && w.net[i].packet.kind == 1
    ensures Answers(reading, w.live[a], w.net[i].packet) || ListsPeer(w, b, a)
  {
    var d := w.net[i];
    DistinctIds(reading, w, a, b);
    assert PeerSound(reading, w, b) && WireSound(w, d) && Travels(w, d);
    assert d.packet.id == w.live[b].id;
    ListsIsPosition(w.live[a], d.packet.id);
    if Asks(d.packet) {
      if w.live[a].users != [] && reading == Literal { OnlyOther(reading, w, a, b); }
    } else {
      assert d.packet.message == "hi";
      assert Greeted(w, b, a);
    }
  }

  lemma StepReturned(reading: Reading, w: World, e: Event)
    requires Met(reading, w) && ListingIsReturned(w) && Orderly(w, e)
    requires reading == Intended || (TwoAtMost(Step(reading, w, e)) && TwoAtMost(w))
    ensures ListingIsReturned(Step(reading, w, e))
  {
    var w' := Step(reading, w, e);
    forall a, b | a in w'.live && b in w'.live && a != b && ListsPeer(w', a, b)
      ensures ListsPeer(w', b, a) || Greeted(w', a, b)
    {
      StepReturns(reading, w, e, a, b);
    }
  }

  lemma {:induction false} ExecReturns(reading: Reading, events: seq<Event>)
    requires Lossless(reading, events)
    requires reading == Intended || (Reliable(events) && |Exec(reading, events).order| <= 2)
    ensures ListingIsReturned(Exec(reading, events))
  {
    if events != [] {
      var before, e := events[..|events| - 1], events[|events| - 1];
      if reading == Literal {
        OrderGrows(reading, Exec(reading, before), e);
        ReliableIsLossless(reading, before);
        ReliableIsLossless(reading, events);
      }
      ExecReturns(reading, before);
      ExecMet(reading, before);
      StepReturned(reading, Exec(reading, before), e);
    }
  }

  lemma OrderGrows(reading: Reading, w: World, e: Event)
    requires !e.Leave?
    ensures w.order <= Step(reading, w, e).order
  {}

  // ---------- convergence ----------

  ghost predicate AllListed(w: World) {
    forall a, b :: a in w.live && b in w.live && a != b ==> ListsPeer(w, a, b)
  }

  // The contact list is exactly everybody else, once each.
  ghost predicate ContactsComplete(w: World, a: Address)
    requires a in w.live
  {
    && (forall u :: u in w.live[a].users <==>
          exists b :: b in w.live && b != a && u == Profile(b, w.live[b]))
    && |w.live[a].users| == |w.live| - 1
  }

  lemma QuietAllListed(reading: Reading, w: World)
    requires Met(reading, w) && ListingIsReturned(w) && Quiet(w)
    ensures AllListed(w)
  {}

  lemma ListedIsProfile(reading: Reading, w: World, a: Address, u: ChatUser)
    requires Good(reading, w) && NobodyLeft(w) && AllListed(w) && a in w.live
    ensures u in w.live[a].users <==> exists b :: b in w.live && b != a && u == Profile(b, w.live[b])
  {
    assert PeerSound(reading, w, a);
    if u in w.live[a].users {
      var b := u.address;
      assert Known(w, u) && b in w.live && w.live[b].id == u.programId;
      assert PeerSound(reading, w, b);
    }
    if exists b :: b in w.live && b != a && u == Profile(b, w.live[b]) {
      var b :| b in w.live && b != a && u == Profile(b, w.live[b]);
      assert PeerSound(reading, w, b) && ListsPeer(w, a, b);
      var j :| 0 <= j < |w.live[a].users| && w.live[a].users[j].programId == w.live[b].id;
      assert w.live[a].users[j] in w.live[a].users;
    }
  }

  // Duplicate-free contacts that are exactly the profiles of `others`.
  lemma CountProfiles(w: World, users: seq<ChatUser>, others: set<Address>)
    requires others <= w.live.Keys && UniqueIds(users)
    requires forall u :: u in users <==> exists b :: b in others && u == Profile(b, w.live[b])
    ensures |users| == |others|
  {
    var addresses := seq(|users|, i requires 0 <= i < |users| => users[i].address);
    forall x ensures x in others <==> x in addresses {
      if x in others {
        var u := Profile(x, w.live[x]);
        assert u in users;
        var i :| 0 <= i < |users| && users[i] == u;
        assert addresses[i] == x;
      }
      if x in addresses {
        var i :| 0 <= i < |users| && addresses[i] == x;
        assert users[i] in users;
      }
    }
    forall i, j | 0 <= i < j < |users| ensures addresses[i] != addresses[j] {
      assert users[i] in users && users[j] in users;
    }
    DistinctSize(addresses, others);
  }

  lemma CompleteOnce(w: World, a: Address)
    requires Good(Intended, w) && NobodyLeft(w) && AllListed(w) && a in w.live
    ensures ContactsComplete(w, a)
  {
    var users, others := w.live[a].users, w.live.Keys - {a};
    assert PeerSound(Intended, w, a);
    forall u ensures u in users <==> exists b :: b in others && u == Profile(b, w.live[b]) {
      ListedIsProfile(Intended, w, a, u);
    }
    CountProfiles(w, users, others);
    assert |w.live.Keys| == |others| + 1;
  }

  // Whatever the order of joins, departures and deliveries, once discovery has gone
  // quiet those who are present list each other.
  lemma PresentPeersConverge(events: seq<Event>)
    requires Lossless(Intended, events)
    ensures var w := Exec(Intended, events); Quiet(w) ==> AllListed(w)
  {
    var w := Exec(Intended, events);
    if Quiet(w) {
      ExecMet(Intended, events);
      ExecReturns(Intended, events);
      QuietAllListed(Intended, w);
    }
  }

  // If nobody has left, every contact list is exactly everybody else.
  lemma DiscoveryConverges(events: seq<Event>)
    requires Reliable(events)
    ensures var w := Exec(Intended, events);
            Quiet(w) ==> forall a :: a in w.live ==> ContactsComplete(w, a)
  {
    var w := Exec(Intended, events);
    ReliableIsLossless(Intended, events);
    PresentPeersConverge(events);
    if Quiet(w) {
      ExecMet(Intended, events);
      forall a | a in w.live ensures ContactsComplete(w, a) {
        CompleteOnce(w, a);
      }
    }
  }

  // ---------- and it does go quiet ----------

  function Weight(net: seq<Wire>): nat {
    if net == [] then 0 else Weight(net[..|net| - 1]) + if Asks(net[|net| - 1].packet) then 2 else 1
  }

  lemma {:induction false} WeightConcat(a: seq<Wire>, b: seq<Wire>)
    ensures Weight(a + b) == Weight(a) + Weight(b)
  {
    if b == [] {
      assert a + b == a;
    } else {
      WeightConcat(a, b[..|b| - 1]);
      assert (a + b)[..|a + b| - 1] == a + b[..|b| - 1];
    }
  }

  // Every delivery uses up weight, an answer included: a world with weight n is
  // out of datagrams after at most n deliveries.
  lemma DeliveryUsesWeight(reading: Reading, w: World, i: nat)
    requires Sound(reading, w) && i < |w.net|
    ensures Weight(Step(reading, w, Deliver(i)).net) < Weight(w.net)
  {
    var d := w.net[i];
    var left, right := w.net[..i], w.net[i + 1..];
    assert w.net == left + [d] + right;
    WeightConcat(left + [d], right);
    WeightConcat(left, [d]);
    WeightConcat(left, right);
    assert Weight([d]) == if Asks(d.packet) then 2 else 1;
    if d.to in w.live {
      assert PeerSound(reading, w, d.to);
      DeliverNet(reading, w, i);
      if Answers(reading, w.live[d.to], d.packet) {
        var g := Wire(d.to, d.from, Greeting(w.live[d.to]));
        assert Weight([g]) == 1;
        WeightConcat(Cut(w.net, i), [g]);
      } else {
        assert Step(reading, w, Deliver(i)).net == Cut(w.net, i);
      }
    }
  }

  // Delivering whatever the network picks, until nothing is left.
  function DeliverAll(reading: Reading, w: World, picks: seq<nat>): World
    decreases |picks|
  {
    if picks == [] || w.net == [] then w
    else DeliverAll(reading, Step(reading, w, Deliver(picks[0] % |w.net|)), picks[1..])
  }

  lemma {:induction false} DeliveriesRunOut(reading: Reading, w: World, picks: seq<nat>)
    requires Sound(reading, w) && |picks| >= Weight(w.net)
    ensures DeliverAll(reading, w, picks).net == []
    decreases |picks|
  {
    if w.net != [] {
      var i := picks[0] % |w.net|;
      DeliveryUsesWeight(reading, w, i);
      StepSound(reading, w, Deliver(i));
      DeliveriesRunOut(reading, Step(reading, w, Deliver(i)), picks[1..]);
    }
  }

  lemma {:induction false} DeliveriesKeep(w: World, picks: seq<nat>)
    requires Met(Intended, w) && ListingIsReturned(w)
    ensures Met(Intended, DeliverAll(Intended, w, picks)) && ListingIsReturned(DeliverAll(Intended, w, picks))
    ensures NobodyLeft(w) ==> NobodyLeft(DeliverAll(Intended, w, picks))
    decreases |picks|
  {
    if picks != [] && w.net != [] {
      var e := Deliver(picks[0] % |w.net|);
      if NobodyLeft(w) { StepNobodyLeft(Intended, w, e); }
      StepMet(Intended, w, e);
      StepReturned(Intended, w, e);
      DeliveriesKeep(Step(Intended, w, e), picks[1..]);
    }
  }

  // After any run without losses it is enough to deliver what is in flight, in any
  // order: those who are present list each other then.
  lemma PresentPeersComplete(events: seq<Event>, picks: seq<nat>)
    requires Lossless(Intended, events) && |picks| >= Weight(Exec(Intended, events).net)
    ensures var w := DeliverAll(Intended, Exec(Intended, events), picks);
            w.net == [] && AllListed(w) && Good(Intended, w)
            && (NobodyLeft(Exec(Intended, events)) ==> NobodyLeft(w))
  {
    ExecMet(Intended, events);
    ExecReturns(Intended, events);
    DeliveriesRunOut(Intended, Exec(Intended, events), picks);
    DeliveriesKeep(Exec(Intended, events), picks);
    QuietAllListed(Intended, DeliverAll(Intended, Exec(Intended, events), picks));
  }

  // If nobody has left, every contact list is complete.
  lemma DiscoveryCompletes(events: seq<Event>, picks: seq<nat>)
    requires Reliable(events) && |picks| >= Weight(Exec(Intended, events).net)
    ensures var w := DeliverAll(Intended, Exec(Intended, events), picks);
            w.net == [] && forall a :: a in w.live ==> ContactsComplete(w, a)
  {
    var w := DeliverAll(Intended, Exec(Intended, events), picks);
    ReliableIsLossless(Intended, events);
    PresentPeersComplete(events, picks);
    forall a | a in w.live ensures ContactsComplete(w, a) {
      CompleteOnce(w, a);
    }
  }

  // ---------- who is listed, present or not ----------

  // The last discovery datagram from this id that reached a, since a joined, was no
  // goodbye.
  ghost predicate LastWordWasHello(events: seq<Event>, a: Address, id: string) {
    events != [] &&
    var before, e := events[..|events| - 1], events[|events| - 1];
    var w := Exec(Intended, before);
    if e.Deliver? && e.i < |w.net| && w.net[e.i].to == a && a in w.live
       && w.net[e.i].packet.kind == 1 && w.net[e.i].packet.id == id
       && (Discovers(w.net[e.i].packet) || w.net[e.i].packet.message == "bye")
    then Discovers(w.net[e.i].packet)
    else a in w.live && LastWordWasHello(before, a, id)
  }

  // In every run, losses and departures included: a lists an id exactly if that is
  // so. A departed peer stays listed exactly where its goodbye was lost, or came
  // before one of its other datagrams.
  lemma {:induction false} ListedIffLastWord(events: seq<Event>, a: Address, id: string)
    requires a in Exec(Intended, events).live && id != Exec(Intended, events).live[a].id
    ensures Lists(Exec(Intended, events).live[a], id) <==> LastWordWasHello(events, a, id)
  {
    var before, e := events[..|events| - 1], events[|events| - 1];
    var w, w' := Exec(Intended, before), Exec(Intended, events);
    if a in w.live {
      if e.Deliver? && e.i < |w.net| && w.net[e.i].to == a {
        HandleUsers(Intended, w.live[a], w.net[e.i].from, w.net[e.i].packet);
        ListedIffLastWord(before, a, id);
        DeliveredWord(w.live[a], w.net[e.i].from, w.net[e.i].packet, id);
      } else {
        ListedIffLastWord(before, a, id);
      }
    }
  }

  lemma DeliveredWord(p: Peer, from: Address, k: Packet, id: string)
    requires id != p.id
    ensures Lists(Handle(Intended, p, from, k).0, id)
            <==> if k.kind == 1 && k.id == id && (Discovers(k) || k.message == "bye") then Discovers(k)
                 else Lists(p, id)
  {
    if Discovers(k) {
      DiscoveryLists(Intended, p, from, k, id);
    } else if k.kind == 1 && k.message == "bye" {
      if k.id == id { WithoutIdLength(p.users, id); } else { GoodbyeKeeps(Intended, p, k.id, id); }
    }
  }

  // ---------- who has left ----------

  ghost predicate IsGoodbye(k: Packet, id: string) { k.kind == 1 && k.message == "bye" && k.id == id }

  ghost predicate IsHello(k: Packet, id: string) {
    k.kind == 1 && (k.message == "whos here" || k.message == "hi") && k.id == id
  }

  // The last event hands this peer, who is present, this datagram.
  ghost predicate Arrives(w: World, e: Event, b: Address) {
    e.Deliver? && e.i < |w.net| && w.net[e.i].to == b && b in w.live
  }

  // Since b joined, a goodbye from this id has reached it.
  ghost predicate GoodbyeArrived(events: seq<Event>, b: Address, id: string) {
    events != [] &&
    var before, e := events[..|events| - 1], events[|events| - 1];
    var w := Exec(Intended, before);
    b in w.live && ((Arrives(w, e, b) && IsGoodbye(w.net[e.i].packet, id)) || GoodbyeArrived(before, b, id))
  }

  // A discovery datagram of this id has reached b behind its goodbye.
  ghost predicate HelloBehindGoodbye(events: seq<Event>, b: Address, id: string) {
    events != [] &&
    var before, e := events[..|events| - 1], events[|events| - 1];
    var w := Exec(Intended, before);
    && b in w.live
    && if Arrives(w, e, b) && IsHello(w.net[e.i].packet, id) then GoodbyeArrived(before, b, id)
       else if Arrives(w, e, b) && IsGoodbye(w.net[e.i].packet, id) then false
       else HelloBehindGoodbye(before, b, id)
  }

  lemma {:induction false} BehindIff(events: seq<Event>, b: Address, id: string)
    ensures HelloBehindGoodbye(events, b, id)
            <==> GoodbyeArrived(events, b, id) && LastWordWasHello(events, b, id)
  {
    if events != [] {
      BehindIff(events[..|events| - 1], b, id);
    }
  }

  ghost predicate Departed(w: World, id: string) { id in w.ever && w.ever[id].address !in w.live }

  ghost predicate Underway(w: World, b: Address, id: string) {
    exists d :: d in w.net && d.to == b && IsHello(d.packet, id)
  }

  ghost predicate GoodbyeUnderway(w: World, b: Address, id: string) {
    exists d :: d in w.net && d.to == b && IsGoodbye(d.packet, id)
  }

  // Without losses, where b knows or may still hear of somebody who left, the goodbye
  // has reached it or will.
  ghost predicate ToldOrWillBe(events: seq<Event>, b: Address, id: string) {
    var w := Exec(Intended, events);
    b in w.live && Departed(w, id) && (Lists(w.live[b], id) || Underway(w, b, id)) ==>
      GoodbyeArrived(events, b, id) || GoodbyeUnderway(w, b, id)
  }

  lemma {:induction false} EverybodyTold(events: seq<Event>, b: Address, id: string)
    requires Lossless(Intended, events)
    ensures ToldOrWillBe(events, b, id)
  {
    if events != [] {
      var before, e := events[..|events| - 1], events[|events| - 1];
      EverybodyTold(before, b, id);
      ExecMet(Intended, before);
      var w, w' := Exec(Intended, before), Exec(Intended, events);
      if b in w'.live && Departed(w', id) && (Lists(w'.live[b], id) || Underway(w', b, id)) {
        match e
        case Join(_, _, _) => if w' != w { JoinTold(w, e, b, id); }
        case Leave(a) => if a in w.live { LeaveTold(w, a, b, id); }
        case Deliver(i) => if i < |w.net| { DeliverTold(w, i, b, id); }
        case Say(_, _, _, _) => SayTold(w, e, b, id);
        case Lose(_) =>
      }
    }
  }

  lemma JoinTold(w: World, e: Event, b: Address, id: string)
    requires Good(Intended, w) && e.Join? && Orderly(w, e) && Step(Intended, w, e) != w
    requires var w' := Step(Intended, w, e);
             b in w'.live && Departed(w', id) && (Lists(w'.live[b], id) || Underway(w', b, id))
    ensures b in w.live && Departed(w, id) && (Lists(w.live[b], id) || Underway(w, b, id))
    ensures GoodbyeUnderway(w, b, id) ==> GoodbyeUnderway(Step(Intended, w, e), b, id)
  {
    var w' := Step(Intended, w, e);
    JoinNet(Intended, w, e);
    if Underway(w', b, id) {
      var d :| d in w'.net && d.to == b && IsHello(d.packet, id);
      assert d in w.net;
      assert Travels(w, d);
    }
    if GoodbyeUnderway(w, b, id) {
      var d :| d in w.net && d.to == b && IsGoodbye(d.packet, id);
      assert d in w'.net;
    }
  }

  lemma LeaveTold(w: World, a: Address, b: Address, id: string)
    requires Good(Intended, w) && a in w.live && b in Step(Intended, w, Leave(a)).live
    requires var w' := Step(Intended, w, Leave(a));
             Departed(w', id) && (Lists(w'.live[b], id) || Underway(w', b, id))
    ensures var w' := Step(Intended, w, Leave(a));
            if Departed(w, id)
            then b in w.live && (Lists(w.live[b], id) || Underway(w, b, id))
                 && (GoodbyeUnderway(w, b, id) ==> GoodbyeUnderway(w', b, id))
            else GoodbyeUnderway(w', b, id)
  {
    var w' := Step(Intended, w, Leave(a));
    assert PeerSound(Intended, w, a);
    GoodbyeText(w.live[a].nickname, w.live[a].id);
    if Departed(w, id) {
      if Underway(w', b, id) {
        var d :| d in w'.net && d.to == b && IsHello(d.packet, id);
        assert d in w.net;
      }
      if GoodbyeUnderway(w, b, id) {
        var d :| d in w.net && d.to == b && IsGoodbye(d.packet, id);
        assert d in w'.net;
      }
    } else {
      LeaveTellsAll(Intended, w, a, b);
      var d := Wire(a, b, Packet(1, "bye", w.live[a].nickname, w.live[a].id));
      assert w.live[a].id == id;
      assert d in w'.net && IsGoodbye(d.packet, id);
    }
  }

  lemma SayTold(w: World, e: Event, b: Address, id: string)
    requires e.Say?
    ensures var w' := Step(Intended, w, e);
            && (Underway(w', b, id) <==> Underway(w, b, id))
            && (GoodbyeUnderway(w', b, id) <==> GoodbyeUnderway(w, b, id))
  {
    if e.who in w.live {
      KindSurvives(2, e.text, w.live[e.who].nickname, w.live[e.who].id);
      assert forall d :: d in w.net ==> d in Step(Intended, w, e).net;
    }
  }

  lemma DeliverTold(w: World, i: nat, b: Address, id: string)
    requires Good(Intended, w) && i < |w.net| && b in w.live
    requires var w' := Step(Intended, w, Deliver(i));
             Departed(w', id) && (Lists(w'.live[b], id) || Underway(w', b, id))
    ensures Departed(w, id) && (Lists(w.live[b], id) || Underway(w, b, id))
    ensures GoodbyeUnderway(w, b, id) ==>
              GoodbyeUnderway(Step(Intended, w, Deliver(i)), b, id)
              || (w.net[i].to == b && IsGoodbye(w.net[i].packet, id))
  {
    var d, w' := w.net[i], Step(Intended, w, Deliver(i));
    CutMembers(w.net, i);
    if d.to in w.live {
      DeliverNet(Intended, w, i);
      DepartedSilent(w, i, b, id);
    }
    if Underway(w', b, id) {
      var x :| x in w'.net && x.to == b && IsHello(x.packet, id);
      assert x in w.net;
    }
    if GoodbyeUnderway(w, b, id) {
      var x :| x in w.net && x.to == b && IsGoodbye(x.packet, id);
      assert x != d ==> x in w'.net;
    }
  }

  // Who has left sends nothing more, and is listed anew only through what was underway.
  lemma DepartedSilent(w: World, i: nat, b: Address, id: string)
    requires Good(Intended, w) && i < |w.net| && w.net[i].to in w.live && Departed(w, id) && b in w.live
    ensures w.live[w.net[i].to].id != id
    ensures Lists(Step(Intended, w, Deliver(i)).live[b], id) ==>
              Lists(w.live[b], id) || (w.net[i].to == b && IsHello(w.net[i].packet, id))
  {
    var d := w.net[i];
    assert PeerSound(Intended, w, d.to) && PeerSound(Intended, w, b);
    DeliveredWord(w.live[d.to], d.from, d.packet, id);
  }

  // Once discovery is quiet after a run without losses, somebody who is present lists
  // somebody who left exactly if a discovery datagram of his arrived behind his goodbye.
  lemma DepartedListedIff(events: seq<Event>, b: Address, id: string)
    requires Lossless(Intended, events)
    requires var w := Exec(Intended, events); Quiet(w) && b in w.live && Departed(w, id)
    ensures Lists(Exec(Intended, events).live[b], id) <==> HelloBehindGoodbye(events, b, id)
  {
    var w := Exec(Intended, events);
    ExecMet(Intended, events);
    assert PeerSound(Intended, w, b);
    EverybodyTold(events, b, id);
    ListedIffLastWord(events, b, id);
    BehindIff(events, b, id);
  }

  // In particular a goodbye that arrives after everything else of his takes him off
  // the list, in any run and with any other datagrams underway.
  lemma GoodbyeLastTakesOff(events: seq<Event>, b: Address, id: string)
    requires var w := Exec(Intended, events); b in w.live && Departed(w, id)
    requires GoodbyeArrived(events, b, id) && !HelloBehindGoodbye(events, b, id)
    ensures !Lists(Exec(Intended, events).live[b], id)
  {
    ExecSound(Intended, events);
    assert PeerSound(Intended, Exec(Intended, events), b);
    ListedIffLastWord(events, b, id);
    BehindIff(events, b, id);
  }

  // ---------- the loop as written ----------

  // The first peer hears of the others, but can make itself known to one only.
  ghost predicate Heard(w: World, q: Address)
    requires w.order != [] && w.order[0] in w.live && q in w.live
  {
    q != w.order[0] && (ListsPeer(w, q, w.order[0]) || Greeted(w, w.order[0], q))
  }

  ghost predicate FirstIsHeardOnce(w: World) {
    w.order != [] ==>
      var first := w.order[0];
      && first in w.live
      && (forall q :: q in w.live && q != first ==> !Asked(w, first, q))
      && (w.live[first].users == [] ==> forall q :: q in w.live ==> !Heard(w, q))
      && (forall q, r :: q in w.live && r in w.live && Heard(w, q) && Heard(w, r) ==> q == r)
  }

  lemma StepHeard(w: World, e: Event)
    requires Good(Literal, w) && NobodyLeft(w) && FirstIsHeardOnce(w) && Orderly(w, e) && !e.Leave?
    ensures FirstIsHeardOnce(Step(Literal, w, e))
  {
    var w' := Step(Literal, w, e);
    OrderGrows(Literal, w, e);
    StepGood(Literal, w, e);
    if w'.order != [] {
      var first := w'.order[0];
      assert first in w'.order;
      forall q | q in w'.live && q != first
        ensures !Asked(w', first, q)
        ensures w.order != [] && q in w.live && Heard(w', q) && !Heard(w, q) ==>
                  w.live[first].users == [] && w'.live[first].users != []
                  && e.Deliver? && e.i < |w.net| && q == w.net[e.i].from
        ensures (w.order == [] || q !in w.live) ==> !Heard(w', q)
      {
        StepHearing(w, e, q);
      }
      if w.order != [] && w.live[first].users != [] { FirstKeepsUsers(w, e); }
    }
  }

  lemma FirstKeepsUsers(w: World, e: Event)
    requires Good(Literal, w) && NobodyLeft(w) && w.order != [] && w.order[0] in w.live
    requires Orderly(w, e) && !e.Leave?
    requires w.live[w.order[0]].users != []
    ensures w.order[0] in Step(Literal, w, e).live && Step(Literal, w, e).live[w.order[0]].users != []
  {
    var first := w.order[0];
    if e.Deliver? && e.i < |w.net| && w.net[e.i].to == first {
      HandleUsers(Literal, w.live[first], w.net[e.i].from, w.net[e.i].packet);
      assert WireSound(w, w.net[e.i]);
      assert w.net[e.i].packet.kind == 1 ==> Travels(w, w.net[e.i]);
    }
  }

  lemma StepHearing(w: World, e: Event, q: Address)
    requires Good(Literal, w) && NobodyLeft(w) && FirstIsHeardOnce(w) && Orderly(w, e) && !e.Leave?
    requires var w' := Step(Literal, w, e);
             w'.order != [] && w'.order[0] in w'.live && q in w'.live && q != w'.order[0]
    ensures var w' := Step(Literal, w, e);
            var first := w'.order[0];
            && !Asked(w', first, q)
            && (w.order != [] && q in w.live && Heard(w', q) && !Heard(w, q) ==>
                  w.live[first].users == [] && w'.live[first].users != []
                  && e.Deliver? && e.i < |w.net| && q == w.net[e.i].from)
            && ((w.order == [] || q !in w.live) ==> !Heard(w', q))
  {
    var w' := Step(Literal, w, e);
    var first := w'.order[0];
    OrderGrows(Literal, w, e);
    if e.Join? && w' != w {
      JoinFlights(Literal, w, e, first, q);
      JoinLists(Literal, w, e, q, first);
    } else if e.Deliver? && e.i < |w.net| && w.net[e.i].to in w.live {
      var d := w.net[e.i];
      DeliverFlights(Literal, w, e.i, first, q);
      DeliverLists(Literal, w, e.i, q, first);
      if d.to == first {
        DeliverLists(Literal, w, e.i, first, q);
      }
    } else {
      NothingHappens(Literal, w, e, first, q);
    }
  }

  lemma {:induction false} ExecHeard(events: seq<Event>)
    requires Reliable(events)
    ensures FirstIsHeardOnce(Exec(Literal, events))
  {
    if events != [] {
      var before := events[..|events| - 1];
      ExecHeard(before);
      ReliableIsLossless(Literal, events);
      ReliableIsLossless(Literal, before);
      ExecMet(Literal, before);
      StepHeard(Exec(Literal, before), events[|events| - 1]);
    }
  }

  // With the loop as written, everybody ends up listing everybody exactly when
  // at most two peers took part; a third is never known to all, at any time.
  lemma LiteralConvergesIffAtMostTwo(events: seq<Event>)
    requires Reliable(events)
    ensures var w := Exec(Literal, events);
            && (AllListed(w) ==> |w.order| <= 2)
            && (Quiet(w) && |w.order| <= 2 ==> AllListed(w))
  {
    var w := Exec(Literal, events);
    ReliableIsLossless(Literal, events);
    ExecMet(Literal, events);
    ExecHeard(events);
    if |w.order| >= 3 {
      var q, r := w.order[1], w.order[2];
      assert q in w.order && r in w.order;
      assert !(Heard(w, q) && Heard(w, r));
    }
    if Quiet(w) && |w.order| <= 2 {
      ExecReturns(Literal, events);
      QuietAllListed(Literal, w);
    }
  }

  lemma {:induction false} OrderGrowsOver(reading: Reading, events: seq<Event>, n: nat)
    requires Reliable(events) && n <= |events|
    ensures Exec(reading, events[..n]).order <= Exec(reading, events).order
    decreases |events|
  {
    if n == |events| {
      assert events[..n] == events;
    } else {
      var before := events[..|events| - 1];
      OrderGrowsOver(reading, before, n);
      assert before[..n] == events[..n];
      OrderGrows(reading, Exec(reading, before), events[|events| - 1]);
    }
  }

  // Once three peers have joined, somebody stays unknown to somebody for good.
  lemma ThirdPeerEndsConvergence(events: seq<Event>, n: nat)
    requires Reliable(events) && n <= |events| && |Exec(Literal, events[..n]).order| >= 3
    ensures !AllListed(Exec(Literal, events))
  {
    OrderGrowsOver(Literal, events, n);
    LiteralConvergesIffAtMostTwo(events);
  }
}
