// slotReadMessages (lesson8/f2f_chat/chatnetwork.cpp) empties its socket but
// handles only the last datagram: what a burst loses.

module Burst {
  import opened Basics
  import opened ChatCodec
  import opened Chat
  import opened Discovery

  datatype Arrival = Arrival(from: Address, packet: Packet)

  // Handling each datagram of a burst in turn; the slot handles only the last.
  function HandleAll(reading: Reading, p: Peer, burst: seq<Arrival>): Peer {
    if burst == [] then p
    else
      var d := burst[|burst| - 1];
      Handle(reading, HandleAll(reading, p, burst[..|burst| - 1]), d.from, d.packet).0
  }

  // ---------- chat texts ----------

  // A chat text sent by somebody else.
  predicate ForeignText(p: Peer, k: Packet) { k.kind == 2 && k.id != p.id }

  lemma HandleMessages(reading: Reading, p: Peer, from: Address, k: Packet)
    ensures var q := Handle(reading, p, from, k).0;
            && q.id == p.id && q.nickname == p.nickname
            && q.messages == p.messages + if ForeignText(p, k) then TextLines(k) else []
  {}

  lemma {:induction false} BurstMessages(reading: Reading, p: Peer, burst: seq<Arrival>)
    ensures var q := HandleAll(reading, p, burst); q.id == p.id && p.messages <= q.messages
    ensures |HandleAll(reading, p, burst).messages| == |p.messages|
            <==> forall i :: 0 <= i < |burst| ==> !ForeignText(p, burst[i].packet)
  {
    if burst != [] {
      var before, d := burst[..|burst| - 1], burst[|burst| - 1];
      BurstMessages(reading, p, before);
      HandleMessages(reading, HandleAll(reading, p, before), d.from, d.packet);
    }
  }

  // Reading only the last datagram of a burst shows the same chat text as
  // reading all of them exactly when no earlier one carries a foreign text.
  lemma LastOnlyShowsAllTextIff(reading: Reading, p: Peer, burst: seq<Arrival>)
    requires burst != []
    ensures var last := burst[|burst| - 1];
            Handle(reading, p, last.from, last.packet).0.messages == HandleAll(reading, p, burst).messages
            <==> forall i :: 0 <= i < |burst| - 1 ==> !ForeignText(p, burst[i].packet)
  {
    var before, last := burst[..|burst| - 1], burst[|burst| - 1];
    BurstMessages(reading, p, before);
    HandleMessages(reading, p, last.from, last.packet);
    HandleMessages(reading, HandleAll(reading, p, before), last.from, last.packet);
  }

  // ---------- the whole peer ----------

  // A packet that finds nothing to do: our own text, a discovery packet of ours
  // or of a listed contact (as written: of the first contact), a goodbye of
  // somebody unlisted, or no known kind.
  ghost predicate Inert(reading: Reading, p: Peer, k: Packet) {
    if k.kind == 2 then k.id == p.id
    else if Discovers(k) then
      k.id == p.id
      || if reading == Intended then Lists(p, k.id) else p.users != [] && p.users[0].programId == k.id
    else if k.kind == 1 && k.message == "bye" then !Lists(p, k.id)
    else true
  }

  // How often an id is listed.
  function Count(users: seq<ChatUser>, id: string): nat {
    if users == [] then 0 else (if users[0].programId == id then 1 else 0) + Count(users[1..], id)
  }

  lemma {:induction false} CountZero(users: seq<ChatUser>, id: string)
    ensures Count(users, id) == 0 <==> forall i :: 0 <= i < |users| ==> users[i].programId != id
  {
    if users != [] {
      CountZero(users[1..], id);
    }
  }

  lemma {:induction false} CountAppended(users: seq<ChatUser>, u: ChatUser, n: nat, id: string)
    ensures Count(users + Copies(u, n), id) == Count(users, id) + if u.programId == id then n else 0
    decreases |users| + n
  {
    var all := users + Copies(u, n);
    if users != [] {
      CountAppended(users[1..], u, n, id);
      assert all[1..] == users[1..] + Copies(u, n);
    } else if n > 0 {
      CountAppended([], u, n - 1, id);
      assert all[1..] == [] + Copies(u, n - 1);
    }
  }

  // Under either reading a goodbye takes out entries of its sender only, and one
  // at least if there is any.
  lemma {:induction false} CountScanned(users: seq<ChatUser>, gone: string, id: string)
    ensures id != gone ==> Count(ScanOut(users, gone), id) == Count(users, id)
    ensures id == gone && Count(users, id) > 0 ==> Count(ScanOut(users, gone), id) < Count(users, id)
    ensures Count(ScanOut(users, gone), id) <= Count(users, id)
    decreases |users|
  {
    if users == [] {
    } else if users[0].programId != gone {
      CountScanned(users[1..], gone, id);
    } else if |users| > 1 {
      CountScanned(users[2..], gone, id);
      assert users[1..][1..] == users[2..];
    }
  }

  lemma {:induction false} CountRemoved(users: seq<ChatUser>, gone: string, id: string)
    ensures Count(WithoutId(users, gone), id) == if id == gone then 0 else Count(users, id)
  {
    if users != [] {
      CountRemoved(users[1..], gone, id);
    }
  }

  // A packet changes how often its sender is listed, unless it is a text or finds
  // nothing to do, and nobody else's entries.
  lemma HandleCount(reading: Reading, p: Peer, from: Address, k: Packet, id: string)
    ensures var q := Handle(reading, p, from, k).0;
            Count(q.users, id) == Count(p.users, id) <==> id != k.id || k.kind == 2 || Inert(reading, p, k)
  {
    CountZero(p.users, k.id);
    if Discovers(k) {
      var u := ChatUser(from, k.nickname, k.id);
      CountAppended(p.users, u, 1, id);
      CountAppended(p.users, u, Position(p.users, k.id), id);
      ListsIsPosition(p, k.id);
    } else {
      CountScanned(p.users, k.id, id);
      CountRemoved(p.users, k.id, id);
    }
  }

  lemma AppendNone(p: Peer, u: ChatUser)
    ensures Append(p, u, 0) == p
  {}

  // A packet leaves the peer as it is exactly when it finds nothing to do.
  lemma InertIff(reading: Reading, p: Peer, from: Address, k: Packet)
    requires Parallel(p.users, p.labels)
    ensures Handle(reading, p, from, k).0 == p <==> Inert(reading, p, k)
  {
    HandleCount(reading, p, from, k, k.id);
    HandleMessages(reading, p, from, k);
    if Inert(reading, p, k) {
      ParallelLabels(p.users, p.labels);
      CountZero(p.users, k.id);
      if !Lists(p, k.id) {
        ScanOutNone(p.users, k.id);
        WithoutIdLength(p.users, k.id);
      }
      ListsIsPosition(p, k.id);
      AppendNone(p, ChatUser(from, k.nickname, k.id));
    }
  }

  lemma {:induction false} InertBurst(reading: Reading, p: Peer, burst: seq<Arrival>)
    requires Parallel(p.users, p.labels)
    requires forall i :: 0 <= i < |burst| ==> Inert(reading, p, burst[i].packet)
    ensures HandleAll(reading, p, burst) == p
  {
    if burst != [] {
      var before, d := burst[..|burst| - 1], burst[|burst| - 1];
      InertBurst(reading, p, before);
      InertIff(reading, p, d.from, d.packet);
    }
  }

  ghost predicate DifferentSenders(burst: seq<Arrival>) {
    forall i, j :: 0 <= i < j < |burst| ==> burst[i].packet.id != burst[j].packet.id
  }

  lemma FirstActive(reading: Reading, p: Peer, burst: seq<Arrival>) returns (at: nat)
    ensures at <= |burst| && (at < |burst| ==> !Inert(reading, p, burst[at].packet))
    ensures forall i :: 0 <= i < at ==> Inert(reading, p, burst[i].packet)
  {
    at := 0;
    while at < |burst| && Inert(reading, p, burst[at].packet)
      invariant at <= |burst| && forall i :: 0 <= i < at ==> Inert(reading, p, burst[i].packet)
    {
      at := at + 1;
    }
  }

  // The first packet that finds something to do shows in how often its sender is
  // listed, whatever else the burst brings.
  lemma {:induction false} BurstCountChanged(reading: Reading, p: Peer, burst: seq<Arrival>, at: nat)
    requires Parallel(p.users, p.labels) && DifferentSenders(burst)
    requires at < |burst| && burst[at].packet.kind != 2 && !Inert(reading, p, burst[at].packet)
    requires forall i :: 0 <= i < at ==> Inert(reading, p, burst[i].packet)
    ensures var id := burst[at].packet.id;
            Count(HandleAll(reading, p, burst).users, id) != Count(p.users, id)
  {
    var before, d, id := burst[..|burst| - 1], burst[|burst| - 1], burst[at].packet.id;
    if at == |before| {
      InertBurst(reading, p, before);
    } else {
      BurstCountChanged(reading, p, before, at);
    }
    HandleCount(reading, HandleAll(reading, p, before), d.from, d.packet, id);
  }

  lemma ActiveShows(reading: Reading, p: Peer, burst: seq<Arrival>, at: nat, last: Arrival)
    requires Parallel(p.users, p.labels) && DifferentSenders(burst)
    requires at < |burst| - 1 && last == burst[|burst| - 1] && !Inert(reading, p, burst[at].packet)
    requires forall i :: 0 <= i < at ==> Inert(reading, p, burst[i].packet)
    ensures Handle(reading, p, last.from, last.packet).0 != HandleAll(reading, p, burst)
  {
    if burst[at].packet.kind == 2 {
      LastOnlyShowsAllTextIff(reading, p, burst);
    } else {
      BurstCountChanged(reading, p, burst, at);
      HandleCount(reading, p, last.from, last.packet, burst[at].packet.id);
    }
  }

  // Handling only the last datagram of a burst from different senders does the
  // same as handling all of them exactly when every earlier one finds nothing to do.
  lemma LastOnlyIff(reading: Reading, p: Peer, burst: seq<Arrival>)
    requires burst != [] && Parallel(p.users, p.labels) && DifferentSenders(burst)
    ensures var last := burst[|burst| - 1];
            Handle(reading, p, last.from, last.packet).0 == HandleAll(reading, p, burst)
            <==> forall i :: 0 <= i < |burst| - 1 ==> Inert(reading, p, burst[i].packet)
  {
    var at := FirstActive(reading, p, burst[..|burst| - 1]);
    if at < |burst| - 1 {
      ActiveShows(reading, p, burst, at, burst[|burst| - 1]);
    } else {
      LastOnlyEnough(reading, p, burst);
    }
  }

  // Whoever the senders are, nothing is lost if the earlier ones find nothing to do.
  lemma LastOnlyEnough(reading: Reading, p: Peer, burst: seq<Arrival>)
    requires burst != [] && Parallel(p.users, p.labels)
    requires forall i :: 0 <= i < |burst| - 1 ==> Inert(reading, p, burst[i].packet)
    ensures var last := burst[|burst| - 1];
            Handle(reading, p, last.from, last.packet).0 == HandleAll(reading, p, burst)
  {
    InertBurst(reading, p, burst[..|burst| - 1]);
  }
}
