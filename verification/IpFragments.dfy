// What the IP layers hand to the reassembly of each fragment, and when that lets
// every packet through (IPReassembly, IPv4Layer and IPv6Layer in
// lesson2/PcapPlPl_snifer/lib).

// Any frames, whatever the layer makes of them.
module FragmentFrames {
  import opened Basics
  import opened Sequences
  import opened Fragments
  import opened FragmentStore

  // The payload a layer announces for a frame, and its size; the size is negative
  // when the layer's header reaches beyond the frame.
  datatype Frame = Frame(size: int, payload: seq<byte>)

  ghost predicate Handed(w: Datagram, frames: seq<Frame>) {
    && |frames| == |w.parts|
    && forall k :: 0 <= k < |frames| ==>
         frames[k].size < 0x1_0000 && (frames[k].size >= 0 ==> |frames[k].payload| == frames[k].size)
  }

  // Of a first fragment only the size is used, cut to 16 bits.
  function PayloadOf(f: Frame): seq<byte> {
    if f.size >= 0 then f.payload else seq(f.size % 0x1_0000, _ => 0)
  }

  // The fragment as the reassembly sees it.
  function Seen(w: Datagram, frames: seq<Frame>, k: nat): Fragment
    requires |frames| == |w.parts| && k < |w.parts|
  {
    FragmentOf(w, k).(payload := PayloadOf(frames[k]))
  }

  // None: bytes from behind the frame would be copied.
  function Take(w: Datagram, frames: seq<Frame>, p: Partial, k: nat): Option<(Partial, Status)>
    requires |frames| == |w.parts| && k < |w.parts|
  {
    var f := Seen(w, frames, k);
    if frames[k].size < 0 && f.offset > 0 && f.offset >= p.currentOffset then None else Some(Accept(p, f))
  }

  // What becomes of a packet when a fragment arrives; None where the code goes wrong.
  type Taking = (Partial, nat) -> Option<(Partial, Status)>

  function TakingOf(w: Datagram, frames: seq<Frame>): Taking
    requires |frames| == |w.parts|
  {
    (p: Partial, k: nat) => if k < |w.parts| then Take(w, frames, p, k) else None
  }

  // A finished packet leaves nothing behind.
  function Next(take: Taking, s: Option<Partial>, a: nat): Option<Partial> {
    match s
    case None => None
    case Some(p) =>
      match take(p, a)
      case None => None
      case Some((q, status)) => Some(if status.Reassembled? then NOTHING else q)
  }

  function Run(take: Taking, arrivals: seq<nat>): Option<Partial> {
    if arrivals == [] then Some(NOTHING)
    else Next(take, Run(take, arrivals[..|arrivals| - 1]), arrivals[|arrivals| - 1])
  }

  function Own(w: Datagram): seq<byte> { w.header + Joined(w.parts) }

  // The next fragment makes the packet be handed out exactly if `done`, and then with
  // its own bytes.
  ghost predicate Rightly(w: Datagram, r: Option<(Partial, Status)>, done: bool) {
    && r.Some? && (r.value.1.Reassembled? <==> done)
    && (r.value.1.Reassembled? ==> r.value.1.bytes == Own(w))
  }

  ghost predicate RightAt(w: Datagram, take: Taking, arrivals: seq<nat>, a: nat) {
    && Run(take, arrivals).Some?
    && Rightly(w, take(Run(take, arrivals).value, a), Complete(w, Since(w, arrivals) + {a}))
  }

  // Whatever has arrived, in whatever order, the next fragment makes the packet be
  // handed out exactly if it is the last one missing.
  ghost predicate AlwaysRight(w: Datagram, take: Taking) {
    forall arrivals: seq<nat>, a: nat :: Within(arrivals, |w.parts|) && a < |w.parts| ==> RightAt(w, take, arrivals, a)
  }

  // The same packet cut up as the layer has it.
  function Recut(w: Datagram, frames: seq<Frame>): Datagram
    requires |frames| == |w.parts| > 0
  {
    w.(parts := seq(|w.parts|, i requires 0 <= i < |w.parts| => if i == 0 then w.parts[0] else frames[i].payload))
  }

  // The pieces have the sizes of the parts, the first one up to 16 bits, and joined
  // to the first frame they give the packet.
  ghost predicate LinesUp(w: Datagram, frames: seq<Frame>)
    requires |frames| == |w.parts| > 0
  {
    var n := |w.parts|;
    && frames[0].size % 0x1_0000 == |w.parts[0]|
    && (forall k :: 0 < k < n - 1 ==> frames[k].size == |w.parts[k]|)
    && frames[n - 1].size >= 0 && Collected(Recut(w, frames), n) == Own(w)
  }

  lemma {:induction false} StartFits(parts: seq<seq<byte>>, k: nat)
    requires k <= |parts|
    ensures Start(parts, k) <= |Joined(parts)|
    decreases |parts| - k
  {
    if k < |parts| {
      StartNext(parts, k);
      StartFits(parts, k + 1);
    } else {
      assert parts[..k] == parts;
    }
  }

  ghost predicate CutUp(w: Datagram, frames: seq<Frame>) {
    Proper(w) && |w.parts| >= 2 && w.parts[|w.parts| - 1] != [] && Handed(w, frames)
  }

  // ---------- pieces that line up come through ----------

  lemma {:induction false} JoinedLength(a: seq<seq<byte>>, b: seq<seq<byte>>)
    requires |a| == |b| && forall i :: 0 <= i < |a| ==> |a[i]| == |b[i]|
    ensures |Joined(a)| == |Joined(b)|
  {
    if a != [] {
      JoinedLength(a[1..], b[1..]);
    }
  }

  lemma RecutStarts(w: Datagram, frames: seq<Frame>, k: nat)
    requires CutUp(w, frames) && LinesUp(w, frames) && k < |w.parts|
    ensures Start(Recut(w, frames).parts, k) == Start(w.parts, k)
  {
    JoinedLength(Recut(w, frames).parts[..k], w.parts[..k]);
  }

  lemma CollectedSize(w: Datagram)
    requires w.parts != []
    ensures |Collected(w, |w.parts|)| == |w.header| + |Joined(w.parts)| + |w.trailer|
  {
    var n := |w.parts|;
    BetweenCons(w, 0, n);
    assert w.parts[0..n] == w.parts;
  }

  lemma RecutProper(w: Datagram, frames: seq<Frame>)
    requires CutUp(w, frames) && LinesUp(w, frames)
    ensures Proper(Recut(w, frames))
  {
    CollectedSize(Recut(w, frames));
  }

  lemma TakeRecut(w: Datagram, frames: seq<Frame>, p: Partial, k: nat)
    requires CutUp(w, frames) && LinesUp(w, frames) && k < |w.parts|
    ensures Take(w, frames, p, k) == Some(Accept(p, FragmentOf(Recut(w, frames), k)))
  {
    RecutStarts(w, frames, k);
    assert w.parts[..0] == [];
    if k == 0 {
      assert Wrap(|Seen(w, frames, 0).payload|) == Wrap(|w.parts[0]|);
    }
  }

  lemma {:induction false} RunRecut(w: Datagram, frames: seq<Frame>, arrivals: seq<nat>)
    requires CutUp(w, frames) && LinesUp(w, frames) && Within(arrivals, |w.parts|)
    ensures Run(TakingOf(w, frames), arrivals) == Some(Gather(Recut(w, frames), arrivals))
    ensures Since(w, arrivals) == Since(Recut(w, frames), arrivals)
  {
    if arrivals != [] {
      var n := |arrivals| - 1;
      RunRecut(w, frames, arrivals[..n]);
      TakeRecut(w, frames, Gather(Recut(w, frames), arrivals[..n]), arrivals[n]);
    }
  }

  lemma LinedUpIsRight(w: Datagram, frames: seq<Frame>)
    requires CutUp(w, frames) && LinesUp(w, frames)
    ensures AlwaysRight(w, TakingOf(w, frames))
  {
    var v := Recut(w, frames);
    RecutProper(w, frames);
    forall arrivals: seq<nat>, a: nat | Within(arrivals, |w.parts|) && a < |w.parts|
      ensures RightAt(w, TakingOf(w, frames), arrivals, a)
    {
      RunRecut(w, frames, arrivals);
      TakeRecut(w, frames, Gather(v, arrivals), a);
      ReassembledIff(v, arrivals, a);
      assert Complete(w, Since(w, arrivals) + {a}) <==> Complete(v, Since(w, arrivals) + {a});
    }
  }

  // ---------- pieces that do not line up fail for some order ----------

  // The first m fragments in order, but for fragment `skip`.
  function Skip(skip: nat, m: nat): seq<nat> {
    if m == 0 then [] else if m - 1 == skip then Skip(skip, m - 1) else Skip(skip, m - 1) + [m - 1]
  }

  // The state after them.
  function After(take: Taking, skip: nat, m: nat): Option<Partial> {
    if m == 0 then Some(NOTHING)
    else if m - 1 == skip then After(take, skip, m - 1)
    else Next(take, After(take, skip, m - 1), m - 1)
  }

  lemma {:induction false} SkipMembers(skip: nat, m: nat)
    ensures forall i: nat :: i in Skip(skip, m) <==> i < m && i != skip
    ensures Within(Skip(skip, m), m)
  {
    if m > 0 {
      SkipMembers(skip, m - 1);
    }
  }

  lemma RunNext(take: Taking, arrivals: seq<nat>, a: nat)
    ensures Run(take, arrivals + [a]) == Next(take, Run(take, arrivals), a)
  {
    assert (arrivals + [a])[..|arrivals|] == arrivals;
  }

  lemma {:induction false} SkipRun(take: Taking, skip: nat, m: nat)
    ensures Run(take, Skip(skip, m)) == After(take, skip, m)
  {
    if m > 0 {
      SkipRun(take, skip, m - 1);
      RunNext(take, Skip(skip, m - 1), m - 1);
    }
  }

  // Until all are there, what has arrived since is all that has arrived.
  lemma {:induction false} SinceIsAll(w: Datagram, arrivals: seq<nat>, m: nat)
    requires m < |w.parts| && m !in arrivals
    ensures Since(w, arrivals) == set i | i in arrivals
  {
    if arrivals != [] {
      var before, a := arrivals[..|arrivals| - 1], arrivals[|arrivals| - 1];
      assert arrivals == before + [a];
      SinceIsAll(w, before, m);
      assert m !in Since(w, before) + {a};
    }
  }

  lemma SkipCompletes(w: Datagram, skip: nat, m: nat)
    requires m < |w.parts| && m != skip
    ensures Within(Skip(skip, m), |w.parts|)
    ensures Complete(w, Since(w, Skip(skip, m)) + {m}) <==> m == |w.parts| - 1 && skip >= |w.parts|
  {
    SkipMembers(skip, m);
    SinceIsAll(w, Skip(skip, m), m);
    var seen := Since(w, Skip(skip, m)) + {m};
    if m < |w.parts| - 1 {
      assert m + 1 !in seen;
    } else if skip < |w.parts| {
      assert skip !in seen;
    }
  }

  // In these orders only the last fragment, and only if none was skipped, has the
  // packet handed out.
  lemma GoesOn(w: Datagram, take: Taking, skip: nat, m: nat)
    requires AlwaysRight(w, take) && m < |w.parts| && m != skip
    ensures After(take, skip, m).Some?
    ensures Rightly(w, take(After(take, skip, m).value, m), m == |w.parts| - 1 && skip >= |w.parts|)
  {
    SkipRun(take, skip, m);
    SkipCompletes(w, skip, m);
    assert RightAt(w, take, Skip(skip, m), m);
  }

  // A fragment behind its place changes nothing; one before its place is put by.
  ghost predicate TakesInTurn(w: Datagram, take: Taking) {
    forall p: Partial, k: nat :: 0 < k < |w.parts| && p.data.Some? && p.currentOffset != Start(w.parts, k) ==>
      var r := take(p, k);
      && (p.currentOffset > Start(w.parts, k) ==> r == Some((p, AnyFragment)))
      && (p.currentOffset < Start(w.parts, k) && r.Some? ==>
            r.value.0.data.Some? && r.value.0.currentOffset == p.currentOffset && r.value.1 == OutOfOrder)
  }

  lemma TakingInTurn(w: Datagram, frames: seq<Frame>)
    requires CutUp(w, frames)
    ensures TakesInTurn(w, TakingOf(w, frames))
  {
    forall k: nat | k < |w.parts| ensures Start(w.parts, k) == 0 <==> k == 0 {
      StartsDiffer(w, k, k);
    }
  }

  // Up to the skipped fragment nothing differs, and if it is passed over as already
  // seen, nothing differs behind it.
  lemma {:induction false} SkipSame(w: Datagram, take: Taking, k: nat, m: nat, p: Partial)
    requires TakesInTurn(w, take) && 0 < k < |w.parts| && m <= |w.parts|
    requires After(take, |w.parts|, k) == Some(p) && p.data.Some?
    ensures p.currentOffset > Start(w.parts, k) ==> After(take, |w.parts|, m) == After(take, k, m)
  {
    if m > 0 {
      SkipSame(w, take, k, m - 1, p);
    }
  }

  // A packet that goes on before the next fragment waits for ever.
  lemma {:induction false} Waits(w: Datagram, take: Taking, j: nat, k: nat, p: Partial)
    requires Proper(w) && TakesInTurn(w, take) && AlwaysRight(w, take) && 0 < j <= k < |w.parts|
    requires After(take, |w.parts|, j) == Some(p) && p.data.Some? && p.currentOffset < Start(w.parts, j)
    ensures var r := After(take, |w.parts|, k);
            r.Some? && r.value.data.Some? && r.value.currentOffset == p.currentOffset < Start(w.parts, k)
    decreases k
  {
    StartsDiffer(w, j, k);
    if j < k {
      Waits(w, take, j, k - 1, p);
      GoesOn(w, take, |w.parts|, k - 1);
    }
  }

  // The last fragment cannot come elsewhere than in its turn.
  lemma LastInTurn(w: Datagram, take: Taking)
    requires TakesInTurn(w, take) && AlwaysRight(w, take) && |w.parts| >= 2
    ensures var r := After(take, |w.parts|, |w.parts| - 1);
            r.Some? && (r.value.data.Some? ==> r.value.currentOffset == Start(w.parts, |w.parts| - 1))
  {
    GoesOn(w, take, |w.parts|, |w.parts| - 1);
  }

  // Before the last fragment, it shows whether one was skipped.
  lemma NotSame(w: Datagram, take: Taking, k: nat, m: nat)
    requires AlwaysRight(w, take) && k < m == |w.parts| - 1
    ensures After(take, |w.parts|, m) != After(take, k, m)
  {
    GoesOn(w, take, |w.parts|, m);
    GoesOn(w, take, k, m);
  }

  // A fragment that is put by would wait for ever.
  lemma NotPutBy(w: Datagram, take: Taking, k: nat, p: Partial)
    requires Proper(w) && TakesInTurn(w, take) && AlwaysRight(w, take) && 0 < k < |w.parts|
    requires After(take, |w.parts|, k) == Some(p) && p.data.Some?
    ensures p.currentOffset >= Start(w.parts, k)
  {
    LastInTurn(w, take);
    if p.currentOffset < Start(w.parts, k) {
      Waits(w, take, k, |w.parts| - 1, p);
    }
  }

  // One that is passed over as already seen would not be missed.
  lemma NotPassedOver(w: Datagram, take: Taking, k: nat, m: nat, p: Partial)
    requires TakesInTurn(w, take) && AlwaysRight(w, take) && 0 < k < m == |w.parts| - 1
    requires After(take, |w.parts|, k) == Some(p) && p.data.Some?
    ensures p.currentOffset <= Start(w.parts, k)
  {
    NotSame(w, take, k, m);
    SkipSame(w, take, k, m, p);
  }

  // So in order, each fragment leaves off where the next one begins.
  lemma NextBegins(w: Datagram, take: Taking, k: nat, p: Partial)
    requires Proper(w) && TakesInTurn(w, take) && AlwaysRight(w, take) && 0 < k < |w.parts|
    requires After(take, |w.parts|, k) == Some(p) && p.data.Some?
    ensures p.currentOffset == Start(w.parts, k)
  {
    NotPutBy(w, take, k, p);
    if k == |w.parts| - 1 {
      LastInTurn(w, take);
    } else {
      NotPassedOver(w, take, k, |w.parts| - 1, p);
    }
  }

  // The state after the first k fragments came in order, as long as they line up.
  function Standing(w: Datagram, frames: seq<Frame>, k: nat): Partial
    requires |frames| == |w.parts| && k < |w.parts|
  {
    if k == 0 then NOTHING else Partial(Start(w.parts, k), Some(Collected(Recut(w, frames), k)), [])
  }

  lemma TakeInOrder(w: Datagram, frames: seq<Frame>, k: nat)
    requires CutUp(w, frames) && k < |w.parts|
    ensures k > 0 && frames[k].size < 0 ==> Take(w, frames, Standing(w, frames, k), k) == None
    ensures k == 0 || frames[k].size >= 0 ==>
              var at := if k == 0 then frames[0].size % 0x1_0000 else Wrap(Start(w.parts, k) + frames[k].size);
              var data := Collected(Recut(w, frames), k + 1);
              Take(w, frames, Standing(w, frames, k), k)
              == Some((Partial(at, Some(data), []),
                       if k == 0 then FirstFragment else if k == |w.parts| - 1 then Reassembled(data) else AnyFragment))
  {
    var p, f := Standing(w, frames, k), Seen(w, frames, k);
    StartsDiffer(w, k, k);
    CollectedNext(Recut(w, frames), k);
    assert w.parts[..0] == [];
    assert f.offset == p.currentOffset && p.late == [];
    if k == 0 || frames[k].size >= 0 {
      AcceptInTurn(p, f);
    }
  }

  // The sizes of the fragments before k are right.
  ghost predicate SizesRight(w: Datagram, frames: seq<Frame>, k: nat)
    requires k <= |frames| == |w.parts|
  {
    && (k > 0 ==> frames[0].size % 0x1_0000 == |w.parts[0]|)
    && forall i :: 0 < i < k ==> frames[i].size == |w.parts[i]|
  }

  lemma SizeRight(w: Datagram, frames: seq<Frame>, j: nat)
    requires CutUp(w, frames) && j < |w.parts| - 1 && SizesRight(w, frames, j) && (j == 0 || frames[j].size >= 0)
    requires Start(w.parts, j + 1)
             == if j == 0 then frames[0].size % 0x1_0000 else Wrap(Start(w.parts, j) + frames[j].size)
    ensures SizesRight(w, frames, j + 1)
  {
    StartNext(w.parts, j);
    StartsDiffer(w, j, j + 1);
    assert w.parts[..0] == [];
  }

  lemma {:induction false} InOrder(w: Datagram, frames: seq<Frame>, k: nat)
    requires CutUp(w, frames) && AlwaysRight(w, TakingOf(w, frames)) && k < |w.parts|
    ensures After(TakingOf(w, frames), |w.parts|, k) == Some(Standing(w, frames, k))
    ensures SizesRight(w, frames, k)
  {
    if k > 0 {
      var j, take := k - 1, TakingOf(w, frames);
      InOrder(w, frames, j);
      GoesOn(w, take, |w.parts|, j);
      TakeInOrder(w, frames, j);
      TakingInTurn(w, frames);
      NextBegins(w, take, k, After(take, |w.parts|, k).value);
      SizeRight(w, frames, j);
    }
  }

  // The last one completes the packet.
  lemma LastTaken(w: Datagram, frames: seq<Frame>, p: Partial)
    requires CutUp(w, frames) && p == Standing(w, frames, |w.parts| - 1)
    requires Rightly(w, Take(w, frames, p, |w.parts| - 1), true)
    ensures frames[|w.parts| - 1].size >= 0 && Collected(Recut(w, frames), |w.parts|) == Own(w)
  {
    TakeInOrder(w, frames, |w.parts| - 1);
  }

  lemma RightLinesUp(w: Datagram, frames: seq<Frame>)
    requires CutUp(w, frames) && AlwaysRight(w, TakingOf(w, frames))
    ensures LinesUp(w, frames)
  {
    var n := |w.parts|;
    InOrder(w, frames, n - 1);
    GoesOn(w, TakingOf(w, frames), n, n - 1);
    LastTaken(w, frames, Standing(w, frames, n - 1));
  }

  // A packet comes through whole in every order of arrival, repetitions included,
  // exactly when the pieces the layer makes of its frames line up.
  lemma LinesUpIff(w: Datagram, frames: seq<Frame>)
    requires CutUp(w, frames)
    ensures AlwaysRight(w, TakingOf(w, frames)) <==> LinesUp(w, frames)
  {
    if AlwaysRight(w, TakingOf(w, frames)) { RightLinesUp(w, frames); }
    if LinesUp(w, frames) { LinedUpIsRight(w, frames); }
  }

  // Pieces that are the parts themselves, the first one up to its size, line up
  // unless something follows the first part.
  lemma PartsLineUpIff(w: Datagram, frames: seq<Frame>)
    requires CutUp(w, frames) && frames[0].size % 0x1_0000 == |w.parts[0]|
    requires forall k :: 0 < k < |w.parts| ==> frames[k] == Frame(|w.parts[k]|, w.parts[k])
    ensures LinesUp(w, frames) <==> w.trailer == []
  {
    assert Recut(w, frames).parts == w.parts;
    CollectedIff(w);
  }

  lemma PartsIff(w: Datagram, frames: seq<Frame>)
    requires CutUp(w, frames) && frames[0].size % 0x1_0000 == |w.parts[0]|
    requires forall k :: 0 < k < |w.parts| ==> frames[k] == Frame(|w.parts[k]|, w.parts[k])
    ensures AlwaysRight(w, TakingOf(w, frames)) <==> w.trailer == []
  {
    LinesUpIff(w, frames);
    PartsLineUpIff(w, frames);
  }

  // Pieces that line up leave the last one no more than its part.
  lemma LastSize(w: Datagram, frames: seq<Frame>)
    requires CutUp(w, frames) && LinesUp(w, frames)
    ensures frames[|w.parts| - 1].size + |w.trailer| == |w.parts[|w.parts| - 1]|
  {
    var n, v := |w.parts|, Recut(w, frames);
    CollectedSize(v);
    assert v.parts[..n] == v.parts && w.parts[..n] == w.parts;
    RecutStarts(w, frames, n - 1);
    StartNext(v.parts, n - 1);
    StartNext(w.parts, n - 1);
  }

  function AllSeen(w: Datagram, frames: seq<Frame>): (r: seq<Fragment>)
    requires |frames| == |w.parts|
    ensures |r| == |w.parts|
  {
    seq(|w.parts|, k requires 0 <= k < |w.parts| => Seen(w, frames, k))
  }

  lemma SeenActsLike(w: Datagram, frames: seq<Frame>)
    requires CutUp(w, frames) && LinesUp(w, frames)
    ensures ActsLike(AllSeen(w, frames), Recut(w, frames))
  {
    forall p: Partial, k: nat | k < |w.parts|
      ensures Accept(p, AllSeen(w, frames)[k]) == Accept(p, FragmentOf(Recut(w, frames), k))
    {
      TakeRecut(w, frames, p, k);
    }
  }

  // Such a packet comes through amid any other traffic, too, as long as fewer than
  // `max` other packets get in between two of its fragments.
  lemma LinedUpAmidOthers(max: nat, events: seq<Event>, hash: nat, w: Datagram, frames: seq<Frame>,
                          arrivals: seq<nat>, a: nat)
    requires max > 0 && Spared(max, events, hash) && CutUp(w, frames) && LinesUp(w, frames)
    requires Within(arrivals, |w.parts|) && a < |w.parts| && Carries(events, hash, AllSeen(w, frames), arrivals)
    ensures Exec(max, events).Some? && Process(Exec(max, events).value, max, hash, Seen(w, frames, a)).Some?
    ensures var r := Process(Exec(max, events).value, max, hash, Seen(w, frames, a)).value;
            && (r.status.Reassembled? <==> Complete(w, Since(w, arrivals) + {a}))
            && (r.status.Reassembled? ==> r.status.bytes == Own(w))
            && (hash in r.store.parts <==> !r.status.Reassembled?)
  {
    var v, seen := Recut(w, frames), AllSeen(w, frames);
    RecutProper(w, frames);
    SeenActsLike(w, frames);
    RunRecut(w, frames, arrivals);
    ReassembledAmidOthersIff(max, events, hash, v, seen, arrivals, a);
    assert Complete(w, Since(w, arrivals) + {a}) <==> Complete(v, Since(w, arrivals) + {a});
  }
}

module Ipv4Fragments {
  import opened Basics
  import opened Sequences
  import opened Fragments
  import opened FragmentFrames

  // What the IPv4 layer makes of the bytes from its header on. A total length of 0
  // is ignored.
  function HeaderSize(data: seq<byte>): nat
    requires |data| >= 20
  {
    4 * (data[0] % 16)
  }

  function Kept(data: seq<byte>): nat
    requires |data| >= 20
  {
    var total := data[2] as int * 256 + data[3] as int;
    if 0 < total < |data| then total else |data|
  }

  function FrameOf(data: seq<byte>): Frame
    requires |data| >= 20
  {
    var h, kept := HeaderSize(data), Kept(data);
    Frame(kept - h, if h <= kept then data[h..kept] else [])
  }

  // The offset field counts units of 8 bytes.
  function OffsetOf(data: seq<byte>): nat
    requires |data| >= 20
  {
    8 * (data[6] as int % 32 * 256 + data[7] as int)
  }

  predicate MoreFollow(data: seq<byte>)
    requires |data| >= 20
  {
    data[6] / 32 % 2 == 1
  }

  // What is read of a frame; None for a packet that is no fragment.
  function Read(link: seq<byte>, data: seq<byte>): Option<Fragment>
    requires |data| >= 20
  {
    if OffsetOf(data) == 0 && !MoreFollow(data) then None
    else Some(Fragment(link + data, PayloadOf(FrameOf(data)), OffsetOf(data), !MoreFollow(data)))
  }

  // The frame of one fragment.
  datatype Cover = Cover(link: seq<byte>, header: seq<byte>, trailer: seq<byte>)

  datatype Cuttings = Cuttings(parts: seq<seq<byte>>, covers: seq<Cover>)

  function DataOf(d: Cuttings, k: nat): seq<byte>
    requires |d.covers| == |d.parts| && k < |d.parts|
  {
    d.covers[k].header + d.parts[k] + d.covers[k].trailer
  }

  // Headers as they are sent, byte for byte (RFC 791, section 3.1).
  ghost predicate Sent(d: Cuttings) {
    && |d.covers| == |d.parts| >= 2
    && (forall k :: 0 <= k < |d.parts| ==> d.parts[k] != []) && |Joined(d.parts)| < 0x1_0000
    && forall k :: 0 <= k < |d.parts| ==> SentHeader(d, k)
  }

  // Behind the reserved and the don't-fragment bit: the more-fragments bit, and 13
  // bits counting units of 8 bytes.
  ghost predicate SentHeader(d: Cuttings, k: nat)
    requires |d.covers| == |d.parts| && k < |d.parts|
  {
    var h, offset := d.covers[k].header, Start(d.parts, k);
    && |h| >= 20 && h[0] as int % 16 * 4 == |h|
    && h[2] as int * 256 + h[3] as int == |h| + |d.parts[k]|
    && offset % 8 == 0 && h[7] as int == offset / 8 % 256
    && h[6] as int % 64 == offset / 8 / 256 + if k < |d.parts| - 1 then 32 else 0
  }

  function Whole(d: Cuttings): Datagram
    requires |d.covers| == |d.parts| >= 2
  {
    var c := d.covers[0];
    Datagram(c.link + c.header, d.parts, c.trailer,
             seq(|d.parts|, i requires 0 <= i < |d.parts| => d.covers[i].link + DataOf(d, i)))
  }

  function Frames(d: Cuttings): seq<Frame>
    requires Sent(d)
  {
    seq(|d.parts|, i requires 0 <= i < |d.parts| => assert SentHeader(d, i); FrameOf(DataOf(d, i)))
  }

  // The payload handed over is the part itself, whatever follows it in the frame,
  // and the fields say where it belongs.
  lemma FieldBytes(offset: nat, more: bool, hi: byte, lo: byte)
    requires offset < 0x1_0000 && offset % 8 == 0
    requires lo as int == offset / 8 % 256 && hi as int % 64 == offset / 8 / 256 + if more then 32 else 0
    ensures 8 * (hi as int % 32 * 256 + lo as int) == offset && (hi / 32 % 2 == 1 <==> more)
  {
    var units := offset / 8;
    assert units == units / 256 * 256 + units % 256 && units / 256 < 32;
    assert hi as int % 32 == units / 256;
  }

  // The three fields are read back from the bytes sent.
  lemma FieldsRead(d: Cuttings, k: nat)
    requires Sent(d) && k < |d.parts|
    ensures var h := d.covers[k].header;
            && |h| >= 20 && HeaderSize(h) == |h|
            && OffsetOf(h) == Start(d.parts, k) && (MoreFollow(h) <==> k < |d.parts| - 1)
  {
    var h := d.covers[k].header;
    assert SentHeader(d, k);
    StartFits(d.parts, k);
    FieldBytes(Start(d.parts, k), k < |d.parts| - 1, h[6], h[7]);
  }

  // What the layer keeps, for all bytes: up to the total length, unless that is 0 or
  // more than there is.
  lemma FrameOfBytes(data: seq<byte>)
    requires |data| >= 20 && 4 * (data[0] as int % 16) <= |data|
    ensures var h, total := 4 * (data[0] as int % 16), data[2] as int * 256 + data[3] as int;
            && (total == 0 || total >= |data| ==> FrameOf(data) == Frame(|data| - h, data[h..]))
            && (h <= total < |data| && total > 0 ==> FrameOf(data) == Frame(total - h, data[h..total]))
            && (0 < total < h ==> FrameOf(data).size == total - h)
  {}

  // A packet is no fragment exactly when the 14 bits are all zero.
  lemma ReadsNoneIff(link: seq<byte>, data: seq<byte>)
    requires |data| >= 20
    ensures Read(link, data) == None <==> data[6] as int % 64 == 0 && data[7] == 0
  {}

  lemma ReadsPart(d: Cuttings, k: nat)
    requires Sent(d) && k < |d.parts|
    ensures |DataOf(d, k)| >= 20 && FrameOf(DataOf(d, k)) == Frame(|d.parts[k]|, d.parts[k])
    ensures OffsetOf(DataOf(d, k)) == Start(d.parts, k) && (MoreFollow(DataOf(d, k)) <==> k < |d.parts| - 1)
  {
    assert SentHeader(d, k);
    FieldsRead(d, k);
    var h, data := d.covers[k].header, DataOf(d, k);
    assert forall i :: 0 <= i < 20 ==> data[i] == h[i];
  }

  lemma ReadIs(d: Cuttings, k: nat)
    requires Sent(d) && k < |d.parts|
    ensures |DataOf(d, k)| >= 20
    ensures Read(d.covers[k].link, DataOf(d, k)) == Some(Seen(Whole(d), Frames(d), k))
  {
    ReadsPart(d, k);
    var c := d.covers[k];
    Assoc(c.link, c.header + d.parts[k], c.trailer);
    Assoc(c.link, c.header, d.parts[k]);
    if k > 0 {
      StartsDiffer(Whole(d), k, k);
    }
  }

  lemma FramesCutUp(d: Cuttings)
    requires Sent(d)
    ensures CutUp(Whole(d), Frames(d))
    ensures forall k :: 0 <= k < |d.parts| ==> Frames(d)[k] == Frame(|d.parts[k]|, d.parts[k])
  {
    forall k | 0 <= k < |d.parts|
      ensures Frames(d)[k] == Frame(|d.parts[k]|, d.parts[k]) && |d.parts[k]| < 0x1_0000
    {
      ReadsPart(d, k);
      assert SentHeader(d, k);
    }
  }

  // So over IPv4 a packet is handed out exactly when complete, in every order; with
  // its own bytes exactly when nothing follows the first fragment in its frame.
  lemma AlwaysRightIff(d: Cuttings)
    requires Sent(d)
    ensures AlwaysRight(Whole(d), TakingOf(Whole(d), Frames(d))) <==> d.covers[0].trailer == []
  {
    FramesCutUp(d);
    assert SentHeader(d, 0);
    PartsIff(Whole(d), Frames(d));
  }
}

module Ipv6Fragments {
  import opened Basics
  import opened Sequences
  import opened Fragments
  import opened FragmentFrames
  import opened Ipv6Wire
  import opened Ipv6Layer

  const FRAGMENT: byte := 44

  // What the IPv6 layer makes of the bytes from its header on: it cuts them to the
  // announced length, and takes for payload what is behind the headers it parsed.
  function FrameOf(data: seq<byte>): Frame
    requires |data| >= FIXED_LEN
  {
    var end, kept := ParsePacket(data).end, Min(|data|, Announced(data));
    Frame(kept - end, if end <= kept then data[end..kept] else [])
  }

  // Where the first header of a kind is.
  function FirstOf(headers: seq<(byte, nat)>, kind: byte): Option<nat> {
    if headers == [] then None
    else if headers[0].0 == kind then Some(headers[0].1)
    else FirstOf(headers[1..], kind)
  }

  // The fields of the fragment header at `at`.
  function OffsetAt(data: seq<byte>, at: nat): nat
    requires at + 4 <= |data|
  {
    var v := data[at + 2] as int * 256 + data[at + 3] as int;
    v - v % 8
  }

  predicate MoreFollowAt(data: seq<byte>, at: nat)
    requires at + 4 <= |data|
  {
    data[at + 3] % 2 == 1
  }

  // What is read of a frame whose fragment header lies inside; None if there is none.
  function Read(link: seq<byte>, data: seq<byte>): Option<Fragment>
    requires |data| >= FIXED_LEN
  {
    match FirstOf(ParsePacket(data).headers, FRAGMENT)
    case None => None
    case Some(at) =>
      if at + 4 > |data| then None
      else Some(Fragment(link + data, PayloadOf(FrameOf(data)), OffsetAt(data, at), !MoreFollowAt(data, at)))
  }

  // The frame of one fragment: `before` are the headers in front of the fragment header.
  datatype Cover = Cover(
    link: seq<byte>, fixed: seq<byte>, before: seq<Ext>, reserved: byte, id: seq<byte>, trailer: seq<byte>)

  // `upper` is the protocol the fragment headers name.
  datatype Cuttings = Cuttings(upper: byte, parts: seq<seq<byte>>, covers: seq<Cover>)

  // Number 44, 8 bytes: the offset in 13 bits, two reserved ones, and the flag.
  function FragmentHeader(offset: nat, more: bool, reserved: byte, id: seq<byte>): Ext
    requires |id| == 4
  {
    RawExt(44, [0, 0, offset / 256 % 256, offset % 256 / 8 * 8 + reserved % 4 * 2 + if more then 1 else 0] + id)
  }

  predicate Shaped(d: Cuttings) {
    && |d.covers| == |d.parts| >= 2
    && forall k :: 0 <= k < |d.parts| ==> |d.covers[k].fixed| == FIXED_LEN && |d.covers[k].id| == 4
  }

  function Headers(d: Cuttings, k: nat): seq<Ext>
    requires Shaped(d) && k < |d.parts|
  {
    d.covers[k].before
    + [FragmentHeader(Start(d.parts, k), k < |d.parts| - 1, d.covers[k].reserved, d.covers[k].id)]
  }

  function DataOf(d: Cuttings, k: nat): seq<byte>
    requires Shaped(d) && k < |d.parts|
  {
    Packet(d.covers[k].fixed, Headers(d, k), d.upper, d.parts[k] + d.covers[k].trailer)
  }

  function HeadersEnd(d: Cuttings, k: nat): nat
    requires Shaped(d) && k < |d.parts|
  {
    FIXED_LEN + Total(Headers(d, k))
  }

  // Fragments as they are sent (RFC 8200, section 4.5): the payload length counts
  // headers and part, and all parts but the last are made of units of 8 bytes.
  ghost predicate Sent(d: Cuttings) {
    && Shaped(d) && |Joined(d.parts)| < 0x1_0000
    && (forall k :: 0 <= k < |d.parts| ==> d.parts[k] != [])
    && (forall k :: 0 <= k < |d.parts| - 1 ==> |d.parts[k]| % 8 == 0)
    && forall k :: 0 <= k < |d.parts| ==> SentHeader(d, k)
  }

  ghost predicate SentHeader(d: Cuttings, k: nat)
    requires Shaped(d) && k < |d.parts|
  {
    var c := d.covers[k];
    && c.fixed[4] as int * 256 + c.fixed[5] as int == Total(Headers(d, k)) + |d.parts[k]|
    && forall i :: 0 <= i < |c.before| ==> c.before[i].kind != 44
  }

  function Whole(d: Cuttings): Datagram
    requires Shaped(d)
  {
    var c := d.covers[0];
    var front := DataOf(d, 0)[..|DataOf(d, 0)| - |d.parts[0]| - |c.trailer|];
    Datagram(c.link + front, d.parts, c.trailer,
             seq(|d.parts|, i requires 0 <= i < |d.parts| => d.covers[i].link + DataOf(d, i)))
  }

  // ---------- what the layer takes for the payload ----------

  // How many bytes behind the headers sent pass for further headers.
  function Beyond(d: Cuttings, k: nat): int
    requires Shaped(d) && k < |d.parts| && |DataOf(d, k)| >= FIXED_LEN
  {
    ParsePacket(DataOf(d, k)).end - HeadersEnd(d, k)
  }

  lemma DataLaidOut(d: Cuttings, k: nat)
    requires Shaped(d) && k < |d.parts|
    ensures var data, end := DataOf(d, k), HeadersEnd(d, k);
            && |data| == end + |d.parts[k]| + |d.covers[k].trailer| && end >= FIXED_LEN + 8
            && data[end..] == d.parts[k] + d.covers[k].trailer
            && data[4] == d.covers[k].fixed[4] && data[5] == d.covers[k].fixed[5]
            && data[FIXED_LEN..end] == Body(Headers(d, k), d.upper)
  {
    BodyLength(Headers(d, k), d.upper);
    TotalSnoc(d.covers[k].before, Headers(d, k)[|d.covers[k].before|]);
  }

  lemma Parsed(d: Cuttings, k: nat)
    requires Shaped(d) && k < |d.parts|
    ensures |DataOf(d, k)| >= FIXED_LEN
    ensures var data, end := DataOf(d, k), HeadersEnd(d, k);
            var rest := ParseFrom(data, d.upper, end);
            && ParsePacket(data).end == rest.end >= end
            && ParsePacket(data).headers == Entries(Headers(d, k), FIXED_LEN) + rest.headers
  {
    var data, end := DataOf(d, k), HeadersEnd(d, k);
    DataLaidOut(d, k);
    ParseBody(data, FIXED_LEN, Headers(d, k), d.upper, end, ParseFrom(data, d.upper, end));
    ParseGoesOn(data, d.upper, end);
  }

  lemma BeyondIff(d: Cuttings, k: nat)
    requires Shaped(d) && k < |d.parts|
    ensures |DataOf(d, k)| >= FIXED_LEN && Beyond(d, k) >= 0
    ensures Beyond(d, k) == 0 <==> Ends(d.upper, d.parts[k] + d.covers[k].trailer)
  {
    var data, end := DataOf(d, k), HeadersEnd(d, k);
    DataLaidOut(d, k);
    Parsed(d, k);
    if IsExtension(d.upper) && end + 2 <= |data| {
      ParseGoesOn(data, data[end], end + HeaderLen(d.upper, data[end + 1]));
    }
  }

  // The layer's payload: the part and what follows it, without the bytes taken for
  // headers, and cut off only where the header bytes counted twice have run out.
  lemma FrameIs(d: Cuttings, k: nat)
    requires Sent(d) && k < |d.parts|
    ensures |DataOf(d, k)| >= FIXED_LEN && Beyond(d, k) >= 0
    ensures var f, e, rest := FrameOf(DataOf(d, k)), Beyond(d, k), d.parts[k] + d.covers[k].trailer;
            var most := Total(Headers(d, k)) + |d.parts[k]|;
            && f.size == (if |rest| - e <= most then |rest| - e else most) && f.size < 0x1_0000
            && (f.size >= 0 ==> e + f.size <= |rest| && f.payload == rest[e..e + f.size])
  {
    assert SentHeader(d, k);
    DataLaidOut(d, k);
    Parsed(d, k);
    FrameBehind(DataOf(d, k), HeadersEnd(d, k), d.parts[k] + d.covers[k].trailer, Beyond(d, k), FrameOf(DataOf(d, k)));
  }

  lemma FrameBehind(data: seq<byte>, end: nat, rest: seq<byte>, e: nat, f: Frame)
    requires FIXED_LEN <= end <= |data| && data[end..] == rest
    requires ParsePacket(data).end == end + e && f == FrameOf(data)
    ensures && f.size == Min(|data|, Announced(data)) - end - e
            && (f.size >= 0 ==> e + f.size <= |rest| && f.payload == rest[e..e + f.size])
  {}

  // With nothing behind it, the part is handed over exactly when no header is seen
  // in it; with no header seen, exactly when nothing follows it.
  lemma PartIff(d: Cuttings, k: nat)
    requires Sent(d) && k < |d.parts|
    ensures |DataOf(d, k)| >= FIXED_LEN
    ensures var f, part, trailer := FrameOf(DataOf(d, k)), d.parts[k], d.covers[k].trailer;
            && (trailer == [] ==> (f == Frame(|part|, part) <==> Ends(d.upper, part)))
            && (Ends(d.upper, part + trailer) ==> (f == Frame(|part|, part) <==> trailer == []))
            && (trailer == [] ==> f.size == |part| - Beyond(d, k))
            && (Ends(d.upper, part + trailer) ==> |part| <= f.size && (f.size == |part| <==> trailer == []))
  {
    var part, trailer := d.parts[k], d.covers[k].trailer;
    FrameIs(d, k);
    BeyondIff(d, k);
    DataLaidOut(d, k);
    assert (part + trailer)[0..|part|] == part;
  }

  // ---------- where the layer says the fragment belongs ----------

  lemma {:induction false} FirstOfBehind(exts: seq<Ext>, at: nat, more: seq<(byte, nat)>)
    requires forall i :: 0 <= i < |exts| ==> exts[i].kind != FRAGMENT
    ensures FirstOf(Entries(exts, at) + more, FRAGMENT) == FirstOf(more, FRAGMENT)
    decreases |exts|
  {
    if exts == [] {
      assert [] + more == more;
    } else {
      var rest := Entries(exts[1..], at + |exts[0].bytes|);
      FirstOfBehind(exts[1..], at + |exts[0].bytes|, more);
      assert (Entries(exts, at) + more)[1..] == rest + more;
    }
  }

  lemma {:induction false} StartInUnits(parts: seq<seq<byte>>, k: nat)
    requires k < |parts| && forall i :: 0 <= i < |parts| - 1 ==> |parts[i]| % 8 == 0
    ensures Start(parts, k) % 8 == 0
  {
    if k > 0 {
      StartInUnits(parts, k - 1);
      StartNext(parts, k - 1);
    } else {
      assert parts[..0] == [];
    }
  }

  // The first fragment header is the one that was sent.
  lemma FragmentHeaderFound(d: Cuttings, k: nat)
    requires Sent(d) && k < |d.parts|
    ensures |DataOf(d, k)| >= FIXED_LEN
    ensures FirstOf(ParsePacket(DataOf(d, k)).headers, FRAGMENT) == Some(FIXED_LEN + Total(d.covers[k].before))
  {
    var data, end, c := DataOf(d, k), HeadersEnd(d, k), d.covers[k];
    var h := Headers(d, k)[|c.before|];
    var more := ParseFrom(data, d.upper, end).headers;
    assert SentHeader(d, k);
    Parsed(d, k);
    EntriesSnoc(c.before, h, FIXED_LEN);
    var found := [(FRAGMENT, FIXED_LEN + Total(c.before))];
    Assoc(Entries(c.before, FIXED_LEN), found, more);
    FirstOfBehind(c.before, FIXED_LEN, found + more);
  }

  lemma HeaderBytes(d: Cuttings, k: nat)
    requires Shaped(d) && k < |d.parts|
    ensures var data, at := DataOf(d, k), FIXED_LEN + Total(d.covers[k].before);
            var h := FragmentHeader(Start(d.parts, k), k < |d.parts| - 1, d.covers[k].reserved, d.covers[k].id);
            at + 4 <= |data| && data[at + 2] == h.bytes[2] && data[at + 3] == h.bytes[3]
  {
    var data, end, c := DataOf(d, k), HeadersEnd(d, k), d.covers[k];
    var h := Headers(d, k)[|c.before|];
    DataLaidOut(d, k);
    BodySnoc(c.before, h, d.upper);
    BodyLength(c.before, FRAGMENT);
    TotalSnoc(c.before, h);
    var at := FIXED_LEN + Total(c.before);
    forall i | 2 <= i < 4 ensures data[at + i] == h.bytes[i] {
      assert data[FIXED_LEN..end][Total(c.before) + i] == h.bytes[0 := d.upper][i];
    }
  }

  // Its fields are read back.
  lemma FieldsRead(d: Cuttings, k: nat)
    requires Sent(d) && k < |d.parts|
    ensures var data, at := DataOf(d, k), FIXED_LEN + Total(d.covers[k].before);
            && at + 4 <= |data| && OffsetAt(data, at) == Start(d.parts, k)
            && (MoreFollowAt(data, at) <==> k < |d.parts| - 1)
  {
    HeaderBytes(d, k);
    StartInUnits(d.parts, k);
    StartFits(d.parts, k);
    FieldBytes(Start(d.parts, k), k < |d.parts| - 1, d.covers[k].reserved);
  }

  lemma FieldBytes(offset: nat, more: bool, reserved: byte)
    requires offset < 0x1_0000 && offset % 8 == 0
    ensures var lo := offset % 256 / 8 * 8 + reserved % 4 * 2 + if more then 1 else 0;
            var v := offset / 256 % 256 * 256 + lo;
            v - v % 8 == offset && (lo % 2 == 1 <==> more)
  {
    assert offset % 256 / 8 * 8 == offset % 256;
    assert offset == offset / 256 * 256 + offset % 256;
  }

  // ---------- when an IPv6 packet comes through ----------

  function Frames(d: Cuttings): seq<Frame>
    requires Sent(d)
  {
    seq(|d.parts|, i requires 0 <= i < |d.parts| => FrameIs(d, i); FrameOf(DataOf(d, i)))
  }

  lemma WholeFirst(d: Cuttings)
    requires Shaped(d)
    ensures FragmentOf(Whole(d), 0).raw == d.covers[0].link + DataOf(d, 0)
  {
    var c, data, end := d.covers[0], DataOf(d, 0), HeadersEnd(d, 0);
    DataLaidOut(d, 0);
    assert data == data[..end] + (d.parts[0] + c.trailer);
    Assoc(data[..end], d.parts[0], c.trailer);
    Assoc(c.link, data[..end] + d.parts[0], c.trailer);
    Assoc(c.link, data[..end], d.parts[0]);
  }

  lemma ReadIs(d: Cuttings, k: nat)
    requires Sent(d) && k < |d.parts|
    ensures |DataOf(d, k)| >= FIXED_LEN
    ensures Read(d.covers[k].link, DataOf(d, k)) == Some(Seen(Whole(d), Frames(d), k))
  {
    FrameIs(d, k);
    FragmentHeaderFound(d, k);
    FieldsRead(d, k);
    SeenIs(d, k);
    ReadAt(d.covers[k].link, DataOf(d, k), FIXED_LEN + Total(d.covers[k].before));
  }

  lemma SeenIs(d: Cuttings, k: nat)
    requires Sent(d) && k < |d.parts|
    ensures |DataOf(d, k)| >= FIXED_LEN
    ensures Seen(Whole(d), Frames(d), k)
            == Fragment(d.covers[k].link + DataOf(d, k), PayloadOf(FrameOf(DataOf(d, k))), Start(d.parts, k),
                        k == |d.parts| - 1)
  {
    DataLaidOut(d, k);
    WholeFirst(d);
  }

  lemma ReadAt(link: seq<byte>, data: seq<byte>, at: nat)
    requires |data| >= FIXED_LEN && FirstOf(ParsePacket(data).headers, FRAGMENT) == Some(at) && at + 4 <= |data|
    ensures Read(link, data)
            == Some(Fragment(link + data, PayloadOf(FrameOf(data)), OffsetAt(data, at), !MoreFollowAt(data, at)))
  {}

  ghost predicate ComesThrough(d: Cuttings)
    requires Sent(d)
  {
    AlwaysRight(Whole(d), TakingOf(Whole(d), Frames(d)))
  }

  predicate NoTrailers(d: Cuttings)
    requires Shaped(d)
  {
    forall k :: 0 <= k < |d.parts| ==> d.covers[k].trailer == []
  }

  lemma FramesCutUp(d: Cuttings)
    requires Sent(d)
    ensures CutUp(Whole(d), Frames(d))
  {
    forall k | 0 <= k < |d.parts|
      ensures Frames(d)[k].size < 0x1_0000 && (Frames(d)[k].size >= 0 ==> |Frames(d)[k].payload| == Frames(d)[k].size)
    {
      FrameIs(d, k);
    }
  }

  // What the layer does with a frame, in short: `beyond` bytes of it pass for headers.
  ghost predicate Described(upper: byte, part: seq<byte>, trailer: seq<byte>, f: Frame, beyond: int) {
    && f.size < 0x1_0000 && (beyond == 0 <==> Ends(upper, part + trailer))
    && (trailer == [] ==> f.size == |part| - beyond && 0 <= beyond < 2 * 0x1_0000)
    && (trailer == [] ==> (f == Frame(|part|, part) <==> Ends(upper, part)))
    && (!IsExtension(upper) ==> |part| <= f.size && (f.size == |part| <==> trailer == []))
  }

  ghost predicate Table(d: Cuttings, frames: seq<Frame>, beyond: seq<int>)
    requires Shaped(d)
  {
    && |frames| == |beyond| == |d.parts|
    && forall k :: 0 <= k < |d.parts| ==> Described(d.upper, d.parts[k], d.covers[k].trailer, frames[k], beyond[k])
  }

  // A header parsed begins two bytes before the end of the data at the latest.
  lemma {:induction false} ParseReach(data: seq<byte>, kind: byte, at: nat)
    ensures ParseFrom(data, kind, at).end <= at || ParseFrom(data, kind, at).end <= |data| + 2046
    decreases |data| - at
  {
    if IsExtension(kind) && at + 2 <= |data| {
      ParseReach(data, data[at], at + HeaderLen(kind, data[at + 1]));
    }
  }

  lemma BeyondBounded(d: Cuttings, k: nat)
    requires Sent(d) && k < |d.parts| && d.covers[k].trailer == []
    ensures |DataOf(d, k)| >= FIXED_LEN && 0 <= Beyond(d, k) < 2 * 0x1_0000
  {
    DataLaidOut(d, k);
    Parsed(d, k);
    ParseReach(DataOf(d, k), d.upper, HeadersEnd(d, k));
    assert SentHeader(d, k);
  }

  lemma Describes(d: Cuttings, k: nat)
    requires Sent(d) && k < |d.parts|
    ensures |DataOf(d, k)| >= FIXED_LEN
    ensures Described(d.upper, d.parts[k], d.covers[k].trailer, FrameOf(DataOf(d, k)), Beyond(d, k))
  {
    FrameIs(d, k);
    PartIff(d, k);
    BeyondIff(d, k);
    if d.covers[k].trailer == [] { BeyondBounded(d, k); }
  }

  lemma TableOf(d: Cuttings) returns (beyond: seq<int>)
    requires Sent(d)
    ensures Table(d, Frames(d), beyond)
    ensures beyond[0] == 0x1_0000 <==> RunsRound(d)
  {
    forall k | 0 <= k < |d.parts| ensures |DataOf(d, k)| >= FIXED_LEN { DataLaidOut(d, k); }
    beyond := seq(|d.parts|, i requires 0 <= i < |d.parts| => Beyond(d, i));
    forall k | 0 <= k < |d.parts|
      ensures Described(d.upper, d.parts[k], d.covers[k].trailer, Frames(d)[k], beyond[k])
    {
      Describes(d, k);
    }
  }

  // The sizes of pieces that line up.
  ghost predicate SizesLineUp(d: Cuttings, frames: seq<Frame>)
    requires Shaped(d) && |frames| == |d.parts|
  {
    var n := |d.parts|;
    && frames[0].size % 0x1_0000 == |d.parts[0]|
    && (forall k :: 0 < k < n - 1 ==> frames[k].size == |d.parts[k]|)
    && frames[n - 1].size + |d.covers[0].trailer| == |d.parts[n - 1]|
  }

  lemma NoTrailerFits(d: Cuttings, frames: seq<Frame>, beyond: seq<int>)
    requires Shaped(d) && Table(d, frames, beyond) && SizesLineUp(d, frames) && !IsExtension(d.upper)
    ensures NoTrailers(d)
  {
    forall k | 0 <= k < |d.parts| ensures d.covers[k].trailer == [] {
      assert Described(d.upper, d.parts[0], d.covers[0].trailer, frames[0], beyond[0]);
      assert Described(d.upper, d.parts[k], d.covers[k].trailer, frames[k], beyond[k]);
    }
  }

  lemma NoHeaderFits(d: Cuttings, frames: seq<Frame>, beyond: seq<int>)
    requires Shaped(d) && NoTrailers(d) && Table(d, frames, beyond) && SizesLineUp(d, frames)
    requires forall k :: 0 <= k < |d.parts| - 1 ==> |d.parts[k]| >= 8
    requires |d.parts[|d.parts| - 1]| >= 1
    ensures !IsExtension(d.upper) || (beyond[0] == 0x1_0000 && |d.parts| == 2 && |d.parts[1]| == 1)
  {
    assert d.parts[0] + [] == d.parts[0] && d.parts[1] + [] == d.parts[1];
    assert Described(d.upper, d.parts[0], d.covers[0].trailer, frames[0], beyond[0]);
    assert Described(d.upper, d.parts[1], d.covers[1].trailer, frames[1], beyond[1]);
  }

  lemma TableLinesUp(d: Cuttings, frames: seq<Frame>, beyond: seq<int>, w: Datagram)
    requires Shaped(d) && NoTrailers(d) && Table(d, frames, beyond)
    requires CutUp(w, frames) && w.parts == d.parts && w.trailer == [] && |d.parts[0]| < 0x1_0000
    requires !IsExtension(d.upper) || (beyond[0] == 0x1_0000 && |d.parts| == 2 && |d.parts[1]| == 1)
    ensures LinesUp(w, frames)
  {
    forall k | 0 <= k < |d.parts|
      ensures k > 0 || !IsExtension(d.upper) ==> frames[k] == Frame(|d.parts[k]|, d.parts[k])
      ensures k == 0 ==> frames[k].size % 0x1_0000 == |d.parts[k]|
    {
      assert Described(d.upper, d.parts[k], d.covers[k].trailer, frames[k], beyond[k]);
    }
    PartsLineUpIff(w, frames);
  }

  lemma PartFits(d: Cuttings, k: nat)
    requires Sent(d) && k < |d.parts|
    ensures |d.parts[k]| < 0x1_0000 && (k < |d.parts| - 1 ==> |d.parts[k]| >= 8)
  {
    assert SentHeader(d, k);
  }

  // The bytes taken for headers run past the first frame, all the way round the
  // 16-bit offset.
  predicate RunsRound(d: Cuttings)
    requires Shaped(d)
  {
    DataLaidOut(d, 0);
    ParsePacket(DataOf(d, 0)).end == HeadersEnd(d, 0) + 0x1_0000
  }

  lemma NoTrailersTable(d: Cuttings, frames: seq<Frame>, beyond: seq<int>, w: Datagram)
    requires Shaped(d) && Table(d, frames, beyond) && !IsExtension(d.upper)
    requires CutUp(w, frames) && w.parts == d.parts && w.trailer == d.covers[0].trailer && |d.parts[0]| < 0x1_0000
    ensures LinesUp(w, frames) <==> NoTrailers(d)
  {
    if NoTrailers(d) {
      TableLinesUp(d, frames, beyond, w);
    } else if LinesUp(w, frames) {
      LastSize(w, frames);
      NoTrailerFits(d, frames, beyond);
    }
  }

  // For a protocol that is no extension header: exactly when nothing follows any of
  // the fragments in its frame.
  lemma NoTrailersIff(d: Cuttings)
    requires Sent(d) && !IsExtension(d.upper)
    ensures ComesThrough(d) <==> NoTrailers(d)
  {
    var beyond := TableOf(d);
    FramesCutUp(d);
    PartFits(d, 0);
    LinesUpIff(Whole(d), Frames(d));
    NoTrailersTable(d, Frames(d), beyond, Whole(d));
  }

  predicate ComesRound(d: Cuttings, round: bool)
    requires Shaped(d)
  {
    round && |d.parts| == 2 && |d.parts[1]| == 1
  }

  lemma NoExtensionTable(d: Cuttings, frames: seq<Frame>, beyond: seq<int>, w: Datagram)
    requires Shaped(d) && Table(d, frames, beyond) && NoTrailers(d)
    requires CutUp(w, frames) && w.parts == d.parts && w.trailer == [] && |d.parts[0]| < 0x1_0000
    requires forall k :: 0 <= k < |d.parts| - 1 ==> |d.parts[k]| >= 8
    ensures LinesUp(w, frames) <==> !IsExtension(d.upper) || ComesRound(d, beyond[0] == 0x1_0000)
  {
    if LinesUp(w, frames) {
      LastSize(w, frames);
      NoHeaderFits(d, frames, beyond);
    } else if !IsExtension(d.upper) || ComesRound(d, beyond[0] == 0x1_0000) {
      TableLinesUp(d, frames, beyond, w);
    }
  }

  // With nothing behind any fragment: exactly when the protocol is no extension
  // header, but for the one case in which the offset comes round to its place again
  // and the other fragment is too short to hold a header.
  lemma NoExtensionIff(d: Cuttings)
    requires Sent(d) && NoTrailers(d)
    ensures ComesThrough(d) <==> !IsExtension(d.upper) || ComesRound(d, RunsRound(d))
  {
    var beyond := TableOf(d);
    FramesCutUp(d);
    LinesUpIff(Whole(d), Frames(d));
    forall k | 0 <= k < |d.parts| - 1 ensures |d.parts[k]| >= 8 { PartFits(d, k); }
    PartFits(d, 0);
    NoExtensionTable(d, Frames(d), beyond, Whole(d));
  }

  // With both in play a packet may come through by chance: what follows the first
  // fragment can stand in for bytes of the second one that pass for a header.
  lemma BothCanCancel(d: Cuttings)
    requires Sent(d) && d.upper == AUTHENTICATION && |d.parts| == 2
    requires |d.parts[0]| >= 2 && d.parts[0][..2] == [17, 0]
    requires |d.parts[1]| >= 8 && d.parts[1][..2] == [17, 0]
    requires d.covers[0].trailer == d.parts[1][..8] && d.covers[1].trailer == []
    ensures ComesThrough(d)
  {
    FramesCutUp(d);
    LinesUpIff(Whole(d), Frames(d));
    OneHeaderSeen(d, 0);
    OneHeaderSeen(d, 1);
    CancelledFrames(d);
    CancelledOut(Whole(d), Frames(d));
  }

  lemma CancelledFrames(d: Cuttings)
    requires Sent(d) && |d.parts| == 2 && |d.parts[1]| >= 8
    requires |d.covers[0].trailer| == 8 && d.covers[1].trailer == []
    requires forall k :: 0 <= k < 2 ==> |DataOf(d, k)| >= FIXED_LEN && Beyond(d, k) == 8
    ensures Frames(d)[0].size == |d.parts[0]| && Frames(d)[1] == Frame(|d.parts[1]| - 8, d.parts[1][8..])
  {
    FrameIs(d, 0);
    FrameIs(d, 1);
    assert d.parts[1] + [] == d.parts[1];
  }

  lemma CancelledOut(w: Datagram, frames: seq<Frame>)
    requires CutUp(w, frames) && |w.parts| == 2 && |w.parts[1]| >= 8 && w.trailer == w.parts[1][..8]
    requires frames[0].size == |w.parts[0]| && frames[1] == Frame(|w.parts[1]| - 8, w.parts[1][8..])
    ensures LinesUp(w, frames)
  {
    var v, a, b := Recut(w, frames), w.parts[0], w.parts[1];
    StartFits(w.parts, 1);
    JoinedSnoc([], a);
    JoinedSnoc([], b[8..]);
    JoinedSnoc([a], b);
    assert w.parts[..1] == [] + [a] && w.parts == [a] + [b] && v.parts[1..2] == [] + [b[8..]];
    assert w.header + a + b[..8] + b[8..] == w.header + (a + b);
  }

  // Two bytes naming a protocol that is no extension, and the length 8.
  lemma OneHeaderSeen(d: Cuttings, k: nat)
    requires Shaped(d) && d.upper == AUTHENTICATION && k < |d.parts|
    requires |d.parts[k]| >= 2 && d.parts[k][..2] == [17, 0]
    ensures |DataOf(d, k)| >= FIXED_LEN && Beyond(d, k) == 8
  {
    var data, end := DataOf(d, k), HeadersEnd(d, k);
    DataLaidOut(d, k);
    Parsed(d, k);
    assert data[end] == d.parts[k][..2][0] && data[end + 1] == d.parts[k][..2][1];
    ParseOne(data, d.upper, end, 8);
  }
}
