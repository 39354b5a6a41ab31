// Reassembling IP fragments (lesson2/PcapPlPl_snifer/lib/src/IPReassembly.cpp).
//
// `Fragments` is what happens to the fragments of one packet, `FragmentStore` the
// bounded collection of unfinished packets as a value, and `Reassembly` the
// objects that are updated in place.

module Fragments {
  import opened Basics

  // A fragment that came before its turn.
  datatype Late = Late(offset: nat, last: bool, data: seq<byte>)

  // What has been collected of a packet: the bytes from its first fragment on,
  // and the offset at which they go on.
  datatype Partial = Partial(currentOffset: nat, data: Option<seq<byte>>, late: seq<Late>)

  const NOTHING := Partial(0, None, [])

  // A received packet: `raw` are all its bytes, `payload` those behind its IP header.
  datatype Fragment = Fragment(raw: seq<byte>, payload: seq<byte>, offset: nat, last: bool)

  datatype Status =
    | FirstFragment
    | AnyFragment
    | OutOfOrder
    | Malformed
    | Reassembled(bytes: seq<byte>)

  // Offsets are kept in 16 bits.
  function Wrap(n: nat): nat { n % 0x1_0000 }

  // ---------- matchOutOfOrderFragments ----------

  datatype Scan = Scan(at: nat, bytes: seq<byte>, left: seq<Late>, gotLast: bool)

  // One walk along the list: a fragment that is next is taken out, and the walk goes on.
  function Pass(at: nat, late: seq<Late>): Scan
    decreases |late|
  {
    if late == [] then Scan(at, [], [], false)
    else if late[0].offset == at then
      var s := Pass(Wrap(at + |late[0].data|), late[1..]);
      Scan(s.at, late[0].data + s.bytes, s.left, late[0].last || s.gotLast)
    else
      var s := Pass(at, late[1..]);
      s.(left := [late[0]] + s.left)
  }

  lemma {:induction false} PassShrinks(at: nat, late: seq<Late>)
    ensures |Pass(at, late).left| <= |late|
    ensures |Pass(at, late).left| == |late| ==> Pass(at, late) == Scan(at, [], late, false)
    decreases |late|
  {
    if late != [] {
      PassShrinks(if late[0].offset == at then Wrap(at + |late[0].data|) else at, late[1..]);
    }
  }

  // Walks until the last fragment was found or a walk found nothing.
  function Match(at: nat, late: seq<Late>): Scan
    decreases |late|
  {
    PassShrinks(at, late);
    var s := Pass(at, late);
    if s.gotLast || |s.left| == |late| then s
    else
      var t := Match(s.at, s.left);
      t.(bytes := s.bytes + t.bytes)
  }

  // ---------- one fragment of a known packet ----------

  function Matched(data: seq<byte>, s: Scan, otherwise: Status): (Partial, Status) {
    (Partial(s.at, Some(data + s.bytes), s.left), if s.gotLast then Reassembled(data + s.bytes) else otherwise)
  }

  // Under either protocol the first fragment is the one at offset 0.
  function Accept(p: Partial, f: Fragment): (Partial, Status) {
    if f.offset == 0 then
      if p.data.Some? then (p, AnyFragment)
      else Matched(f.raw, Match(Wrap(|f.payload|), p.late), FirstFragment)
    else if p.currentOffset == f.offset then
      match p.data
      case None => (p, Malformed)
      case Some(data) =>
        var at := Wrap(p.currentOffset + |f.payload|);
        if f.last then Matched(data + f.payload, Scan(at, [], p.late, true), AnyFragment)
        else Matched(data + f.payload, Match(at, p.late), AnyFragment)
    else if f.offset > p.currentOffset then (p.(late := p.late + [Late(f.offset, f.last, f.payload)]), OutOfOrder)
    else (p, AnyFragment)
  }

  ghost predicate Sound(p: Partial) { p.data == None ==> p.currentOffset == 0 }

  // The status MALFORMED_FRAGMENT is never reported.
  lemma AcceptSound(p: Partial, f: Fragment)
    requires Sound(p)
    ensures Sound(Accept(p, f).0) && Accept(p, f).1 != Malformed
  {}

  // No packet is finished by the first of its fragments to arrive, so the entry that
  // is erased in the end is always one that was found at the beginning.
  lemma NotAtOnce(f: Fragment)
    ensures !Accept(NOTHING, f).1.Reassembled?
  {}

  // While nothing waits, a fragment in its turn is all that is added.
  lemma AcceptInTurn(p: Partial, f: Fragment)
    requires p.late == [] && f.offset == p.currentOffset && (p == NOTHING || (p.data.Some? && f.offset > 0))
    ensures var at := (p.currentOffset + |f.payload|) % 65536;
            var data := if p == NOTHING then f.raw else p.data.value + f.payload;
            Accept(p, f)
            == (Partial(at, Some(data), []),
                if p == NOTHING then FirstFragment else if f.last then Reassembled(data) else AnyFragment)
  {
    var data := if p == NOTHING then f.raw else p.data.value + f.payload;
    assert data + [] == data;
  }

  // ---------- the fragments of one packet, in any order ----------

  // `parts` are the payloads in order; `header` is in front of the first one in
  // its frame, and `trailer` behind it; `others` are the frames of the other parts.
  datatype Datagram = Datagram(header: seq<byte>, parts: seq<seq<byte>>, trailer: seq<byte>, others: seq<seq<byte>>)

  function Joined(parts: seq<seq<byte>>): seq<byte> {
    if parts == [] then [] else parts[0] + Joined(parts[1..])
  }

  function Start(parts: seq<seq<byte>>, k: nat): nat
    requires k <= |parts|
  {
    |Joined(parts[..k])|
  }

  // Every fragment but the last surely carries something, and the length of the
  // packet fits its field.
  ghost predicate Proper(w: Datagram) {
    w.parts != [] && (forall k :: 0 <= k < |w.parts| - 1 ==> w.parts[k] != []) && |Joined(w.parts)| < 0x1_0000
  }

  // The last fragment, if it is empty, ends where it begins.
  predicate NoStep(parts: seq<seq<byte>>, j: nat, k: nat)
    requires j < |parts|
  {
    j == |parts| - 1 && k == |parts| && parts[j] == []
  }

  function FragmentOf(w: Datagram, k: nat): Fragment
    requires k < |w.parts|
  {
    Fragment(if k == 0 then w.header + w.parts[0] + w.trailer else if k < |w.others| then w.others[k] else [],
             w.parts[k], Start(w.parts, k), k == |w.parts| - 1)
  }

  function LateOf(w: Datagram, k: nat): Late
    requires k < |w.parts|
  {
    Late(Start(w.parts, k), k == |w.parts| - 1, w.parts[k])
  }

  predicate Within(ks: seq<nat>, n: nat) { forall i :: 0 <= i < |ks| ==> ks[i] < n }

  function Lates(w: Datagram, ks: seq<nat>): seq<Late>
    requires Within(ks, |w.parts|)
  {
    seq(|ks|, i requires 0 <= i < |ks| => LateOf(w, ks[i]))
  }

  function Between(w: Datagram, j: nat, k: nat): seq<byte>
    requires j <= k <= |w.parts|
  {
    Joined(w.parts[j..k])
  }

  // The bytes of the first k fragments, as they are put together.
  function Collected(w: Datagram, k: nat): seq<byte>
    requires 0 < k <= |w.parts|
  {
    w.header + w.parts[0] + w.trailer + Between(w, 1, k)
  }

  lemma {:induction false} JoinedSnoc(parts: seq<seq<byte>>, x: seq<byte>)
    ensures Joined(parts + [x]) == Joined(parts) + x
  {
    if parts == [] {
      assert (parts + [x])[1..] == [];
    } else {
      JoinedSnoc(parts[1..], x);
      assert (parts + [x])[1..] == parts[1..] + [x];
    }
  }

  lemma StartNext(parts: seq<seq<byte>>, k: nat)
    requires k < |parts|
    ensures Start(parts, k + 1) == Start(parts, k) + |parts[k]|
  {
    assert parts[..k + 1] == parts[..k] + [parts[k]];
    JoinedSnoc(parts[..k], parts[k]);
  }

  lemma {:induction false} StartGrows(parts: seq<seq<byte>>, j: nat, k: nat)
    requires j < k <= |parts| && forall i :: 0 <= i < |parts| - 1 ==> parts[i] != []
    ensures Start(parts, j) <= Start(parts, k) && (Start(parts, j) == Start(parts, k) <==> NoStep(parts, j, k))
  {
    StartNext(parts, k - 1);
    if j < k - 1 {
      StartGrows(parts, j, k - 1);
    }
  }

  // Offsets tell the fragments apart, and none wraps.
  lemma StartsDiffer(w: Datagram, j: nat, k: nat)
    requires Proper(w) && j < |w.parts| && k <= |w.parts|
    ensures Start(w.parts, j) == Start(w.parts, k) <==> j == k || NoStep(w.parts, j, k)
    ensures Start(w.parts, j) < Start(w.parts, k) <==> j < k && !NoStep(w.parts, j, k)
    ensures Start(w.parts, k) < 0x1_0000 && (k < |w.parts| ==> (Start(w.parts, k) == 0 <==> k == 0))
  {
    if j < k { StartGrows(w.parts, j, k); }
    if k < j { StartGrows(w.parts, k, j); }
    if k > 0 { StartGrows(w.parts, 0, k); }
    if k < |w.parts| { StartGrows(w.parts, k, |w.parts|); }
    assert w.parts[..|w.parts|] == w.parts && w.parts[..0] == [];
  }

  lemma BetweenCons(w: Datagram, j: nat, k: nat)
    requires j < k <= |w.parts|
    ensures Between(w, j, k) == w.parts[j] + Between(w, j + 1, k)
  {
    assert w.parts[j..k][1..] == w.parts[j + 1..k];
  }

  lemma {:induction false} BetweenJoin(w: Datagram, i: nat, j: nat, k: nat)
    requires i <= j <= k <= |w.parts|
    ensures Between(w, i, j) + Between(w, j, k) == Between(w, i, k)
    decreases j - i
  {
    if i < j {
      BetweenCons(w, i, j);
      BetweenCons(w, i, k);
      BetweenJoin(w, i + 1, j, k);
    } else {
      assert w.parts[i..i] == [];
    }
  }

  // Matching took the fragments from j up to k, leaving `left` of those in `ks`.
  ghost predicate Took(w: Datagram, ks: seq<nat>, j: nat, s: Scan, k: nat, left: seq<nat>)
    requires Within(ks, |w.parts|)
  {
    && j <= k <= |w.parts| && s.at == Start(w.parts, k) && s.bytes == Between(w, j, k)
    && Within(left, |w.parts|) && s.left == Lates(w, left)
    && (s.gotLast ==> k == |w.parts|) && (j < k == |w.parts| ==> s.gotLast)
    && (forall i :: j <= i < k ==> i in ks)
    && (forall i :: i in left ==> i in ks)
    && (forall i :: i in ks && k <= i ==> i in left)
  }

  lemma TookHead(w: Datagram, rest: seq<nat>, j: nat, s: Scan, k: nat, left: seq<nat>)
    requires j < |w.parts| && Within(rest, |w.parts|) && Took(w, rest, j + 1, s, k, left)
    ensures Took(w, [j] + rest, j,
                 Scan(s.at, w.parts[j] + s.bytes, s.left, j == |w.parts| - 1 || s.gotLast), k, left)
  {
    BetweenCons(w, j, k);
  }

  lemma TookSkip(w: Datagram, x: nat, rest: seq<nat>, j: nat, s: Scan, k: nat, left: seq<nat>)
    requires x < |w.parts| && Within(rest, |w.parts|) && Took(w, rest, j, s, k, left)
    ensures Took(w, [x] + rest, j, s.(left := [LateOf(w, x)] + s.left), k, [x] + left)
  {
    assert Lates(w, [x] + left) == [LateOf(w, x)] + Lates(w, left);
  }

  // The walk stands before fragment j. If that is the first entry, it is taken; any
  // other is stepped over, unless it is an empty last one at the very end.
  lemma PassNext(w: Datagram, rest: seq<nat>, j: nat)
    requires Proper(w) && j < |w.parts| && Within(rest, |w.parts|)
    ensures var s := Pass(Start(w.parts, j + 1), Lates(w, rest));
            Pass(Start(w.parts, j), Lates(w, [j] + rest))
            == Scan(s.at, w.parts[j] + s.bytes, s.left, j == |w.parts| - 1 || s.gotLast)
  {
    var late := Lates(w, [j] + rest);
    assert late[1..] == Lates(w, rest) && late[0] == LateOf(w, j);
    StartNext(w.parts, j);
    StartsDiffer(w, j, j + 1);
  }

  lemma PassOther(w: Datagram, x: nat, rest: seq<nat>, j: nat)
    requires Proper(w) && x < |w.parts| && Within(rest, |w.parts|) && j <= |w.parts| && x != j
    ensures var s := Pass(Start(w.parts, j), Lates(w, rest));
            Pass(Start(w.parts, j), Lates(w, [x] + rest))
            == if NoStep(w.parts, x, j) then s.(gotLast := true) else s.(left := [LateOf(w, x)] + s.left)
  {
    var late := Lates(w, [x] + rest);
    assert late[1..] == Lates(w, rest) && late[0] == LateOf(w, x);
    StartsDiffer(w, x, j);
    assert [] + Pass(Start(w.parts, j), late[1..]).bytes == Pass(Start(w.parts, j), late[1..]).bytes;
  }

  lemma {:induction false} PassTakes(w: Datagram, ks: seq<nat>, j: nat) returns (k: nat, left: seq<nat>)
    requires Proper(w) && Within(ks, |w.parts|) && j <= |w.parts|
    ensures Took(w, ks, j, Pass(Start(w.parts, j), Lates(w, ks)), k, left)
    ensures |left| <= |ks| && (|left| == |ks| ==> j !in ks && k == j)
  {
    if ks == [] {
      k, left := j, [];
      assert w.parts[j..j] == [];
    } else {
      var x, rest := ks[0], ks[1..];
      assert ks == [x] + rest;
      k, left := PassTakes(w, rest, if x == j then j + 1 else j);
      if x == j {
        PassNext(w, rest, j);
        TookHead(w, rest, j, Pass(Start(w.parts, j + 1), Lates(w, rest)), k, left);
      } else {
        PassOther(w, x, rest, j);
        if !NoStep(w.parts, x, j) {
          TookSkip(w, x, rest, j, Pass(Start(w.parts, j), Lates(w, rest)), k, left);
          left := [x] + left;
        }
      }
    }
  }

  // Matching takes everything up to the first fragment that is not there.
  lemma {:induction false} MatchTakes(w: Datagram, ks: seq<nat>, j: nat) returns (k: nat, left: seq<nat>)
    requires Proper(w) && Within(ks, |w.parts|) && j < |w.parts|
    ensures Took(w, ks, j, Match(Start(w.parts, j), Lates(w, ks)), k, left)
    ensures k < |w.parts| ==> k !in left
    decreases |ks|
  {
    var at, late := Start(w.parts, j), Lates(w, ks);
    PassShrinks(at, late);
    k, left := PassTakes(w, ks, j);
    var s := Pass(at, late);
    if !s.gotLast && |s.left| != |late| {
      var mid, l := k, left;
      k, left := MatchTakes(w, l, mid);
      BetweenJoin(w, j, mid, k);
    }
  }

  // With the fragments in `seen` the packet stands before fragment k, the first
  // one missing, and those in `ks` wait.
  ghost predicate Stands(w: Datagram, seen: set<nat>, p: Partial, k: nat, ks: seq<nat>) {
    && k < |w.parts| && Within(ks, |w.parts|) && p.late == Lates(w, ks)
    && p.currentOffset == Start(w.parts, k)
    && p.data == (if k == 0 then None else Some(Collected(w, k)))
    && (forall i :: 0 <= i < k ==> i in seen) && k !in seen
    && (forall i :: i in ks ==> i in seen)
    && (forall i :: i in seen && k < i ==> i in ks)
    && (forall i :: i in seen ==> i < |w.parts|)
  }

  ghost predicate Complete(w: Datagram, seen: set<nat>) { forall i :: 0 <= i < |w.parts| ==> i in seen }

  lemma CollectedMore(w: Datagram, j: nat, k: nat)
    requires 0 < j <= k <= |w.parts|
    ensures Collected(w, j) + Between(w, j, k) == Collected(w, k)
  {
    BetweenJoin(w, 1, j, k);
    assert w.header + w.parts[0] + w.trailer + Between(w, 1, j) + Between(w, j, k)
        == w.header + w.parts[0] + w.trailer + (Between(w, 1, j) + Between(w, j, k));
  }

  // What comes of taking fragment k and then what waits behind it.
  lemma TakeStands(w: Datagram, seen: set<nat>, k: nat, ks: seq<nat>, s: Scan, k': nat, left: seq<nat>,
                   data: seq<byte>, p: Partial)
    requires k < |w.parts| && (forall i :: 0 <= i < k ==> i in seen) && k !in seen
    requires Within(ks, |w.parts|) && (forall i :: i in ks ==> i in seen)
    requires (forall i :: i in seen && k < i ==> i in ks) && (forall i :: i in seen ==> i < |w.parts|)
    requires Took(w, ks, k + 1, s, k', left) && (k' < |w.parts| ==> k' !in left)
    requires data == Collected(w, k + 1) && p == Partial(s.at, Some(data + s.bytes), s.left)
    ensures data + s.bytes == Collected(w, k')
    ensures if k' == |w.parts| then Complete(w, seen + {k})
            else !Complete(w, seen + {k}) && Stands(w, seen + {k}, p, k', left)
  {
    CollectedMore(w, k + 1, k');
    if k' < |w.parts| {
      assert k' !in seen + {k};
    }
  }

  // The fragment that is next is taken, and unless it is the last one the list is searched.
  lemma AcceptNext(w: Datagram, p: Partial, k: nat)
    requires Proper(w) && |w.parts| >= 2 && k < |w.parts| && p.currentOffset == Start(w.parts, k)
    requires p.data == if k == 0 then None else Some(Collected(w, k))
    ensures var s := if k == |w.parts| - 1 then Scan(Start(w.parts, k + 1), [], p.late, true)
                     else Match(Start(w.parts, k + 1), p.late);
            Accept(p, FragmentOf(w, k))
            == Matched(Collected(w, k + 1), s, if k == 0 then FirstFragment else AnyFragment)
  {
    StartNext(w.parts, k);
    StartsDiffer(w, k, k);
    StartsDiffer(w, k, k + 1);
    CollectedNext(w, k);
    var at := Start(w.parts, k + 1);
    assert at == Wrap(Start(w.parts, k) + |w.parts[k]|);
    if k == 0 {
      assert Start(w.parts, 0) == 0;
    } else {
      assert Start(w.parts, k) != 0;
    }
  }

  lemma NextStands(w: Datagram, seen: set<nat>, p: Partial, k: nat, ks: seq<nat>) returns (k': nat, left: seq<nat>)
    requires Proper(w) && |w.parts| >= 2 && Stands(w, seen, p, k, ks)
    ensures var (q, status) := Accept(p, FragmentOf(w, k));
            if Complete(w, seen + {k}) then status == Reassembled(Collected(w, |w.parts|))
            else !status.Reassembled? && Stands(w, seen + {k}, q, k', left)
  {
    var at, data := Start(w.parts, k + 1), Collected(w, k + 1);
    AcceptNext(w, p, k);
    if k == |w.parts| - 1 {
      k', left := k, ks;
      assert Complete(w, seen + {k});
      assert data + [] == data;
    } else {
      var s := Match(at, p.late);
      k', left := MatchTakes(w, ks, k + 1);
      TakeStands(w, seen, k, ks, s, k', left, data, Partial(s.at, Some(data + s.bytes), s.left));
    }
  }

  lemma CollectedNext(w: Datagram, k: nat)
    requires k < |w.parts|
    ensures Collected(w, k + 1) == if k == 0 then w.header + w.parts[0] + w.trailer else Collected(w, k) + w.parts[k]
  {
    if k == 0 {
      assert w.parts[1..1] == [];
    } else {
      assert w.parts[1..k + 1] == w.parts[1..k] + [w.parts[k]];
      JoinedSnoc(w.parts[1..k], w.parts[k]);
    }
  }

  lemma AcceptStands(w: Datagram, seen: set<nat>, p: Partial, k: nat, ks: seq<nat>, a: nat)
      returns (k': nat, left: seq<nat>)
    requires Proper(w) && |w.parts| >= 2 && Stands(w, seen, p, k, ks) && a < |w.parts|
    ensures var (q, status) := Accept(p, FragmentOf(w, a));
            if Complete(w, seen + {a}) then status == Reassembled(Collected(w, |w.parts|))
            else !status.Reassembled? && Stands(w, seen + {a}, q, k', left)
  {
    k', left := k, ks;
    StartsDiffer(w, a, k);
    StartsDiffer(w, a, a);
    if a == k {
      k', left := NextStands(w, seen, p, k, ks);
    } else {
      assert k !in seen + {a};
      if a < k {
        assert seen + {a} == seen;
      } else {
        left := ks + [a];
        assert Lates(w, left) == Lates(w, ks) + [LateOf(w, a)];
      }
    }
  }

  // ---------- every run of arrivals, in any order and with repetitions ----------

  // A finished packet leaves nothing behind.
  function Gather(w: Datagram, arrivals: seq<nat>): Partial
    requires Within(arrivals, |w.parts|)
  {
    if arrivals == [] then NOTHING
    else
      var n := |arrivals| - 1;
      var (p, status) := Accept(Gather(w, arrivals[..n]), FragmentOf(w, arrivals[n]));
      if status.Reassembled? then NOTHING else p
  }

  // The fragments that arrived since the packet was last complete.
  function Since(w: Datagram, arrivals: seq<nat>): set<nat>
  {
    if arrivals == [] then {}
    else
      var seen := Since(w, arrivals[..|arrivals| - 1]) + {arrivals[|arrivals| - 1]};
      if forall i :: 0 <= i < |w.parts| ==> i in seen then {} else seen
  }

  lemma {:induction false} GatherStands(w: Datagram, arrivals: seq<nat>) returns (k: nat, ks: seq<nat>)
    requires Proper(w) && |w.parts| >= 2 && Within(arrivals, |w.parts|)
    ensures Stands(w, Since(w, arrivals), Gather(w, arrivals), k, ks)
  {
    k, ks := 0, [];
    if arrivals != [] {
      var n := |arrivals| - 1;
      var before, a := arrivals[..n], arrivals[n];
      k, ks := GatherStands(w, before);
      k, ks := AcceptStands(w, Since(w, before), Gather(w, before), k, ks, a);
      if Complete(w, Since(w, before) + {a}) {
        k, ks := 0, [];
      }
    }
    if Since(w, arrivals) == {} && Gather(w, arrivals) == NOTHING {
      assert w.parts[..0] == [];
    }
  }

  // Given the parts themselves, the reassembly hands out the packet exactly when the
  // last of its fragments is there, whatever their order, and with the same bytes for
  // every order. What the IP layers give it is in FragmentFrames.
  lemma ReassembledIff(w: Datagram, arrivals: seq<nat>, a: nat)
    requires Proper(w) && |w.parts| >= 2 && Within(arrivals, |w.parts|) && a < |w.parts|
    ensures var status := Accept(Gather(w, arrivals), FragmentOf(w, a)).1;
            && (status.Reassembled? <==> Complete(w, Since(w, arrivals) + {a}))
            && (status.Reassembled? ==> status.bytes == Collected(w, |w.parts|))
  {
    var k, ks := GatherStands(w, arrivals);
    var _, _ := AcceptStands(w, Since(w, arrivals), Gather(w, arrivals), k, ks, a);
  }

  lemma StatusOf(w: Datagram, seen: set<nat>, p: Partial, k: nat, ks: seq<nat>, a: nat)
    requires Proper(w) && |w.parts| >= 2 && Stands(w, seen, p, k, ks) && a < |w.parts|
    requires !Accept(p, FragmentOf(w, a)).1.Reassembled?
    ensures Accept(p, FragmentOf(w, a)).1
            == if a > k then OutOfOrder else if a == k == 0 then FirstFragment else AnyFragment
  {
    StartsDiffer(w, a, k);
    StartsDiffer(w, a, a);
    if a == k { AcceptNext(w, p, k); }
  }

  // What is reported of every arrival: the packet, if this completes it; otherwise
  // that it came out of order, exactly if a fragment in front of it is missing; the
  // first fragment as such when it is new; and any other fragment as just that.
  lemma StatusIs(w: Datagram, arrivals: seq<nat>, a: nat)
    requires Proper(w) && |w.parts| >= 2 && Within(arrivals, |w.parts|) && a < |w.parts|
    ensures var seen := Since(w, arrivals);
            Accept(Gather(w, arrivals), FragmentOf(w, a)).1
            == if Complete(w, seen + {a}) then Reassembled(Collected(w, |w.parts|))
               else if exists j :: 0 <= j < a && j !in seen then OutOfOrder
               else if a == 0 && 0 !in seen then FirstFragment
               else AnyFragment
  {
    ReassembledIff(w, arrivals, a);
    var k, ks := GatherStands(w, arrivals);
    if !Complete(w, Since(w, arrivals) + {a}) {
      StatusOf(w, Since(w, arrivals), Gather(w, arrivals), k, ks, a);
    }
  }

  // They are the packet's own bytes exactly when nothing followed the first
  // fragment in its frame.
  lemma CollectedIff(w: Datagram)
    requires w.parts != []
    ensures Collected(w, |w.parts|) == w.header + Joined(w.parts) <==> w.trailer == []
  {
    var n := |w.parts|;
    BetweenCons(w, 0, n);
    assert w.parts[0..n] == w.parts;
    if w.trailer == [] {
      assert w.header + w.parts[0] + [] + Between(w, 1, n) == w.header + (w.parts[0] + Between(w, 1, n));
    }
  }

  // A packet that is its own only fragment, as IPv6 allows, is never handed out.
  lemma {:induction false} LoneFragment(w: Datagram, arrivals: seq<nat>)
    requires Proper(w) && |w.parts| == 1 && Within(arrivals, 1)
    ensures !Accept(Gather(w, arrivals), FragmentOf(w, 0)).1.Reassembled?
    ensures Gather(w, arrivals).late == []
  {
    StartsDiffer(w, 0, 0);
    if arrivals != [] {
      LoneFragment(w, arrivals[..|arrivals| - 1]);
    }
  }
}

module FragmentStore {
  import opened Basics
  import opened Sequences
  import opened Recency
  import opened Fragments

  // The unfinished packets, by the hash of their key, and the same hashes in the
  // order of last use, newest first.
  datatype Store = Store(parts: map<nat, Partial>, order: seq<nat>)

  datatype Event =
    | Arrive(hash: nat, fragment: Fragment)
    | Remove(hash: nat)

  // The new state, what is reported of the fragment, and the packet dropped for it.
  datatype Result = Result(store: Store, status: Status, dropped: Option<nat>)

  // Room for one more packet. None: the list names a packet the map does not hold,
  // and the code goes on with an iterator behind the end.
  function AddNew(s: Store, max: nat, hash: nat): Option<(Store, Option<nat>)> {
    var all := Promote(s.order, hash);
    var order := PutOn(s.order, max, hash);
    if |all| <= max then Some((Store(s.parts[hash := NOTHING], order), None))
    else
      var oldest := all[|all| - 1];
      if oldest !in s.parts then None
      else Some((Store((s.parts - {oldest})[hash := NOTHING], order), Some(oldest)))
  }

  function Touch(s: Store, max: nat, hash: nat): Option<(Store, Option<nat>)> {
    if hash in s.parts then Some((s.(order := PutOn(s.order, max, hash)), None)) else AddNew(s, max, hash)
  }

  function Settle(s: Store, hash: nat, p: Partial, status: Status): Store {
    if status.Reassembled? then Store(s.parts - {hash}, Without(s.order, hash))
    else s.(parts := s.parts[hash := p])
  }

  function Process(s: Store, max: nat, hash: nat, f: Fragment): Option<Result> {
    match Touch(s, max, hash)
    case None => None
    case Some((t, dropped)) =>
      var (p, status) := Accept(if hash in s.parts then s.parts[hash] else NOTHING, f);
      Some(Result(Settle(t, hash, p, status), status, dropped))
  }

  function RemovePacket(s: Store, hash: nat): Store {
    if hash in s.parts then Store(s.parts - {hash}, Without(s.order, hash)) else s
  }

  function Step(s: Store, max: nat, e: Event): Option<Store> {
    match e
    case Arrive(hash, f) =>
      (match Process(s, max, hash, f)
       case None => None
       case Some(r) => Some(r.store))
    case Remove(hash) => Some(RemovePacket(s, hash))
  }

  function Exec(max: nat, events: seq<Event>): Option<Store> {
    if events == [] then Some(Store(map[], []))
    else
      match Exec(max, events[..|events| - 1])
      case None => None
      case Some(s) => Step(s, max, events[|events| - 1])
  }

  // ---------- map and list name the same packets ----------

  ghost predicate Agrees(s: Store, max: nat) {
    && Distinct(s.order) && |s.order| <= max
    && (forall h :: h in s.parts <==> h in s.order)
    && (forall h :: h in s.parts ==> Sound(s.parts[h]))
  }

  // What a put leaves in a list with room for one element at least.
  lemma PutOnMembers(s: seq<nat>, max: nat, x: nat)
    requires Distinct(s) && |s| <= max && max > 0
    ensures var all, t := Promote(s, x), PutOn(s, max, x);
            && Distinct(t) && |t| <= max && x in t
            && (|all| <= max ==> forall h :: h in t <==> h in s || h == x)
            && (|all| > max ==> x !in s && |s| == max && all[|all| - 1] == s[max - 1])
            && (|all| > max ==> forall h :: h in t <==> (h in s && h != s[max - 1]) || h == x)
  {
    var all, t := Promote(s, x), PutOn(s, max, x);
    PromoteDistinct(s, x);
    WithoutMembers(s, x);
    if |all| > max {
      assert t == [x] + s[..max - 1] && s == s[..max - 1] + [s[max - 1]];
    }
  }

  // Marking a packet as used, or making room for a new one, keeps both in step;
  // only a new packet can push another one out, the last in the list.
  lemma TouchAgrees(s: Store, max: nat, hash: nat)
    requires Agrees(s, max) && max > 0
    ensures Touch(s, max, hash).Some?
    ensures var (t, dropped) := Touch(s, max, hash).value;
            && Agrees(t, max) && hash in t.parts
            && (dropped.Some? ==> |s.order| == max && dropped.value == s.order[max - 1] && hash !in s.order)
            && (forall h :: h != hash ==> (h in t.parts <==> h in s.parts && dropped != Some(h)))
            && (forall h :: h in t.parts && h != hash ==> t.parts[h] == s.parts[h])
  {
    PutOnMembers(s.order, max, hash);
    assert |s.order| == max ==> s.order[max - 1] in s.order;
  }

  lemma SettleAgrees(s: Store, max: nat, hash: nat, p: Partial, status: Status)
    requires Agrees(s, max) && hash in s.parts && Sound(p)
    ensures Agrees(Settle(s, hash, p, status), max)
  {
    PromoteDistinct(s.order, hash);
    WithoutMembers(s.order, hash);
  }

  // One fragment: with room for one packet at least nothing goes wrong, nothing is
  // called malformed, and map and list stay in step.
  lemma ProcessAgrees(s: Store, max: nat, hash: nat, f: Fragment)
    requires Agrees(s, max) && max > 0
    ensures Process(s, max, hash, f).Some?
    ensures var r := Process(s, max, hash, f).value; Agrees(r.store, max) && r.status != Malformed
  {
    TouchAgrees(s, max, hash);
    var p := if hash in s.parts then s.parts[hash] else NOTHING;
    AcceptSound(p, f);
    SettleAgrees(Touch(s, max, hash).value.0, max, hash, Accept(p, f).0, Accept(p, f).1);
  }

  lemma StepAgrees(s: Store, max: nat, e: Event)
    requires Agrees(s, max)
    ensures Step(s, max, e) == None <==> max == 0 && e.Arrive?
    ensures Step(s, max, e).Some? ==> Agrees(Step(s, max, e).value, max)
  {
    match e
    case Arrive(hash, f) =>
      if max > 0 { ProcessAgrees(s, max, hash, f); } else { WithoutMembers(s.order, hash); }
    case Remove(hash) =>
      PromoteDistinct(s.order, hash);
      WithoutMembers(s.order, hash);
  }

  // In every run the map holds exactly the packets the list names, each once and
  // at most `max`; the run goes wrong exactly when there is room for no packet and
  // a fragment arrives.
  lemma {:induction false} ExecAgrees(max: nat, events: seq<Event>)
    ensures Exec(max, events) == None <==> max == 0 && exists i :: 0 <= i < |events| && events[i].Arrive?
    ensures Exec(max, events).Some? ==> Agrees(Exec(max, events).value, max)
  {
    if events != [] {
      var before, e := events[..|events| - 1], events[|events| - 1];
      ExecAgrees(max, before);
      if Exec(max, before).Some? {
        StepAgrees(Exec(max, before).value, max, e);
      }
      assert forall i :: 0 <= i < |before| ==> before[i] == events[i];
    }
  }

  // ---------- one packet among the others ----------

  // What the events make of one packet if none is ever dropped.
  function Track(events: seq<Event>, hash: nat): Option<Partial> {
    if events == [] then None
    else
      var before := Track(events[..|events| - 1], hash);
      match events[|events| - 1]
      case Arrive(h, f) =>
        if h != hash then before
        else
          var (p, status) := Accept(if before.Some? then before.value else NOTHING, f);
          if status.Reassembled? then None else Some(p)
      case Remove(h) => if h == hash then None else before
  }

  // The other packets of which fragments arrived since this one's last.
  function Others(events: seq<Event>, hash: nat): set<nat> {
    if events == [] then {}
    else
      var before := Others(events[..|events| - 1], hash);
      match events[|events| - 1]
      case Arrive(h, _) => if h == hash then {} else before + {h}
      case Remove(_) => before
  }

  // While the packet was unfinished, fewer than `max` others got in between.
  ghost predicate Spared(max: nat, events: seq<Event>, hash: nat) {
    events != [] ==>
      var before, e := events[..|events| - 1], events[|events| - 1];
      && Spared(max, before, hash)
      && (e.Arrive? && e.hash != hash && Track(before, hash).Some? ==> |Others(events, hash)| < max)
  }

  // Whatever stands before x in s is in `ahead`.
  ghost predicate Behind(s: seq<nat>, x: nat, ahead: set<nat>) {
    forall i, j :: 0 <= i < j < |s| && s[j] == x ==> s[i] in ahead
  }

  lemma {:induction false} WithoutBehind(s: seq<nat>, y: nat, x: nat, ahead: set<nat>)
    requires Behind(s, x, ahead)
    ensures Behind(Without(s, y), x, ahead)
  {
    if s != [] {
      WithoutBehind(s[1..], y, x, ahead);
      var w := Without(s[1..], y);
      if s[0] != y {
        WithoutMembers(s[1..], y);
        forall j | 0 <= j < |w| && w[j] == x ensures s[0] in ahead {
          assert w[j] in s[1..];
          var i :| 0 <= i < |s[1..]| && s[1..][i] == x;
          assert s[i + 1] == x;
        }
      }
    }
  }

  // After any run only packets with a later fragment stand before a packet.
  lemma {:induction false} ListedBehind(max: nat, events: seq<Event>, x: nat)
    requires max > 0
    ensures Exec(max, events).Some?
    ensures Behind(Exec(max, events).value.order, x, Others(events, x))
  {
    ExecAgrees(max, events);
    if events != [] {
      var before, e := events[..|events| - 1], events[|events| - 1];
      ListedBehind(max, before, x);
      ExecAgrees(max, before);
      StepBehind(Exec(max, before).value, max, e, x, Others(before, x), Others(events, x));
    }
  }

  // Where an event leaves the list.
  lemma StepOrder(s: Store, max: nat, e: Event)
    requires Agrees(s, max) && max > 0
    ensures Step(s, max, e).Some?
    ensures var order, t := Step(s, max, e).value.order, if e.Arrive? then PutOn(s.order, max, e.hash) else s.order;
            order == t || order == Without(t, e.hash)
  {
    StepAgrees(s, max, e);
  }

  lemma PutBehind(s: seq<nat>, max: nat, h: nat, x: nat, ahead: set<nat>)
    requires Behind(s, x, ahead)
    ensures Behind(PutOn(s, max, h), x, if h == x then {} else ahead + {h})
  {
    WithoutBehind(s, h, x, ahead);
    WithoutMembers(s, h);
    PromoteBehind(Without(s, h), h, x, ahead, if h == x then {} else ahead + {h});
  }

  lemma StepBehind(s: Store, max: nat, e: Event, x: nat, ahead: set<nat>, ahead': set<nat>)
    requires Agrees(s, max) && max > 0 && Behind(s.order, x, ahead)
    requires ahead' == if e.Arrive? then (if e.hash == x then {} else ahead + {e.hash}) else ahead
    ensures Step(s, max, e).Some? && Behind(Step(s, max, e).value.order, x, ahead')
  {
    StepOrder(s, max, e);
    PutBehind(s.order, max, e.hash, x, ahead);
    WithoutBehind(if e.Arrive? then PutOn(s.order, max, e.hash) else s.order, e.hash, x, ahead');
  }

  lemma PromoteBehind(w: seq<nat>, h: nat, x: nat, ahead: set<nat>, ahead': set<nat>)
    requires h !in w && Behind(w, x, ahead) && ahead' == if h == x then {} else ahead + {h}
    ensures Behind([h] + w, x, ahead')
  {
    forall i, j | 0 <= i < j < |[h] + w| && ([h] + w)[j] == x ensures ([h] + w)[i] in ahead' {
      assert w[j - 1] == x;
      if i > 0 { assert w[i - 1] in ahead; }
    }
  }

  // Only the last of a full list is dropped, behind `max` - 1 others, to which the
  // new one is added.
  lemma DroppedBehindMany(s: Store, max: nat, hash: nat, x: nat, ahead: set<nat>)
    requires Agrees(s, max) && max > 0 && Behind(s.order, x, ahead) && x != hash
    requires Touch(s, max, hash).Some? && Touch(s, max, hash).value.1 == Some(x)
    ensures |ahead + {hash}| >= max
  {
    TouchAgrees(s, max, hash);
    var front := s.order[..max - 1];
    var names := set h | h in front;
    DistinctSize(front, names);
    assert hash !in s.order;
    forall h | h in front ensures h in ahead {
      var i :| 0 <= i < |front| && front[i] == h;
      assert s.order[i] == h && s.order[max - 1] == x;
    }
    assert names + {hash} <= ahead + {hash};
    SubsetSize(names + {hash}, ahead + {hash});
  }

  function Lookup(s: Store, hash: nat): Option<Partial> {
    if hash in s.parts then Some(s.parts[hash]) else None
  }

  // One event, on a packet that it does not drop.
  lemma StepTracks(s: Store, max: nat, e: Event, x: nat)
    requires Agrees(s, max) && max > 0
    requires e.Arrive? ==> Touch(s, max, e.hash).Some? && Touch(s, max, e.hash).value.1 != Some(x)
    ensures Step(s, max, e).Some?
    ensures Lookup(Step(s, max, e).value, x)
            == match e
               case Arrive(h, f) =>
                 if h != x then Lookup(s, x)
                 else
                   var (p, status) := Accept(if x in s.parts then s.parts[x] else NOTHING, f);
                   if status.Reassembled? then None else Some(p)
               case Remove(h) => if h == x then None else Lookup(s, x)
  {
    StepAgrees(s, max, e);
    if e.Arrive? {
      TouchAgrees(s, max, e.hash);
    }
  }

  // A packet is not disturbed by the others unless fragments of at least `max` of
  // them arrive between two of its own.
  lemma {:induction false} Undisturbed(max: nat, events: seq<Event>, x: nat)
    requires max > 0 && Spared(max, events, x)
    ensures Exec(max, events).Some? && Lookup(Exec(max, events).value, x) == Track(events, x)
  {
    ExecAgrees(max, events);
    if events != [] {
      var before, e := events[..|events| - 1], events[|events| - 1];
      Undisturbed(max, before, x);
      ListedBehind(max, before, x);
      ExecAgrees(max, before);
      var s := Exec(max, before).value;
      if e.Arrive? {
        TouchAgrees(s, max, e.hash);
        if Touch(s, max, e.hash).value.1 == Some(x) {
          DroppedBehindMany(s, max, e.hash, x, Others(before, x));
        }
      }
      StepTracks(s, max, e, x);
    }
  }

  function OrNothing(p: Option<Partial>): Partial { if p.Some? then p.value else NOTHING }

  // The reassembly treats these fragments as the fragments of w.
  ghost predicate ActsLike(frags: seq<Fragment>, w: Datagram) {
    && |frags| == |w.parts|
    && forall p: Partial, k: nat :: k < |w.parts| ==> Accept(p, frags[k]) == Accept(p, FragmentOf(w, k))
  }

  // The events on this packet are arrivals of these fragments.
  ghost predicate Carries(events: seq<Event>, hash: nat, frags: seq<Fragment>, arrivals: seq<nat>)
    requires Within(arrivals, |frags|)
  {
    if events == [] then arrivals == []
    else
      var before := events[..|events| - 1];
      match events[|events| - 1]
      case Arrive(h, f) =>
        if h != hash then Carries(before, hash, frags, arrivals)
        else
          var n := |arrivals| - 1;
          arrivals != [] && f == frags[arrivals[n]] && Carries(before, hash, frags, arrivals[..n])
      case Remove(h) => h != hash && Carries(before, hash, frags, arrivals)
  }

  lemma {:induction false} TrackGathers(events: seq<Event>, hash: nat, w: Datagram, frags: seq<Fragment>,
                                        arrivals: seq<nat>)
    requires ActsLike(frags, w) && Within(arrivals, |w.parts|) && Carries(events, hash, frags, arrivals)
    ensures OrNothing(Track(events, hash)) == Gather(w, arrivals)
  {
    if events != [] {
      var before, e := events[..|events| - 1], events[|events| - 1];
      if e.Arrive? && e.hash == hash {
        TrackGathers(before, hash, w, frags, arrivals[..|arrivals| - 1]);
      } else {
        TrackGathers(before, hash, w, frags, arrivals);
      }
    }
  }

  // Amid any other traffic: as long as fewer than `max` other packets get in
  // between two of its fragments, a packet is handed out exactly when the last
  // missing one arrives, in any order, and is kept exactly until then.
  lemma ReassembledAmidOthersIff(max: nat, events: seq<Event>, hash: nat, w: Datagram, frags: seq<Fragment>,
                                 arrivals: seq<nat>, a: nat)
    requires max > 0 && Spared(max, events, hash) && ActsLike(frags, w)
    requires Proper(w) && |w.parts| >= 2 && Within(arrivals, |w.parts|) && a < |w.parts|
    requires Carries(events, hash, frags, arrivals)
    ensures Exec(max, events).Some? && Process(Exec(max, events).value, max, hash, frags[a]).Some?
    ensures var r := Process(Exec(max, events).value, max, hash, frags[a]).value;
            && (r.status.Reassembled? <==> Complete(w, Since(w, arrivals) + {a}))
            && (r.status.Reassembled? ==> r.status.bytes == Collected(w, |w.parts|))
            && (hash in r.store.parts <==> !r.status.Reassembled?)
  {
    Undisturbed(max, events, hash);
    ExecAgrees(max, events);
    ProcessAgrees(Exec(max, events).value, max, hash, frags[a]);
    TrackGathers(events, hash, w, frags, arrivals);
    ReassembledIff(w, arrivals, a);
  }
}

module Reassembly {
  import opened Basics
  import opened Sequences
  import opened Recency
  import opened LruCache
  import opened Fragments
  import opened FragmentStore

  class IPFragmentData {
    var currentOffset: nat
    var data: Option<seq<byte>>
    var outOfOrderFragments: seq<Late>

    constructor ()
      ensures State() == NOTHING
    {
      currentOffset, data, outOfOrderFragments := 0, None, [];
    }

    function State(): Partial
      reads this
    {
      Partial(currentOffset, data, outOfOrderFragments)
    }

    // What processPacket does with a fragment once its packet is known.
    method AddFragment(f: Fragment) returns (status: Status)
      modifies this
      ensures (State(), status) == Accept(old(State()), f)
    {
      var gotLastFragment := false;
      status := AnyFragment;
      if f.offset == 0 {
        if data.Some? { return; }
        data := Some(f.raw);
        currentOffset := Wrap(|f.payload|);
        status := FirstFragment;
        gotLastFragment := MatchOutOfOrderFragments(f.raw);
      } else if currentOffset == f.offset {
        if data.None? { return Malformed; }
        data := Some(data.value + f.payload);
        currentOffset := Wrap(currentOffset + |f.payload|);
        if f.last {
          gotLastFragment := true;
          assert data.value + [] == data.value;
        } else {
          gotLastFragment := MatchOutOfOrderFragments(data.value);
        }
      } else if f.offset > currentOffset {
        outOfOrderFragments := outOfOrderFragments + [Late(f.offset, f.last, f.payload)];
        return OutOfOrder;
      }
      if gotLastFragment {
        status := Reassembled(data.value);
      }
    }

    // `head` is what the data held when the search began.
    method MatchOutOfOrderFragments(ghost head: seq<byte>) returns (foundLastSegment: bool)
      requires data == Some(head)
      modifies this
      ensures var s := Match(old(currentOffset), old(outOfOrderFragments));
              State() == Partial(s.at, Some(head + s.bytes), s.left) && foundLastSegment == s.gotLast
    {
      ghost var all := Match(currentOffset, outOfOrderFragments);
      foundLastSegment := false;
      var found := true;
      while !foundLastSegment && found
        invariant data.Some?
        invariant found && !foundLastSegment ==>
                    var s := Match(currentOffset, outOfOrderFragments);
                    all == s.(bytes := all.bytes) && head + all.bytes == data.value + s.bytes
        invariant !found || foundLastSegment ==>
                    State() == Partial(all.at, Some(head + all.bytes), all.left) && foundLastSegment == all.gotLast
        decreases |outOfOrderFragments|, found
      {
        PassShrinks(currentOffset, outOfOrderFragments);
        found, foundLastSegment := WalkOnce(data.value);
      }
    }

    // One walk: an entry that is next is appended and erased, others are stepped over.
    method WalkOnce(ghost head: seq<byte>) returns (found: bool, gotLast: bool)
      requires data == Some(head)
      modifies this
      ensures var s := Pass(old(currentOffset), old(outOfOrderFragments));
              State() == Partial(s.at, Some(head + s.bytes), s.left) && gotLast == s.gotLast
      ensures found <==> |outOfOrderFragments| < |old(outOfOrderFragments)|
    {
      ghost var all := Pass(currentOffset, outOfOrderFragments);
      found, gotLast := false, false;
      var index := 0;
      while index < |outOfOrderFragments|
        invariant index <= |outOfOrderFragments| <= |old(outOfOrderFragments)|
        invariant found <==> |outOfOrderFragments| < |old(outOfOrderFragments)|
        invariant data.Some? && WalkAt(all, head, State(), index, gotLast)
        decreases |outOfOrderFragments| - index
      {
        var frag := outOfOrderFragments[index];
        if currentOffset == frag.offset {
          WalkTakes(all, head, State(), index, gotLast);
          data := Some(data.value + frag.data);
          currentOffset := Wrap(currentOffset + |frag.data|);
          if frag.last {
            gotLast := true;
          }
          outOfOrderFragments := Cut(outOfOrderFragments, index);
          found := true;
        } else {
          WalkSkips(all, head, State(), index, gotLast);
          index := index + 1;
        }
      }
      WalkEnds(all, head, State(), gotLast);
    }
  }

  // The state of each packet, by hash.
  ghost function States(packets: map<nat, IPFragmentData>): map<nat, Partial>
    reads packets.Values
  {
    map h | h in packets :: packets[h].State()
  }

  ghost predicate Separate(packets: map<nat, IPFragmentData>) {
    forall g, h :: g in packets && h in packets && g != h ==> packets[g] != packets[h]
  }

  class IPReassembly {
    const packetLRU: LruList<nat>
    var fragmentMap: map<nat, IPFragmentData>

    ghost predicate Valid()
      reads this, packetLRU, packetLRU.items, packetLRU.items.nodes, fragmentMap.Values
    {
      packetLRU.Valid() && Separate(fragmentMap) && Agrees(State(), packetLRU.maxSize)
    }

    ghost function State(): Store
      reads this, packetLRU, packetLRU.items, fragmentMap.Values
    {
      Store(States(fragmentMap), packetLRU.Contents())
    }

    constructor (maxPacketsToStore: nat)
      ensures Valid() && State() == Store(map[], []) && fragmentMap == map[] && packetLRU.maxSize == maxPacketsToStore
      ensures fresh(packetLRU) && fresh(packetLRU.items) && fresh(packetLRU.items.repr)
    {
      packetLRU := new LruList(maxPacketsToStore);
      fragmentMap := map[];
    }

    method Insert(hash: nat, d: IPFragmentData)
      requires Separate(fragmentMap) && d !in fragmentMap.Values
      modifies `fragmentMap
      ensures States(fragmentMap) == old(States(fragmentMap))[hash := d.State()]
      ensures Separate(fragmentMap) && fragmentMap.Values <= old(fragmentMap.Values) + {d} && hash in fragmentMap
    {
      fragmentMap := fragmentMap[hash := d];
    }

    method Erase(hash: nat)
      requires Separate(fragmentMap)
      modifies `fragmentMap
      ensures States(fragmentMap) == old(States(fragmentMap)) - {hash}
      ensures Separate(fragmentMap) && fragmentMap.Values <= old(fragmentMap.Values)
    {
      fragmentMap := fragmentMap - {hash};
    }

    // The list's part of a put; the packets are not touched.
    method Use(hash: nat) returns (dropped: Option<nat>)
      requires packetLRU.Valid()
      modifies packetLRU, packetLRU.items, packetLRU.items.repr
      ensures packetLRU.Valid() && fresh(packetLRU.items.repr - old(packetLRU.items.repr))
      ensures packetLRU.Contents() == PutOn(old(packetLRU.Contents()), packetLRU.maxSize, hash)
      ensures var all := Promote(old(packetLRU.Contents()), hash);
              dropped == if |all| > packetLRU.maxSize then Some(all[|all| - 1]) else None
      ensures fragmentMap == old(fragmentMap) && States(fragmentMap) == old(States(fragmentMap))
    {
      var code;
      code, dropped := packetLRU.Put(hash, true);
    }

    // The list's part, and the entry it gave up leaves the map. None: there is no such entry.
    method MakeRoom(hash: nat) returns (removed: Option<Option<nat>>)
      requires packetLRU.Valid() && Separate(fragmentMap)
      modifies `fragmentMap, packetLRU, packetLRU.items, packetLRU.items.repr
      ensures packetLRU.Valid() && fresh(packetLRU.items.repr - old(packetLRU.items.repr))
      ensures packetLRU.Contents() == PutOn(old(packetLRU.Contents()), packetLRU.maxSize, hash)
      ensures var all := Promote(old(packetLRU.Contents()), hash);
              if |all| <= packetLRU.maxSize then removed == Some(None) && fragmentMap == old(fragmentMap)
                                                 && States(fragmentMap) == old(States(fragmentMap))
              else
                var oldest := all[|all| - 1];
                if oldest !in old(fragmentMap) then removed == None
                else removed == Some(Some(oldest)) && States(fragmentMap) == old(States(fragmentMap)) - {oldest}
      ensures Separate(fragmentMap) && fragmentMap.Values <= old(fragmentMap.Values)
    {
      var oldest := Use(hash);
      if oldest.Some? {
        if oldest.value !in fragmentMap {
          return None;
        }
        Erase(oldest.value);
      }
      return Some(oldest);
    }

    // None: the map does not hold the packet the full list gave up.
    method AddNewFragment(hash: nat, fragData: IPFragmentData) returns (dropped: Option<Option<nat>>)
      requires packetLRU.Valid() && Separate(fragmentMap)
      requires fragData !in fragmentMap.Values && fragData.State() == NOTHING
      modifies `fragmentMap, packetLRU, packetLRU.items, packetLRU.items.repr
      ensures packetLRU.Valid() && fresh(packetLRU.items.repr - old(packetLRU.items.repr))
      ensures var r := AddNew(old(State()), packetLRU.maxSize, hash);
              (r == None <==> dropped == None) && (r.Some? ==> dropped == Some(r.value.1) && State() == r.value.0)
      ensures Separate(fragmentMap) && fragmentMap.Values <= old(fragmentMap.Values) + {fragData}
      ensures dropped.Some? ==> hash in fragmentMap
    {
      dropped := MakeRoom(hash);
      if dropped.Some? {
        Insert(hash, fragData);
      }
    }

    // The packet's entry, made or marked as used.
    method Find(hash: nat) returns (dropped: Option<Option<nat>>)
      requires packetLRU.Valid() && Separate(fragmentMap)
      modifies `fragmentMap, packetLRU, packetLRU.items, packetLRU.items.repr
      ensures packetLRU.Valid() && fresh(packetLRU.items.repr - old(packetLRU.items.repr))
      ensures var r := Touch(old(State()), packetLRU.maxSize, hash);
              && (r == None <==> dropped == None)
              && (r.Some? ==> dropped == Some(r.value.1) && State() == r.value.0)
              && (r.Some? ==> Separate(fragmentMap) && hash in fragmentMap)
      ensures fresh(fragmentMap.Values - old(fragmentMap.Values))
    {
      if hash in fragmentMap {
        var _ := Use(hash);
        return Some(None);
      }
      var fragData := new IPFragmentData();
      assert States(fragmentMap) == old(States(fragmentMap));
      dropped := AddNewFragment(hash, fragData);
    }

    // Only the one packet changes.
    method AddTo(hash: nat, f: Fragment) returns (status: Status)
      requires Separate(fragmentMap) && hash in fragmentMap
      modifies fragmentMap[hash]
      ensures var (p, st) := Accept(old(States(fragmentMap))[hash], f);
              States(fragmentMap) == old(States(fragmentMap))[hash := p] && status == st
    {
      status := fragmentMap[hash].AddFragment(f);
    }

    method Forget(hash: nat)
      requires packetLRU.Valid() && Separate(fragmentMap)
      modifies `fragmentMap, packetLRU, packetLRU.items, packetLRU.items.repr
      ensures packetLRU.Valid() && packetLRU.items.repr == old(packetLRU.items.repr)
      ensures States(fragmentMap) == old(States(fragmentMap)) - {hash}
      ensures packetLRU.Contents() == Without(old(packetLRU.Contents()), hash)
      ensures Separate(fragmentMap) && fragmentMap.Values <= old(fragmentMap.Values)
    {
      packetLRU.EraseElement(hash);
      assert States(fragmentMap) == old(States(fragmentMap));
      Erase(hash);
    }

    // A fragment of a packet that has its entry; a finished packet leaves map and list.
    method Serve(hash: nat, f: Fragment) returns (status: Status)
      requires packetLRU.Valid() && Separate(fragmentMap) && hash in fragmentMap
      modifies `fragmentMap, packetLRU, packetLRU.items, packetLRU.items.repr, fragmentMap.Values
      ensures packetLRU.Valid() && packetLRU.items.repr == old(packetLRU.items.repr)
      ensures var (p, st) := Accept(old(State()).parts[hash], f);
              status == st && State() == Settle(old(State()), hash, p, st)
      ensures Separate(fragmentMap) && fragmentMap.Values <= old(fragmentMap.Values)
    {
      ghost var s := State();
      status := AddTo(hash, f);
      if status.Reassembled? {
        UpdateDrop(s.parts, hash, Accept(s.parts[hash], f).0);
        Forget(hash);
      }
    }

    method ProcessPacket(hash: nat, f: Fragment) returns (r: Option<(Status, Option<nat>)>)
      requires Valid()
      modifies this, packetLRU, packetLRU.items, packetLRU.items.repr, fragmentMap.Values
      ensures var x := Process(old(State()), packetLRU.maxSize, hash, f);
              && (r == None <==> x == None)
              && (x.Some? ==> r == Some((x.value.status, x.value.dropped)) && State() == x.value.store && Valid())
      ensures r == None <==> packetLRU.maxSize == 0
      ensures r.Some? && r.value.0.Reassembled? ==> hash in old(fragmentMap)
      ensures fresh(packetLRU.items.repr - old(packetLRU.items.repr))
      ensures fresh(fragmentMap.Values - old(fragmentMap.Values))
    {
      ghost var s := State();
      StepAgrees(s, packetLRU.maxSize, Arrive(hash, f));
      var dropped := Find(hash);
      if dropped == None {
        return None;
      }
      assert State().parts[hash] == if hash in s.parts then s.parts[hash] else NOTHING;
      NotAtOnce(f);
      var status := Serve(hash, f);
      return Some((status, dropped.value));
    }

    method RemovePacket(hash: nat)
      requires Valid()
      modifies `fragmentMap, packetLRU, packetLRU.items, packetLRU.items.repr
      ensures Valid() && State() == FragmentStore.RemovePacket(old(State()), hash)
      ensures packetLRU.items.repr == old(packetLRU.items.repr) && fragmentMap.Values <= old(fragmentMap.Values)
    {
      ghost var s := State();
      StepAgrees(s, packetLRU.maxSize, Remove(hash));
      if hash in fragmentMap {
        Forget(hash);
      }
    }

    method Do(e: Event)
      requires Valid() && packetLRU.maxSize > 0
      modifies this, packetLRU, packetLRU.items, packetLRU.items.repr, fragmentMap.Values
      ensures Valid() && Step(old(State()), packetLRU.maxSize, e) == Some(State())
      ensures fresh(packetLRU.items.repr - old(packetLRU.items.repr))
      ensures fresh(fragmentMap.Values - old(fragmentMap.Values))
    {
      match e {
        case Arrive(hash, f) => var _ := ProcessPacket(hash, f);
        case Remove(hash) => RemovePacket(hash);
      }
    }
  }

  lemma UpdateDrop(m: map<nat, Partial>, h: nat, p: Partial)
    ensures m[h := p] - {h} == m - {h}
  {}

  // Any run on a new object that has room for one packet leaves it in the state of
  // the value it is compared with.
  method Replay(max: nat, events: seq<Event>) returns (r: IPReassembly)
    requires max > 0
    ensures r.Valid() && r.packetLRU.maxSize == max && Exec(max, events) == Some(r.State())
  {
    r := new IPReassembly(max);
    for i := 0 to |events|
      invariant fresh(r) && fresh(r.packetLRU) && fresh(r.packetLRU.items) && fresh(r.packetLRU.items.repr)
      invariant fresh(r.fragmentMap.Values)
      invariant r.Valid() && r.packetLRU.maxSize == max && Exec(max, events[..i]) == Some(r.State())
    {
      assert events[..i + 1][..i] == events[..i];
      r.Do(events[i]);
    }
    assert events[..|events|] == events;
  }

  // The walk will end in `all` from where it stands: before entry `index`.
  ghost predicate WalkAt(all: Scan, head: seq<byte>, p: Partial, index: nat, gotLast: bool)
    requires p.data.Some? && index <= |p.late|
  {
    var s := Pass(p.currentOffset, p.late[index..]);
    && all.at == s.at && all.left == p.late[..index] + s.left && all.gotLast == (gotLast || s.gotLast)
    && head + all.bytes == p.data.value + s.bytes
  }

  lemma WalkTakes(all: Scan, head: seq<byte>, p: Partial, index: nat, gotLast: bool)
    requires p.data.Some? && index < |p.late| && WalkAt(all, head, p, index, gotLast)
    requires p.late[index].offset == p.currentOffset
    ensures var frag := p.late[index];
            var at := Wrap(p.currentOffset + |frag.data|);
            WalkAt(all, head, Partial(at, Some(p.data.value + frag.data), Cut(p.late, index)), index,
                   gotLast || frag.last)
  {
    var rest, cut := p.late[index..], Cut(p.late, index);
    assert rest[1..] == cut[index..] && cut[..index] == p.late[..index];
    var s := Pass(Wrap(p.currentOffset + |rest[0].data|), rest[1..]);
    assert p.data.value + (rest[0].data + s.bytes) == p.data.value + rest[0].data + s.bytes;
  }

  lemma WalkSkips(all: Scan, head: seq<byte>, p: Partial, index: nat, gotLast: bool)
    requires p.data.Some? && index < |p.late| && WalkAt(all, head, p, index, gotLast)
    requires p.late[index].offset != p.currentOffset
    ensures WalkAt(all, head, p, index + 1, gotLast)
  {
    var rest := p.late[index..];
    var s := Pass(p.currentOffset, rest[1..]);
    assert rest[1..] == p.late[index + 1..];
    assert p.late[..index] + ([rest[0]] + s.left) == p.late[..index + 1] + s.left;
  }

  lemma WalkEnds(all: Scan, head: seq<byte>, p: Partial, gotLast: bool)
    requires p.data.Some? && WalkAt(all, head, p, |p.late|, gotLast)
    ensures p == Partial(all.at, Some(head + all.bytes), all.left) && gotLast == all.gotLast
  {
    assert p.late[|p.late|..] == [] && p.late[..|p.late|] + [] == p.late;
    assert p.data.value + [] == p.data.value;
  }
}
