// A chain of IPv6 extension headers: parsing it, adding to it, removing it
// (IPv6Layer and IPv6Extensions in lesson2/PcapPlPl_snifer/lib).
//
// The layer keeps the chain twice: as a linked list of extension objects, and
// as next-header bytes threaded through the packet (RFC 8200, section 4).

module Ipv6Wire {
  import opened Basics
  import opened Sequences

  const FIXED_LEN: nat := 40
  const NEXT_HEADER_AT: nat := 6
  const AUTHENTICATION: byte := 51

  // An extension object that is not part of a packet: its type and its bytes.
  datatype RawExt = RawExt(kind: byte, bytes: seq<byte>)

  predicate IsExtension(kind: byte) { kind in [0, 43, 44, 51, 60] }

  // Units of 8 bytes, the first not counted; the authentication header counts
  // units of 4 and leaves out two (RFC 4302, section 2.2).
  function HeaderLen(kind: byte, lenByte: byte): (n: nat)
    ensures n >= 8
  {
    if kind == AUTHENTICATION then 4 * (lenByte + 2) else 8 * (lenByte + 1)
  }

  // It holds the bytes its length field speaks of, and perhaps more.
  predicate Holds(e: RawExt) {
    IsExtension(e.kind) && |e.bytes| >= 2 && |e.bytes| >= HeaderLen(e.kind, e.bytes[1])
  }

  type Source = e: RawExt | Holds(e) witness RawExt(0, [0, 0, 0, 0, 0, 0, 0, 0])

  predicate WellFormed(e: RawExt) {
    Holds(e) && |e.bytes| == HeaderLen(e.kind, e.bytes[1])
  }

  type Ext = e: RawExt | WellFormed(e) witness RawExt(0, [0, 0, 0, 0, 0, 0, 0, 0])

  // What assigning an extension object copies.
  function Declared(s: Source): Ext { RawExt(s.kind, s.bytes[..HeaderLen(s.kind, s.bytes[1])]) }

  // The length byte a constructor leaves in an object of `size` bytes.
  function LenByte(kind: byte, size: nat): byte
    requires size >= 8
  {
    if kind == AUTHENTICATION then (size / 4 - 2) % 256 else (size / 8 - 1) % 256
  }

  // It tells the size exactly as far as it reaches.
  lemma LenByteTellsIff(kind: byte, size: nat)
    requires size >= 8 && size % 8 == 0
    ensures HeaderLen(kind, LenByte(kind, size)) == size <==> size <= if kind == 51 then 1024 else 2048
  {
    assert size == 8 * (size / 8) && size / 4 == 2 * (size / 8);
  }

  // The length byte wraps: a larger object is copied in part only.
  lemma CopiedWholeIff(s: Source)
    requires |s.bytes| % 8 == 0 && s.bytes[1] == LenByte(s.kind, |s.bytes|)
    ensures Declared(s).bytes == s.bytes <==> |s.bytes| <= if s.kind == AUTHENTICATION then 1024 else 2048
  {
    var n := |s.bytes|;
    assert n == 8 * (n / 8) && n / 4 == 2 * (n / 8);
    assert |Declared(s).bytes| == HeaderLen(s.kind, s.bytes[1]);
    if |Declared(s).bytes| == n {
      assert s.bytes[..n] == s.bytes;
    }
  }

  function Total(exts: seq<Ext>): nat {
    if exts == [] then 0 else |exts[0].bytes| + Total(exts[1..])
  }

  function FirstKind(exts: seq<Ext>, upper: byte): byte {
    if exts == [] then upper else exts[0].kind
  }

  // The headers one after another, each naming its successor, the last one `upper`.
  function Body(exts: seq<Ext>, upper: byte): seq<byte>
  {
    if exts == [] then []
    else exts[0].bytes[0 := FirstKind(exts[1..], upper)] + Body(exts[1..], upper)
  }

  function Packet(fixed: seq<byte>, exts: seq<Ext>, upper: byte, payload: seq<byte>): seq<byte>
    requires |fixed| == FIXED_LEN
  {
    fixed[NEXT_HEADER_AT := FirstKind(exts, upper)] + Body(exts, upper) + payload
  }

  // Types and offsets of the in-memory list, from offset `at` on.
  function Entries(exts: seq<Ext>, at: nat): seq<(byte, nat)> {
    if exts == [] then [] else [(exts[0].kind, at)] + Entries(exts[1..], at + |exts[0].bytes|)
  }

  lemma {:induction false} EntriesSnoc(exts: seq<Ext>, e: Ext, at: nat)
    ensures Entries(exts + [e], at) == Entries(exts, at) + [(e.kind, at + Total(exts))]
    ensures |Entries(exts, at)| == |exts|
    decreases |exts|
  {
    if exts == [] {
      assert exts + [e] == [e];
      assert [e][1..] == [];
    } else {
      EntriesSnoc(exts[1..], e, at + |exts[0].bytes|);
      assert (exts + [e])[1..] == exts[1..] + [e];
    }
  }

  lemma {:induction false} BodyLength(exts: seq<Ext>, upper: byte)
    ensures |Body(exts, upper)| == Total(exts)
  {
    if exts != [] {
      BodyLength(exts[1..], upper);
    }
  }

  lemma {:induction false} TotalSnoc(exts: seq<Ext>, e: Ext)
    ensures Total(exts + [e]) == Total(exts) + |e.bytes|
  {
    if exts == [] {
      assert exts + [e] == [e];
    } else {
      TotalSnoc(exts[1..], e);
      assert (exts + [e])[1..] == exts[1..] + [e];
    }
  }

  lemma {:induction false} BodySnoc(exts: seq<Ext>, e: Ext, upper: byte)
    ensures Body(exts + [e], upper) == Body(exts, e.kind) + e.bytes[0 := upper]
  {
    if exts == [] {
      assert exts + [e] == [e];
      assert Body([e][1..], upper) == [];
    } else {
      BodySnoc(exts[1..], e, upper);
      assert (exts + [e])[1..] == exts[1..] + [e];
      assert FirstKind(exts[1..] + [e], upper) == FirstKind(exts[1..], e.kind);
      Assoc(exts[0].bytes[0 := FirstKind(exts[1..], e.kind)], Body(exts[1..], e.kind), e.bytes[0 := upper]);
    }
  }

  lemma UpdateRight(a: seq<byte>, b: seq<byte>, i: nat, x: byte)
    requires i < |b|
    ensures (a + b)[|a| + i] == b[i] && (a + b)[|a| + i := x] == a + b[i := x]
  {}

  // Overwriting the last header's first byte re-targets the whole chain.
  lemma {:induction false} BodyRetarget(exts: seq<Ext>, upper: byte, upper': byte)
    requires exts != []
    ensures var p := Total(exts[..|exts| - 1]);
            && p < |Body(exts, upper)| && Body(exts, upper)[p] == upper
            && Body(exts, upper)[p := upper'] == Body(exts, upper')
  {
    var rest := exts[1..];
    if rest == [] {
      assert exts[..0] == [];
      assert Body(exts, upper) == exts[0].bytes[0 := upper];
      assert Body(exts, upper') == exts[0].bytes[0 := upper'];
    } else {
      BodyRetarget(rest, upper, upper');
      var before := exts[..|exts| - 1];
      assert before[0] == exts[0] && before[1..] == rest[..|rest| - 1];
      var head := exts[0].bytes[0 := rest[0].kind];
      UpdateRight(head, Body(rest, upper), Total(before[1..]), upper');
    }
  }

  // ---------- the byte edits of one addExtension ----------

  // Where the next-header byte of the last header is; the fixed header's, at first.
  function LastNextHeaderAt(exts: seq<Ext>): nat {
    if exts == [] then NEXT_HEADER_AT else FIXED_LEN + Total(exts[..|exts| - 1])
  }

  lemma Splice(h: seq<byte>, body: seq<byte>, bytes: seq<byte>, payload: seq<byte>, p: nat, upper: byte, kind: byte)
    requires p < |body| && body[p] == upper && bytes != []
    ensures var inserted := h + body + bytes + payload;
            && inserted[|h| + p] == upper
            && inserted[|h + body| := upper][|h| + p := kind] == h + (body[p := kind] + bytes[0 := upper]) + payload
  {}

  // Behind a chain, the last header's first byte is the one re-aimed.
  lemma RewireLater(h: seq<byte>, exts: seq<Ext>, e: Ext, upper: byte, payload: seq<byte>, end: nat, last: nat)
    requires exts != [] && end == |h + Body(exts, upper)| && last == |h| + Total(exts[..|exts| - 1])
    ensures var inserted := h + Body(exts, upper) + e.bytes + payload;
            && last < end < |inserted| && inserted[last] == upper
            && inserted[end := upper][last := e.kind] == h + Body(exts + [e], upper) + payload
  {
    BodyRetarget(exts, upper, e.kind);
    BodySnoc(exts, e, upper);
    Splice(h, Body(exts, upper), e.bytes, payload, last - |h|, upper, e.kind);
  }

  function Inserted(data: seq<byte>, at: nat, bytes: seq<byte>): seq<byte>
    requires at <= |data|
  {
    data[..at] + bytes + data[at..]
  }

  lemma InsertedBetween(a: seq<byte>, b: seq<byte>, bytes: seq<byte>)
    ensures Inserted(a + b, |a|, bytes) == a + bytes + b
  {}

  // Making room and then copying into it inserts the bytes, whatever the room held.
  lemma FillRoom(before: seq<byte>, at: nat, filler: seq<byte>, bytes: seq<byte>)
    requires at <= |before| && |filler| == |bytes|
    ensures var roomy := before[..at] + filler + before[at..];
            roomy[..at] + bytes + roomy[at + |bytes|..] == Inserted(before, at, bytes)
  {}

  // The packet with e's bytes inserted behind the chain, the last next-header
  // value moved into it, and its own type left in the old place.
  function Rewired(data: seq<byte>, end: nat, last: nat, e: Ext): seq<byte>
    requires last < end <= |data|
  {
    Inserted(data, end, e.bytes)[end := data[last]][last := e.kind]
  }

  lemma RewiredLater(h: seq<byte>, exts: seq<Ext>, e: Ext, upper: byte, payload: seq<byte>, end: nat, last: nat)
    requires exts != [] && end == |h + Body(exts, upper)| && last == |h| + Total(exts[..|exts| - 1])
    ensures last < end
    ensures Rewired(h + Body(exts, upper) + payload, end, last, e) == h + Body(exts + [e], upper) + payload
  {
    InsertedBetween(h + Body(exts, upper), payload, e.bytes);
    RewireLater(h, exts, e, upper, payload, end, last);
  }

  lemma ExtendsLater(fixed: seq<byte>, exts: seq<Ext>, e: Ext, payload: seq<byte>,
                     before: seq<byte>, after: seq<byte>, end: nat, last: nat)
    requires |fixed| == FIXED_LEN && exts != []
    requires before == Packet(fixed, exts, fixed[NEXT_HEADER_AT], payload)
    requires after == Packet(fixed, exts + [e], fixed[NEXT_HEADER_AT], payload)
    requires end == FIXED_LEN + Total(exts) && last == LastNextHeaderAt(exts)
    ensures last < end <= |before| && Rewired(before, end, last, e) == after
  {
    var upper, h := fixed[NEXT_HEADER_AT], fixed[NEXT_HEADER_AT := exts[0].kind];
    BodyLength(exts, upper);
    assert (exts + [e])[0] == exts[0];
    assert before == h + Body(exts, upper) + payload;
    assert after == h + Body(exts + [e], upper) + payload;
    RewiredLater(h, exts, e, upper, payload, end, last);
  }

  lemma ExtendsFirst(fixed: seq<byte>, e: Ext, payload: seq<byte>)
    requires |fixed| == FIXED_LEN
    ensures Rewired(Packet(fixed, [], fixed[NEXT_HEADER_AT], payload), FIXED_LEN, NEXT_HEADER_AT, e)
            == Packet(fixed, [e], fixed[NEXT_HEADER_AT], payload)
  {}

  // That gives the longer chain.
  lemma RewireExtends(fixed: seq<byte>, exts: seq<Ext>, e: Ext, payload: seq<byte>,
                      before: seq<byte>, after: seq<byte>, end: nat, last: nat)
    requires |fixed| == FIXED_LEN
    requires before == Packet(fixed, exts, fixed[NEXT_HEADER_AT], payload)
    requires after == Packet(fixed, exts + [e], fixed[NEXT_HEADER_AT], payload)
    requires end == FIXED_LEN + Total(exts) && last == LastNextHeaderAt(exts)
    ensures last < end <= |before| && Rewired(before, end, last, e) == after
  {
    if exts == [] {
      assert exts + [e] == [e];
      ExtendsFirst(fixed, e, payload);
    } else {
      ExtendsLater(fixed, exts, e, payload, before, after, end, last);
    }
  }

  lemma EmptyPacket(fixed: seq<byte>, payload: seq<byte>)
    requires |fixed| == FIXED_LEN
    ensures Packet(fixed, [], fixed[NEXT_HEADER_AT], payload) == fixed + payload
  {}

  // ---------- reading the chain back from the bytes ----------

  datatype Chain = Chain(headers: seq<(byte, nat)>, upper: byte, end: nat)

  // Follow the next-header bytes from `at`, whose header has type `kind`. Two
  // bytes are all the parser asks for: a header may reach beyond the data.
  function ParseFrom(data: seq<byte>, kind: byte, at: nat): Chain
    decreases |data| - at
  {
    if !IsExtension(kind) || at + 2 > |data| then Chain([], kind, at)
    else
      var rest := ParseFrom(data, data[at], at + HeaderLen(kind, data[at + 1]));
      rest.(headers := [(kind, at)] + rest.headers)
  }

  function ParsePacket(data: seq<byte>): Chain
    requires |data| >= FIXED_LEN
  {
    ParseFrom(data, data[NEXT_HEADER_AT], FIXED_LEN)
  }

  lemma ParseOne(data: seq<byte>, kind: byte, at: nat, len: nat)
    requires IsExtension(kind) && at + 2 <= |data| && len == HeaderLen(kind, data[at + 1])
    ensures var rest := ParseFrom(data, data[at], at + len);
            ParseFrom(data, kind, at) == Chain([(kind, at)] + rest.headers, rest.upper, rest.end)
  {}

  // The first header of a chain held at `at`: its two leading bytes, and the rest.
  lemma BodyOne(data: seq<byte>, at: nat, exts: seq<Ext>, upper: byte, end: nat)
    requires exts != [] && end == at + Total(exts) <= |data|
    requires data[at..end] == Body(exts, upper)
    ensures var next := at + |exts[0].bytes|;
            && next <= end && data[at] == FirstKind(exts[1..], upper) && data[at + 1] == exts[0].bytes[1]
            && data[next..end] == Body(exts[1..], upper)
  {}

  // `all` lists the headers of `exts` from `at` on, then goes on like `rest`.
  ghost predicate Lists(all: Chain, exts: seq<Ext>, at: nat, rest: Chain) {
    all.headers == Entries(exts, at) + rest.headers && all.upper == rest.upper && all.end == rest.end
  }

  lemma ListsOneMore(all: Chain, exts: seq<Ext>, at: nat, next: Chain, rest: Chain)
    requires exts != [] && Lists(next, exts[1..], at + |exts[0].bytes|, rest)
    requires all == Chain([(exts[0].kind, at)] + next.headers, next.upper, next.end)
    ensures Lists(all, exts, at, rest)
  {}

  lemma ParseOneMore(data: seq<byte>, at: nat, exts: seq<Ext>, next: byte, rest: Chain)
    requires exts != [] && at + |exts[0].bytes| <= |data| && data[at] == next && data[at + 1] == exts[0].bytes[1]
    requires Lists(ParseFrom(data, next, at + |exts[0].bytes|), exts[1..], at + |exts[0].bytes|, rest)
    ensures Lists(ParseFrom(data, exts[0].kind, at), exts, at, rest)
  {
    var e := exts[0];
    ParseOne(data, e.kind, at, |e.bytes|);
    ListsOneMore(ParseFrom(data, e.kind, at), exts, at, ParseFrom(data, next, at + |e.bytes|), rest);
  }

  // Where the bytes hold a chain, parsing lists its headers and goes on behind it
  // with the upper-layer protocol.
  lemma {:induction false} ParseBody(data: seq<byte>, at: nat, exts: seq<Ext>, upper: byte, end: nat, rest: Chain)
    requires end == at + Total(exts) <= |data| && data[at..end] == Body(exts, upper)
    requires rest == ParseFrom(data, upper, end)
    ensures Lists(ParseFrom(data, FirstKind(exts, upper), at), exts, at, rest)
    decreases |exts|
  {
    if exts == [] {
      assert [] + rest.headers == rest.headers;
    } else {
      BodyOne(data, at, exts, upper, end);
      ParseBody(data, at + |exts[0].bytes|, exts[1..], upper, end, rest);
      ParseOneMore(data, at, exts, FirstKind(exts[1..], upper), rest);
    }
  }

  // The payload does not itself pass for one more extension header.
  predicate Ends(upper: byte, payload: seq<byte>) { !IsExtension(upper) || |payload| < 2 }

  // Parsing gives back exactly the headers that were added, with their offsets,
  // the upper-layer protocol and the end of the chain, if and only if the
  // original protocol number did not announce an extension header.
  lemma WireMatchesListIff(fixed: seq<byte>, exts: seq<Ext>, upper: byte, payload: seq<byte>)
    requires |fixed| == FIXED_LEN
    ensures var data, end := Packet(fixed, exts, upper, payload), FIXED_LEN + Total(exts);
            && (ParsePacket(data) == Chain(Entries(exts, FIXED_LEN), upper, end) <==> Ends(upper, payload))
            && end <= |data| && data[end..] == payload
            && data[..FIXED_LEN][NEXT_HEADER_AT := upper] == fixed[NEXT_HEADER_AT := upper]
  {
    var data, end := Packet(fixed, exts, upper, payload), FIXED_LEN + Total(exts);
    var rest := ParseFrom(data, upper, end);
    BodyLength(exts, upper);
    assert data[FIXED_LEN..end] == Body(exts, upper);
    ParseBody(data, FIXED_LEN, exts, upper, end, rest);
    assert data[end..] == payload;
    if !Ends(upper, payload) {
      assert |Entries(exts, FIXED_LEN) + rest.headers| > |Entries(exts, FIXED_LEN)|;
    } else {
      assert rest == Chain([], upper, end);
      assert Entries(exts, FIXED_LEN) + [] == Entries(exts, FIXED_LEN);
    }
  }

  // ---------- what parsing means, in byte values ----------

  // From `at` on, before a header of type `kind`: whether there is a header, and if
  // so how the rest goes on.
  lemma ParseFromBytes(data: seq<byte>, kind: byte, at: nat)
    ensures var c := ParseFrom(data, kind, at);
            && (c.headers != [] <==>
                  at + 2 <= |data| && (kind == 0 || kind == 43 || kind == 44 || kind == 51 || kind == 60))
            && (c.headers == [] ==> c.upper == kind && c.end == at)
            && (c.headers != [] ==>
                  c.headers[0] == (kind, at)
                  && var b := data[at + 1] as int;
                  var rest := ParseFrom(data, data[at], at + if kind == 51 then 4 * (b + 2) else 8 * (b + 1));
                  c == rest.(headers := [(kind, at)] + rest.headers))
  {}

  // The i-th header of a chain parsed from `at` on, and what follows it.
  ghost predicate HeaderFollows(data: seq<byte>, c: Chain, i: nat)
    requires i < |c.headers|
  {
    var (kind, at) := c.headers[i];
    && at + 2 <= |data| && (kind == 0 || kind == 43 || kind == 44 || kind == 51 || kind == 60)
    && var b, len := data[at], data[at + 1] as int;
    var next := at + if kind == 51 then 4 * (len + 2) else 8 * (len + 1);
    && (i + 1 < |c.headers| <==> next + 2 <= |data| && (b == 0 || b == 43 || b == 44 || b == 51 || b == 60))
    && (if i + 1 < |c.headers| then c.headers[i + 1] == (b, next) else c.upper == b && c.end == next)
  }

  lemma BehindOneMore(data: seq<byte>, c: Chain, entry: (byte, nat), rest: Chain, i: nat)
    requires c == rest.(headers := [entry] + rest.headers) && i < |rest.headers| && HeaderFollows(data, rest, i)
    ensures HeaderFollows(data, c, i + 1)
  {
    assert c.headers[i + 1] == rest.headers[i];
    assert i + 1 < |rest.headers| ==> c.headers[i + 2] == rest.headers[i + 1];
  }

  lemma {:induction false} ParseGoesOnFrom(data: seq<byte>, kind: byte, at: nat, i: nat)
    requires i < |ParseFrom(data, kind, at).headers|
    ensures HeaderFollows(data, ParseFrom(data, kind, at), i)
    decreases i
  {
    ParseFromBytes(data, kind, at);
    var next := at + if kind == 51 then 4 * (data[at + 1] as int + 2) else 8 * (data[at + 1] as int + 1);
    if i > 0 {
      ParseGoesOnFrom(data, data[at], next, i - 1);
      BehindOneMore(data, ParseFrom(data, kind, at), (kind, at), ParseFrom(data, data[at], next), i - 1);
    } else {
      ParseFromBytes(data, data[at], next);
    }
  }

  // For every packet of 40 bytes or more: a first header is listed exactly if byte 6
  // holds one of the five numbers and two bytes are left; each further one exactly if
  // the byte at the start of the one before does. The distance between two is 4 times
  // the length byte plus 2 behind number 51, and 8 times that byte plus 1 otherwise.
  lemma ParsedIff(data: seq<byte>)
    requires |data| >= 40
    ensures var c := ParsePacket(data);
            && (c.headers != [] <==>
                  |data| >= 42 && (data[6] == 0 || data[6] == 43 || data[6] == 44 || data[6] == 51 || data[6] == 60))
            && (c.headers == [] ==> c.upper == data[6] && c.end == 40)
            && (c.headers != [] ==> c.headers[0] == (data[6], 40))
            && forall i :: 0 <= i < |c.headers| ==> HeaderFollows(data, c, i)
  {
    ParseFromBytes(data, data[6], 40);
    forall i | 0 <= i < |ParsePacket(data).headers| ensures HeaderFollows(data, ParsePacket(data), i) {
      ParseGoesOnFrom(data, data[6], 40, i);
    }
  }

  // ---------- and the other way round: any packet is laid out as it is parsed ----------

  lemma {:induction false} ParseGoesOn(data: seq<byte>, kind: byte, at: nat)
    ensures ParseFrom(data, kind, at).end >= at
    decreases |data| - at
  {
    if IsExtension(kind) && at + 2 <= |data| {
      ParseGoesOn(data, data[at], at + HeaderLen(kind, data[at + 1]));
    }
  }

  // The headers parsing finds, if all of them lie inside the data.
  function HeadersFrom(data: seq<byte>, kind: byte, at: nat): seq<Ext>
    requires at <= |data| && ParseFrom(data, kind, at).end <= |data|
    decreases |data| - at
  {
    if !IsExtension(kind) || at + 2 > |data| then []
    else
      var next := at + HeaderLen(kind, data[at + 1]);
      ParseGoesOn(data, data[at], next);
      [RawExt(kind, data[at..next])] + HeadersFrom(data, data[at], next)
  }

  // The bytes from `at` to the end of `c` hold the headers `exts`, the first of
  // them of type `kind`, and `c` lists them.
  ghost predicate LaidOut(data: seq<byte>, kind: byte, at: nat, c: Chain, exts: seq<Ext>) {
    && FirstKind(exts, c.upper) == kind && at <= c.end <= |data| && Body(exts, c.upper) == data[at..c.end]
    && Entries(exts, at) == c.headers && at + Total(exts) == c.end
  }

  lemma LaidOutOneMore(data: seq<byte>, at: nat, next: nat, e: Ext, c: Chain, rest: seq<Ext>, all: seq<Ext>)
    requires at < next <= |data| && LaidOut(data, data[at], next, c, rest)
    requires e.bytes == data[at..next] && all == [e] + rest
    ensures LaidOut(data, e.kind, at, c.(headers := [(e.kind, at)] + c.headers), all)
  {
    assert all[0] == e && all[1..] == rest;
    assert e.bytes[0 := data[at]] == e.bytes;
    assert data[at..next] + data[next..c.end] == data[at..c.end];
  }

  lemma HeadersFromOne(data: seq<byte>, kind: byte, at: nat, next: nat)
    requires IsExtension(kind) && at + 2 <= |data| && next == at + HeaderLen(kind, data[at + 1])
    requires ParseFrom(data, kind, at).end <= |data|
    ensures at < next <= ParseFrom(data, data[at], next).end <= |data|
    ensures HeadersFrom(data, kind, at) == [RawExt(kind, data[at..next])] + HeadersFrom(data, data[at], next)
  {
    ParseGoesOn(data, data[at], next);
  }

  lemma {:induction false} HeadersLaidOut(data: seq<byte>, kind: byte, at: nat)
    requires at <= |data| && ParseFrom(data, kind, at).end <= |data|
    ensures LaidOut(data, kind, at, ParseFrom(data, kind, at), HeadersFrom(data, kind, at))
    decreases |data| - at
  {
    if IsExtension(kind) && at + 2 <= |data| {
      var next := at + HeaderLen(kind, data[at + 1]);
      HeadersFromOne(data, kind, at, next);
      ParseOne(data, kind, at, next - at);
      HeadersLaidOut(data, data[at], next);
      LaidOutOneMore(data, at, next, RawExt(kind, data[at..next]), ParseFrom(data, data[at], next),
                     HeadersFrom(data, data[at], next), HeadersFrom(data, kind, at));
    } else {
      assert data[at..at] == [];
    }
  }

  // The fixed header as it would be without extension headers.
  function PlainFixed(data: seq<byte>): (fixed: seq<byte>)
    requires |data| >= FIXED_LEN
    ensures |fixed| == FIXED_LEN
  {
    data[..FIXED_LEN][NEXT_HEADER_AT := ParsePacket(data).upper]
  }

  lemma PacketLaidOut(data: seq<byte>, c: Chain, exts: seq<Ext>, fixed: seq<byte>)
    requires |data| >= FIXED_LEN && LaidOut(data, data[NEXT_HEADER_AT], FIXED_LEN, c, exts)
    requires fixed == data[..FIXED_LEN][NEXT_HEADER_AT := c.upper]
    ensures data == Packet(fixed, exts, c.upper, data[c.end..])
  {
    assert fixed[NEXT_HEADER_AT := data[NEXT_HEADER_AT]] == data[..FIXED_LEN];
    assert data[..FIXED_LEN] + data[FIXED_LEN..c.end] + data[c.end..] == data;
  }

  // Every packet whose headers lie inside it is the chain that parsing finds,
  // laid out between its fixed header and its payload.
  lemma PacketIsParsed(data: seq<byte>)
    requires |data| >= FIXED_LEN && ParsePacket(data).end <= |data|
    ensures var c, exts := ParsePacket(data), HeadersFrom(data, data[NEXT_HEADER_AT], FIXED_LEN);
            && c.end <= |data| && data == Packet(PlainFixed(data), exts, c.upper, data[c.end..])
            && Entries(exts, FIXED_LEN) == c.headers && FIXED_LEN + Total(exts) == c.end
            && Ends(c.upper, data[c.end..])
  {
    var c, exts := ParsePacket(data), HeadersFrom(data, data[NEXT_HEADER_AT], FIXED_LEN);
    HeadersLaidOut(data, data[NEXT_HEADER_AT], FIXED_LEN);
    PacketLaidOut(data, c, exts, PlainFixed(data));
    ParseStops(data, data[NEXT_HEADER_AT], FIXED_LEN);
  }

  // Parsing stops at a protocol that is no extension, or within two bytes of the end.
  lemma {:induction false} ParseStops(data: seq<byte>, kind: byte, at: nat)
    ensures var c := ParseFrom(data, kind, at); !IsExtension(c.upper) || c.end + 2 > |data|
    decreases |data| - at
  {
    if IsExtension(kind) && at + 2 <= |data| {
      ParseStops(data, data[at], at + HeaderLen(kind, data[at + 1]));
    }
  }

  // The last header's next-header byte names the upper-layer protocol.
  lemma LastNamesUpper(fixed: seq<byte>, exts: seq<Ext>, upper: byte, payload: seq<byte>)
    requires |fixed| == FIXED_LEN
    ensures var data := Packet(fixed, exts, upper, payload);
            LastNextHeaderAt(exts) < |data| && data[LastNextHeaderAt(exts)] == upper
  {
    if exts != [] {
      BodyRetarget(exts, upper, upper);
    }
  }
}

module Ipv6Layer {
  import opened Basics
  import opened Sequences
  import opened Ipv6Wire

  class IPv6Extension {
    const extType: byte
    const offset: nat
    var nextHeader: IPv6Extension?

    constructor (extType: byte, offset: nat)
      ensures this.extType == extType && this.offset == offset && nextHeader == null
    {
      this.extType, this.offset, nextHeader := extType, offset, null;
    }
  }

  // The list has one object per entry, in order, of its type and at its offset.
  ghost predicate Linked(first: IPv6Extension?, last: IPv6Extension?, objects: seq<IPv6Extension>,
                         entries: seq<(byte, nat)>)
    reads objects
  {
    && |objects| == |entries|
    && first == (if objects == [] then null else objects[0])
    && last == (if objects == [] then null else objects[|objects| - 1])
    && (forall i :: 0 <= i < |objects| ==> objects[i].extType == entries[i].0 && objects[i].offset == entries[i].1)
    && (forall i :: 0 <= i < |objects| ==>
          objects[i].nextHeader == if i + 1 < |objects| then objects[i + 1] else null)
    && (forall i, j :: 0 <= i < j < |objects| ==> objects[i] != objects[j])
  }

  // The total length the fixed header announces, as the constructor computes it.
  function Announced(data: seq<byte>): nat
    requires |data| >= FIXED_LEN
  {
    data[4] as int * 256 + data[5] as int + ParsePacket(data).end
  }

  // The payload length already counts the extension headers, so bytes behind the
  // packet are cut off to the last one exactly when there are no headers, or no
  // bytes behind it.
  lemma TrailerCutIff(data: seq<byte>)
    requires |data| >= FIXED_LEN
    ensures var n := FIXED_LEN + data[4] as int * 256 + data[5] as int;
            Min(|data|, Announced(data)) == Min(|data|, n)
            <==> ParsePacket(data).headers == [] || |data| <= n
  {
    ParseGoesOn(data, data[NEXT_HEADER_AT], FIXED_LEN);
    if ParsePacket(data).headers != [] {
      ParseGoesOn(data, data[FIXED_LEN], FIXED_LEN + HeaderLen(data[NEXT_HEADER_AT], data[FIXED_LEN + 1]));
    }
  }

  // Cutting a packet behind its headers cuts its payload.
  lemma PacketCut(fixed: seq<byte>, exts: seq<Ext>, upper: byte, payload: seq<byte>, end: nat, kept: nat)
    requires |fixed| == FIXED_LEN && end == FIXED_LEN + Total(exts) <= kept <= end + |payload|
    ensures kept <= |Packet(fixed, exts, upper, payload)|
    ensures Packet(fixed, exts, upper, payload)[..kept] == Packet(fixed, exts, upper, payload[..kept - end])
  {
    BodyLength(exts, upper);
  }

  // What is kept of a packet whose headers lie inside it.
  lemma KeptIsPacket(bytes: seq<byte>, c: Chain, kept: nat)
    requires |bytes| >= FIXED_LEN && c == ParsePacket(bytes) && c.end <= kept <= |bytes|
    ensures var exts := HeadersFrom(bytes, bytes[NEXT_HEADER_AT], FIXED_LEN);
            && bytes[..kept] == Packet(PlainFixed(bytes), exts, PlainFixed(bytes)[NEXT_HEADER_AT], bytes[c.end..kept])
            && bytes[..kept][c.end..] == bytes[c.end..kept]
            && Entries(exts, FIXED_LEN) == c.headers && FIXED_LEN + Total(exts) == c.end && |exts| == |c.headers|
  {
    var exts := HeadersFrom(bytes, bytes[NEXT_HEADER_AT], FIXED_LEN);
    PacketIsParsed(bytes);
    PacketCut(PlainFixed(bytes), exts, c.upper, bytes[c.end..], c.end, kept);
    assert bytes[c.end..][..kept - c.end] == bytes[c.end..kept];
    EntriesLength(exts, FIXED_LEN);
  }

  // Parsing has listed `seen` and stands at `at`, before a header of type `kind`.
  ghost predicate Reached(data: seq<byte>, seen: seq<(byte, nat)>, kind: byte, at: nat) {
    var rest := ParseFrom(data, kind, at);
    |data| >= FIXED_LEN && ParsePacket(data) == rest.(headers := seen + rest.headers)
  }

  lemma ReachedNext(data: seq<byte>, seen: seq<(byte, nat)>, kind: byte, at: nat)
    requires Reached(data, seen, kind, at) && IsExtension(kind) && at + 2 <= |data|
    ensures Reached(data, seen + [(kind, at)], data[at], at + HeaderLen(kind, data[at + 1]))
  {
    var rest := ParseFrom(data, data[at], at + HeaderLen(kind, data[at + 1]));
    ParseOne(data, kind, at, HeaderLen(kind, data[at + 1]));
    assert seen + ([(kind, at)] + rest.headers) == seen + [(kind, at)] + rest.headers;
  }

  lemma ReachedEnd(data: seq<byte>, seen: seq<(byte, nat)>, kind: byte, at: nat)
    requires Reached(data, seen, kind, at) && (!IsExtension(kind) || at + 2 > |data|)
    ensures ParsePacket(data) == Chain(seen, kind, at)
  {
    assert seen + [] == seen;
  }

  class IPv6Layer {
    var data: seq<byte>
    var firstExtension: IPv6Extension?
    var lastExtension: IPv6Extension?
    var extensionsLen: nat

    // The headers in the packet, and the object for each.
    ghost var added: seq<Ext>
    ghost var objects: seq<IPv6Extension>
    // The packet without extension headers.
    ghost var fixed: seq<byte>
    ghost var payload: seq<byte>

    ghost predicate Valid()
      reads this, objects
    {
      && |fixed| == FIXED_LEN
      && data == Packet(fixed, added, fixed[NEXT_HEADER_AT], payload)
      && extensionsLen == Total(added)
      && |objects| == |added|
      && Linked(firstExtension, lastExtension, objects, Entries(added, FIXED_LEN))
    }

    function GetHeaderLen(): nat
      reads this
    {
      FIXED_LEN + extensionsLen
    }

    // Reads a packet. Parsing may find a header that reaches beyond the bytes;
    // otherwise the layer is as if the headers had been added.
    constructor (bytes: seq<byte>)
      requires |bytes| >= FIXED_LEN
      ensures data == bytes[..Min(|bytes|, Announced(bytes))]
      ensures Linked(firstExtension, lastExtension, objects, ParsePacket(bytes).headers) && fresh(objects)
      ensures GetHeaderLen() == ParsePacket(bytes).end
      ensures GetHeaderLen() <= |bytes| ==>
                Valid() && fixed == PlainFixed(bytes) && payload == data[GetHeaderLen()..]
                && added == HeadersFrom(bytes, bytes[NEXT_HEADER_AT], FIXED_LEN)
    {
      data := bytes;
      firstExtension, lastExtension, extensionsLen := null, null, 0;
      added, objects, fixed, payload := [], [], [], [];
      new;
      ParseExtensions();
      CutTrailer();
      if GetHeaderLen() <= |bytes| {
        Adopt(bytes, ParsePacket(bytes), Min(|bytes|, Announced(bytes)));
      }
    }

    method CutTrailer()
      requires |data| >= FIXED_LEN && GetHeaderLen() == ParsePacket(data).end
      modifies `data
      ensures data == old(data)[..Min(|old(data)|, Announced(old(data)))]
    {
      var totalLen := data[4] as int * 256 + data[5] as int + GetHeaderLen();
      if totalLen < |data| {
        data := data[..totalLen];
      }
    }

    // The parsed headers count as added.
    ghost method Adopt(bytes: seq<byte>, c: Chain, kept: nat)
      requires |bytes| >= FIXED_LEN && c == ParsePacket(bytes) && c.end <= kept <= |bytes|
      requires data == bytes[..kept] && GetHeaderLen() == c.end
      requires Linked(firstExtension, lastExtension, objects, c.headers)
      modifies `added, `fixed, `payload
      ensures Valid() && fixed == PlainFixed(bytes) && payload == data[GetHeaderLen()..]
      ensures added == HeadersFrom(bytes, bytes[NEXT_HEADER_AT], FIXED_LEN)
    {
      KeptIsPacket(bytes, c, kept);
      added, fixed := HeadersFrom(bytes, bytes[NEXT_HEADER_AT], FIXED_LEN), PlainFixed(bytes);
      payload := bytes[c.end..kept];
    }

    // A copy is given the header bytes only, and parses them again.
    constructor Copy(other: IPv6Layer)
      requires other.Valid()
      ensures Valid() && fresh(objects) && GetHeaderLen() == other.GetHeaderLen() == |data| <= |other.data|
      ensures data == other.data[..|data|] && added == other.added && fixed == other.fixed && payload == []
    {
      ghost var end := FIXED_LEN + Total(other.added);
      ghost var upper := other.fixed[NEXT_HEADER_AT];
      PacketCut(other.fixed, other.added, upper, other.payload, end, end);
      WireMatchesListIff(other.fixed, other.added, upper, []);
      data := other.data[..other.GetHeaderLen()];
      firstExtension, lastExtension, extensionsLen := null, null, 0;
      added, objects, fixed, payload := other.added, [], other.fixed, [];
      new;
      ParseExtensions();
    }

    // An object for each header found, the last one remembered.
    method ParseExtensions()
      requires |data| >= FIXED_LEN && firstExtension == null && extensionsLen == 0
      modifies `firstExtension, `lastExtension, `extensionsLen, `objects
      ensures Linked(firstExtension, lastExtension, objects, ParsePacket(data).headers) && fresh(objects)
      ensures GetHeaderLen() == ParsePacket(data).end
    {
      ghost var seen, kind;
      lastExtension, seen, kind := FollowHeaders();
      ReachedEnd(data, seen, kind, GetHeaderLen());
    }

    // The loop over the next-header bytes.
    method FollowHeaders() returns (curExt: IPv6Extension?, ghost seen: seq<(byte, nat)>, ghost kind: byte)
      requires |data| >= FIXED_LEN && firstExtension == null && extensionsLen == 0
      modifies `firstExtension, `extensionsLen, `objects
      ensures fresh(objects) && At(curExt, seen, kind, GetHeaderLen())
      ensures !IsExtension(kind) || GetHeaderLen() + 2 > |data|
    {
      var nextHdr := data[NEXT_HEADER_AT];
      var offset := FIXED_LEN;
      curExt, seen, objects := null, [], [];
      while offset + 2 <= |data| && IsExtension(nextHdr)
        invariant fresh(objects) && GetHeaderLen() == offset && At(curExt, seen, nextHdr, offset)
        decreases |data| - offset
      {
        curExt, nextHdr, seen := AddParsed(curExt, nextHdr, offset, seen);
        offset := GetHeaderLen();
      }
      kind := nextHdr;
    }

    // The loop of ParseExtensions is before a header of type `kind` at `at`.
    ghost predicate At(last: IPv6Extension?, seen: seq<(byte, nat)>, kind: byte, at: nat)
      reads this, objects
    {
      Linked(firstExtension, last, objects, seen) && Reached(data, seen, kind, at)
    }

    // One header found: its object goes into the list, its length is counted.
    method AddParsed(last: IPv6Extension?, kind: byte, at: nat, ghost seen: seq<(byte, nat)>)
        returns (e: IPv6Extension, next: byte, ghost seen': seq<(byte, nat)>)
      requires At(last, seen, kind, at) && IsExtension(kind) && at + 2 <= |data| && at == GetHeaderLen()
      modifies `firstExtension, `extensionsLen, `objects, objects
      ensures At(e, seen', next, GetHeaderLen()) && GetHeaderLen() > at
      ensures fresh(e) && objects == old(objects) + [e]
    {
      ReachedNext(data, seen, kind, at);
      e := LinkNew(last, kind, at, seen);
      next, seen' := data[at], seen + [(kind, at)];
      extensionsLen := extensionsLen + HeaderLen(kind, data[at + 1]);
    }

    method LinkNew(last: IPv6Extension?, kind: byte, offset: nat, ghost entries: seq<(byte, nat)>)
        returns (e: IPv6Extension)
      requires Linked(firstExtension, last, objects, entries)
      modifies `firstExtension, `objects, objects
      ensures Linked(firstExtension, e, objects, entries + [(kind, offset)])
      ensures fresh(e) && objects == old(objects) + [e]
    {
      e := new IPv6Extension(kind, offset);
      LinkBehind(last, e, entries);
    }

    // The object goes behind the last one, or becomes the first.
    method LinkBehind(last: IPv6Extension?, e: IPv6Extension, ghost entries: seq<(byte, nat)>)
      requires Linked(firstExtension, last, objects, entries)
      requires e !in objects && e.nextHeader == null
      modifies `firstExtension, `objects, objects
      ensures Linked(firstExtension, e, objects, entries + [(e.extType, e.offset)])
      ensures objects == old(objects) + [e]
    {
      if firstExtension == null {
        firstExtension := e;
      } else {
        last.nextHeader := e;
      }
      objects := objects + [e];
    }

    // `room` is what the packet's buffer allows; a layer of its own always has it.
    // `filler` is what extendLayer leaves in the bytes it makes room for.
    method ExtendLayer(offset: nat, filler: seq<byte>, room: bool) returns (ok: bool)
      modifies `data
      ensures ok <==> room && offset <= old(|data|)
      ensures data == if ok then Inserted(old(data), offset, filler) else old(data)
    {
      if !room || offset > |data| {
        return false;
      }
      data := data[..offset] + filler + data[offset..];
      return true;
    }

    method ShortenLayer(offset: nat, count: nat)
      requires offset + count <= |data|
      modifies `data
      ensures data == old(data)[..offset] + old(data)[offset + count..]
    {
      if offset >= |data| {
        return;
      }
      data := data[..offset] + data[offset + count..];
    }

    lemma HeadersInside()
      ensures Valid() ==> GetHeaderLen() <= |data|
    {
      if Valid() {
        BodyLength(added, fixed[NEXT_HEADER_AT]);
      }
    }

    // A layer of its own that parsing left with a header beyond its bytes is not extended.
    method AddExtension(source: Source, room: bool, filler: seq<byte>) returns (header: IPv6Extension?)
      requires GetHeaderLen() <= |data| ==> Valid()
      requires |filler| == |Declared(source).bytes|
      modifies this, objects
      ensures header == null <==> !room || old(GetHeaderLen() > |data|)
      ensures old(Valid()) ==> (header == null <==> !room)
      ensures header == null ==>
                data == old(data) && added == old(added) && objects == old(objects) && (old(Valid()) ==> Valid())
      ensures header != null ==>
                Valid() && fresh(header) && added == old(added) + [Declared(source)]
                && objects == old(objects) + [header]
      ensures fixed == old(fixed) && payload == old(payload)
    {
      HeadersInside();
      var offset := GetHeaderLen();
      var extended := ExtendLayer(offset, filler, room);
      if !extended {
        return null;
      }
      header := PlaceHeader(offset, source, old(data), filler);
    }

    // In the room made at the end of the chain.
    method PlaceHeader(offset: nat, source: Source, ghost before: seq<byte>, ghost filler: seq<byte>)
        returns (header: IPv6Extension)
      requires |fixed| == FIXED_LEN && before == Packet(fixed, added, fixed[NEXT_HEADER_AT], payload)
      requires extensionsLen == Total(added) && offset == GetHeaderLen() <= |before| && |objects| == |added|
      requires Linked(firstExtension, lastExtension, objects, Entries(added, FIXED_LEN))
      requires |filler| == |Declared(source).bytes| && data == Inserted(before, offset, filler)
      modifies this, objects
      ensures Valid() && fresh(header) && objects == old(objects) + [header]
      ensures added == old(added) + [Declared(source)] && fixed == old(fixed) && payload == old(payload)
    {
      ghost var e := Declared(source);
      ghost var after := Packet(fixed, added + [e], fixed[NEXT_HEADER_AT], payload);
      RewireExtends(fixed, added, e, payload, before, after, offset, LastNextHeaderAt(added));
      header := new IPv6Extension(source.kind, offset);
      CopyInto(offset, source, before, filler);
      LinkLast(header, e);
      extensionsLen := extensionsLen + HeaderLen(header.extType, data[offset + 1]);
      TotalSnoc(old(added), e);
    }

    // The assignment of an extension object: as many bytes as its length field says.
    method CopyInto(offset: nat, source: Source, ghost before: seq<byte>, ghost filler: seq<byte>)
      requires offset <= |before| && |filler| == |Declared(source).bytes|
      requires data == Inserted(before, offset, filler)
      modifies `data
      ensures data == Inserted(before, offset, Declared(source).bytes) && data[offset + 1] == source.bytes[1]
    {
      FillRoom(before, offset, filler, Declared(source).bytes);
      var len := HeaderLen(source.kind, source.bytes[1]);
      data := data[..offset] + source.bytes[..len] + data[offset + len..];
    }

    // Threading the new header into both views of the chain.
    method LinkLast(header: IPv6Extension, ghost e: Ext)
      requires Linked(firstExtension, lastExtension, objects, Entries(added, FIXED_LEN))
      requires header !in objects && header.nextHeader == null
      requires header.extType == e.kind && header.offset == FIXED_LEN + Total(added)
      requires LastNextHeaderAt(added) < header.offset < |data|
      modifies `data, `firstExtension, `lastExtension, `added, `objects, objects
      ensures Linked(firstExtension, lastExtension, objects, Entries(added, FIXED_LEN))
      ensures added == old(added) + [e] && objects == old(objects) + [header]
      ensures var last := LastNextHeaderAt(old(added));
              data == old(data)[header.offset := old(data)[last]][last := header.extType]
    {
      EntriesSnoc(added, e, FIXED_LEN);
      if firstExtension != null {
        LastOffset(firstExtension, lastExtension, objects, added);
        data := data[header.offset := data[lastExtension.offset]];
        data := data[lastExtension.offset := header.extType];
      } else {
        data := data[header.offset := data[NEXT_HEADER_AT]];
        data := data[NEXT_HEADER_AT := header.extType];
      }
      LinkBehind(lastExtension, header, Entries(added, FIXED_LEN));
      lastExtension := header;
      added := added + [e];
    }

    // Whatever was parsed or added, the packet without extension headers is left. If a
    // parsed header reaches beyond the data, more bytes are cut out than there are:
    // `inside` is false then, and what happens is not followed.
    method RemoveAllExtensions() returns (inside: bool)
      requires GetHeaderLen() <= |data| ==> Valid()
      modifies this
      ensures inside <==> old(GetHeaderLen() <= |data|)
      ensures inside ==> Valid() && added == [] && objects == []
      ensures inside ==> fixed == old(fixed) && payload == old(payload) && data == fixed + payload
    {
      if FIXED_LEN + extensionsLen > |data| {
        return false;
      }
      ghost var upper, end := fixed[NEXT_HEADER_AT], FIXED_LEN + Total(added);
      LastNamesUpper(fixed, added, upper, payload);
      PlainRest(fixed, added, upper, payload, end);
      if lastExtension != null {
        LastOffset(firstExtension, lastExtension, objects, added);
        data := data[NEXT_HEADER_AT := data[lastExtension.offset]];
      }
      ShortenLayer(FIXED_LEN, extensionsLen);
      firstExtension, lastExtension, extensionsLen := null, null, 0;
      added, objects := [], [];
      EmptyPacket(fixed, payload);
      return true;
    }

    // The first header of the given type, or null.
    method GetExtensionOfType(kind: byte) returns (found: IPv6Extension?)
      requires Valid()
      ensures found == null ==> forall i :: 0 <= i < |added| ==> added[i].kind != kind
      ensures found != null ==> exists i :: 0 <= i < |added| && objects[i] == found && added[i].kind == kind
                                            && forall j :: 0 <= j < i ==> added[j].kind != kind
    {
      found := firstExtension;
      ghost var at := 0;
      EntriesLength(added, FIXED_LEN);
      while found != null && found.extType != kind
        invariant Valid() && at <= |objects|
        invariant found == if at < |objects| then objects[at] else null
        invariant forall j :: 0 <= j < at ==> added[j].kind != kind
        decreases |objects| - at
      {
        EntriesAt(added, FIXED_LEN, at);
        LinkedNext(firstExtension, lastExtension, objects, Entries(added, FIXED_LEN), at);
        found := found.nextHeader;
        at := at + 1;
      }
      if found != null {
        EntriesAt(added, FIXED_LEN, at);
      }
    }

    // What walking the objects shows.
    ghost function Listed(): seq<(byte, nat)>
      reads this, objects
    {
      seq(|objects|, i requires 0 <= i < |objects| reads this => (objects[i].extType, objects[i].offset))
    }

    // The linked list tells what parsing the bytes anew would tell, down to the
    // original upper-layer protocol and GetHeaderLen(), exactly when that protocol
    // number does not itself announce one more header in the payload.
    lemma ViewsAgreeIff()
      requires Valid()
      ensures |data| >= FIXED_LEN && GetHeaderLen() <= |data| && data[GetHeaderLen()..] == payload
      ensures ParsePacket(data) == Chain(Listed(), fixed[NEXT_HEADER_AT], GetHeaderLen())
              <==> Ends(fixed[NEXT_HEADER_AT], payload)
      ensures Listed() == Entries(added, FIXED_LEN)
    {
      WireMatchesListIff(fixed, added, fixed[NEXT_HEADER_AT], payload);
      assert Listed() == Entries(added, FIXED_LEN);
    }
  }

  // Copying allocates the bytes there are and announces the header length, which
  // lies inside them exactly when no parsed header reaches beyond the data. Where it
  // does not, null is returned here, and the copy is not followed.
  method CopyOf(other: IPv6Layer) returns (copy: IPv6Layer?)
    requires other.GetHeaderLen() <= |other.data| ==> other.Valid()
    ensures copy == null <==> other.GetHeaderLen() > |other.data|
    ensures copy != null ==>
              fresh(copy) && copy.Valid() && copy.GetHeaderLen() == other.GetHeaderLen() == |copy.data|
              && copy.data == other.data[..|copy.data|]
              && copy.added == other.added && copy.fixed == other.fixed && copy.payload == []
  {
    if other.GetHeaderLen() > |other.data| {
      return null;
    }
    copy := new IPv6Layer.Copy(other);
  }

  // The packet with its first next-header byte put back and its headers cut out.
  lemma PlainRest(fixed: seq<byte>, exts: seq<Ext>, upper: byte, payload: seq<byte>, end: nat)
    requires |fixed| == FIXED_LEN && upper == fixed[NEXT_HEADER_AT] && end == FIXED_LEN + Total(exts)
    ensures var data := Packet(fixed, exts, upper, payload);
            && end <= |data| && data[end..] == payload
            && data[NEXT_HEADER_AT := upper][..FIXED_LEN] == fixed
            && data[NEXT_HEADER_AT := upper][end..] == payload
  {
    BodyLength(exts, upper);
  }

  lemma {:induction false} EntriesLength(exts: seq<Ext>, at: nat)
    ensures |Entries(exts, at)| == |exts|
  {
    if exts != [] {
      EntriesLength(exts[1..], at + |exts[0].bytes|);
    }
  }

  lemma {:induction false} EntriesAt(exts: seq<Ext>, at: nat, i: nat)
    requires i < |exts|
    ensures |Entries(exts, at)| == |exts| && Entries(exts, at)[i].0 == exts[i].kind
    decreases |exts|
  {
    EntriesLength(exts, at);
    if i > 0 {
      EntriesAt(exts[1..], at + |exts[0].bytes|, i - 1);
    }
  }

  // Any run of additions: the bytes parse to the headers there were and those that
  // could be made room for, in order, and the payload is untouched; the one
  // exception is as in ViewsAgreeIff.
  method AddAll(layer: IPv6Layer, sources: seq<Source>, room: seq<bool>)
    requires layer.Valid() && |room| == |sources|
    modifies layer, layer.objects
    ensures layer.Valid() && layer.added == old(layer.added) + Accepted(sources, room)
    ensures layer.fixed == old(layer.fixed) && layer.payload == old(layer.payload)
    ensures |layer.data| >= FIXED_LEN && layer.GetHeaderLen() <= |layer.data|
    ensures layer.data[layer.GetHeaderLen()..] == layer.payload
    ensures ParsePacket(layer.data)
            == Chain(Entries(layer.added, FIXED_LEN), layer.fixed[NEXT_HEADER_AT], layer.GetHeaderLen())
            <==> Ends(layer.fixed[NEXT_HEADER_AT], layer.payload)
  {
    ghost var _ := AddEach(layer, sources, room);
    layer.ViewsAgreeIff();
  }

  method AddEach(layer: IPv6Layer, sources: seq<Source>, room: seq<bool>) returns (ghost made: seq<IPv6Extension>)
    requires layer.Valid() && |room| == |sources|
    modifies layer, layer.objects
    ensures layer.Valid() && layer.added == old(layer.added) + Accepted(sources, room)
    ensures layer.fixed == old(layer.fixed) && layer.payload == old(layer.payload)
    ensures fresh(made) && layer.objects == old(layer.objects) + made
  {
    if sources == [] {
      return [];
    }
    var n := |sources| - 1;
    made := AddEach(layer, sources[..n], room[..n]);
    ghost var one := AddOne(layer, sources[n], room[n]);
    Assoc(old(layer.added), Accepted(sources[..n], room[..n]), if room[n] then [Declared(sources[n])] else []);
    Assoc(old(layer.objects), made, one);
    made := made + one;
  }

  method AddOne(layer: IPv6Layer, source: Source, room: bool) returns (ghost made: seq<IPv6Extension>)
    requires layer.Valid()
    modifies layer, layer.objects
    ensures layer.Valid() && layer.fixed == old(layer.fixed) && layer.payload == old(layer.payload)
    ensures layer.added == old(layer.added) + if room then [Declared(source)] else []
    ensures fresh(made) && layer.objects == old(layer.objects) + made
  {
    var filler := seq(|Declared(source).bytes|, _ => 0);
    var header := layer.AddExtension(source, room, filler);
    made := if header == null then [] else [header];
  }

  function Accepted(sources: seq<Source>, room: seq<bool>): seq<Ext>
    requires |room| == |sources|
  {
    if sources == [] then []
    else
      var n := |sources| - 1;
      Accepted(sources[..n], room[..n]) + if room[n] then [Declared(sources[n])] else []
  }

  lemma LinkedNext(first: IPv6Extension?, last: IPv6Extension?, objects: seq<IPv6Extension>,
                   entries: seq<(byte, nat)>, i: nat)
    requires Linked(first, last, objects, entries) && i < |objects|
    ensures objects[i].nextHeader == if i + 1 < |objects| then objects[i + 1] else null
  {}

  lemma LastOffset(first: IPv6Extension?, last: IPv6Extension?, objects: seq<IPv6Extension>, added: seq<Ext>)
    requires Linked(first, last, objects, Entries(added, FIXED_LEN)) && last != null
    ensures added != [] && last == objects[|objects| - 1]
    ensures last.offset == LastNextHeaderAt(added)
  {
    EntriesLength(added, FIXED_LEN);
    var before, e := added[..|added| - 1], added[|added| - 1];
    assert added == before + [e];
    EntriesSnoc(before, e, FIXED_LEN);
  }
}
