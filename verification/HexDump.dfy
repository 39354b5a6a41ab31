// The payload dump of the packet printer (lesson2/pcap_sniffer/packet_printer.cpp).

module HexDump {
  import opened Basics

  const LINE_WIDTH: nat := 16
  const HEX_COLUMNS: nat := 52

  datatype Line = Line(offset: nat, bytes: seq<byte>, hex: seq<char>, ascii: seq<char>)

  // Byte i is printed in this column, behind a pad character; the second half of
  // the line is set one column further to the right.
  function ColumnOf(i: nat): nat { 3 * i + 1 + if i >= 8 then 1 else 0 }

  // Every byte stands in its own column, and all other columns are blank.
  ghost predicate InColumns(hex: seq<char>, bytes: seq<byte>) {
    && (forall i :: 0 <= i < |bytes| && ColumnOf(i) < |hex| ==> hex[ColumnOf(i)] == bytes[i] as char)
    && (forall c :: 0 <= c < |hex| && (forall i :: 0 <= i < |bytes| ==> c != ColumnOf(i)) ==> hex[c] == ' ')
  }

  predicate IsPrintable(b: byte) { 32 <= b <= 126 }

  // The text column: the cursor moves on behind a printable byte only, so from the
  // first byte on that is not printable there are dots.
  ghost predicate InText(ascii: seq<char>, bytes: seq<byte>) {
    && |ascii| == |bytes|
    && forall i :: 0 <= i < |bytes| ==> ascii[i] == if AllPrintable(bytes, i) then bytes[i] as char else '.'
  }

  ghost predicate AllPrintable(bytes: seq<byte>, last: nat)
    requires last < |bytes|
  {
    forall j :: 0 <= j <= last ==> 32 <= bytes[j] <= 126
  }

  method PrintAscii(bytes: seq<byte>) returns (ascii: seq<char>)
    ensures InText(ascii, bytes)
  {
    ascii := [];
    var ch := 0;
    for i := 0 to |bytes|
      invariant |ascii| == i && ch <= i
      invariant forall j :: 0 <= j < ch ==> 32 <= bytes[j] <= 126 && ascii[j] == bytes[j] as char
      invariant ch < i ==> !(32 <= bytes[ch] <= 126)
      invariant forall j :: ch <= j < i ==> ascii[j] == '.'
    {
      if IsPrintable(bytes[ch]) {
        ascii := ascii + [bytes[ch] as char];
        ch := ch + 1;
      } else {
        ascii := ascii + ['.'];
      }
    }
  }

  ghost predicate AsMeant(ascii: seq<char>, bytes: seq<byte>, i: nat)
    requires i < |bytes| == |ascii|
  {
    ascii[i] == if 32 <= bytes[i] <= 126 then bytes[i] as char else '.'
  }

  lemma ColumnAsMeantIff(ascii: seq<char>, bytes: seq<byte>, i: nat)
    requires InText(ascii, bytes) && i < |bytes|
    ensures AsMeant(ascii, bytes, i)
            <==> AllPrintable(bytes, i) || !(32 <= bytes[i] <= 126) || bytes[i] as char == '.'
  {}

  // That is each printable byte and a dot for each other one, as it was meant, exactly
  // when only dots are printable behind the first other one.
  lemma TextAsMeantIff(ascii: seq<char>, bytes: seq<byte>)
    requires InText(ascii, bytes)
    ensures (forall i :: 0 <= i < |bytes| ==> AsMeant(ascii, bytes, i))
            <==> forall i :: 0 <= i < |bytes| ==>
                   AllPrintable(bytes, i) || !(32 <= bytes[i] <= 126) || bytes[i] as char == '.'
  {
    forall i | 0 <= i < |bytes|
      ensures AsMeant(ascii, bytes, i)
              <==> AllPrintable(bytes, i) || !(32 <= bytes[i] <= 126) || bytes[i] as char == '.'
    {
      ColumnAsMeantIff(ascii, bytes, i);
    }
  }

  // The hex region, gap included, of a line of 1 to 16 bytes is always 52 columns.
  method PrintHexAsciiLine(bytes: seq<byte>, offset: nat) returns (line: Line)
    requires |bytes| <= LINE_WIDTH
    ensures line.offset == offset && line.bytes == bytes
    ensures |line.hex| == HEX_COLUMNS && InColumns(line.hex, bytes) && InText(line.ascii, bytes)
  {
    var hex: seq<char> := [];
    for i := 0 to |bytes|
      invariant |hex| == 3 * i + if i >= 8 then 1 else 0
      invariant InColumns(hex, bytes[..i])
    {
      ghost var before := hex;
      hex := hex + [' ', bytes[i] as char, ' '];
      if i == 7 { hex := hex + [' ']; }
      OneMoreByte(before, bytes, i, hex);
    }
    assert bytes[..|bytes|] == bytes;
    if |bytes| < 8 { hex := hex + [' ']; }
    if |bytes| < 16 {
      for g := 0 to 16 - |bytes|
        invariant |hex| == 3 * (|bytes| + g) + 1
        invariant InColumns(hex, bytes)
      {
        hex := hex + [' ', ' ', ' '];
      }
    }
    hex := hex + [' ', ' ', ' '];
    var ascii := PrintAscii(bytes);
    line := Line(offset, bytes, hex, ascii);
  }

  lemma OneMoreByte(before: seq<char>, bytes: seq<byte>, i: nat, after: seq<char>)
    requires i < |bytes| && InColumns(before, bytes[..i]) && |before| == 3 * i + if i >= 8 then 1 else 0
    requires after == before + [' ', bytes[i] as char, ' '] + if i == 7 then [' '] else []
    ensures InColumns(after, bytes[..i + 1])
  {
    var shown, more := bytes[..i], bytes[..i + 1];
    forall j | 0 <= j < |more| && ColumnOf(j) < |after| ensures after[ColumnOf(j)] == more[j] as char {
      if j < i { assert more[j] == shown[j]; }
    }
    forall c | 0 <= c < |after| && (forall j :: 0 <= j < |more| ==> c != ColumnOf(j)) ensures after[c] == ' ' {
      if c < |before| {
        forall j | 0 <= j < |shown| ensures c != ColumnOf(j) {
          assert j < |more|;
        }
      } else {
        assert c != ColumnOf(i);
      }
    }
  }

  // Line k of the dump: where it starts and what it covers.
  ghost predicate Covers(line: Line, payload: seq<byte>, k: nat) {
    && 16 * k < |payload| && line.offset == 16 * k
    && line.bytes == payload[16 * k..Min(16 * k + 16, |payload|)]
    && |line.hex| == 52 && InColumns(line.hex, line.bytes) && InText(line.ascii, line.bytes)
  }

  function AllBytes(lines: seq<Line>): seq<byte> {
    if lines == [] then [] else AllBytes(lines[..|lines| - 1]) + lines[|lines| - 1].bytes
  }

  // Always a full line, since more than one line remains when it is asked.
  function LineLength(remaining: nat): (n: nat)
    requires remaining > 0
    ensures remaining > LINE_WIDTH ==> n == LINE_WIDTH
  {
    LINE_WIDTH % remaining
  }

  // The lines so far show the payload up to `ch`.
  ghost predicate Shown(lines: seq<Line>, payload: seq<byte>, ch: nat) {
    && ch <= |payload| && AllBytes(lines) == payload[..ch]
    && ch == Min(LINE_WIDTH * |lines|, |payload|)
    && (forall k :: 0 <= k < |lines| ==> Covers(lines[k], payload, k))
  }

  // The dump shows the whole payload, 16 bytes a line, each line at its offset.
  method PrintPayload(payload: seq<byte>) returns (lines: seq<Line>)
    ensures forall k :: 0 <= k < |lines| ==> Covers(lines[k], payload, k)
    ensures |lines| == (|payload| + 15) / 16
    ensures AllBytes(lines) == payload
  {
    lines := [];
    var remaining, ch, offset := |payload|, 0, 0;
    if |payload| == 0 { return; }
    assert Shown([], payload, 0);
    if |payload| <= LINE_WIDTH {
      lines := PrintLine(lines, payload, ch, remaining, offset);
      Complete(lines, payload);
      return;
    }
    while true
      invariant remaining > LINE_WIDTH && ch >= 0 && ch == offset == LINE_WIDTH * |lines|
      invariant ch + remaining == |payload| && Shown(lines, payload, ch)
      decreases remaining
    {
      var lineLen := LineLength(remaining);
      lines := PrintLine(lines, payload, ch, lineLen, offset);
      remaining := remaining - lineLen;
      ch := ch + lineLen;
      offset := offset + LINE_WIDTH;
      if remaining <= LINE_WIDTH {
        lines := PrintLine(lines, payload, ch, remaining, offset);
        Complete(lines, payload);
        return;
      }
    }
  }

  // One call of the line printer, appended to the output.
  method PrintLine(lines: seq<Line>, payload: seq<byte>, ch: nat, len: nat, offset: nat) returns (more: seq<Line>)
    requires Shown(lines, payload, ch) && ch == offset == LINE_WIDTH * |lines| < |payload|
    requires len == Min(LINE_WIDTH, |payload| - ch)
    ensures |more| == |lines| + 1 && Shown(more, payload, ch + len)
  {
    var line := PrintHexAsciiLine(payload[ch..ch + len], offset);
    more := lines + [line];
    ShownOneMore(lines, line, payload, ch, len);
  }

  lemma ShownOneMore(lines: seq<Line>, line: Line, payload: seq<byte>, ch: nat, len: nat)
    requires Shown(lines, payload, ch) && ch == LINE_WIDTH * |lines| && Covers(line, payload, |lines|)
    requires len == Min(LINE_WIDTH, |payload| - ch)
    ensures Shown(lines + [line], payload, ch + len)
  {
    var more := lines + [line];
    assert more[..|lines|] == lines;
    forall k | 0 <= k < |more| ensures Covers(more[k], payload, k) {
      if k < |lines| { assert more[k] == lines[k]; }
    }
    assert payload[..ch] + payload[ch..ch + len] == payload[..ch + len];
  }

  lemma Complete(lines: seq<Line>, payload: seq<byte>)
    requires lines != [] && Shown(lines, payload, |payload|)
    ensures AllBytes(lines) == payload
    ensures |lines| == (|payload| + 15) / 16
  {}
}
