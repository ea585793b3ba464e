// The header classes: their readers and printers, against the functions that say what they do.
module HeaderCodec {
  import opened HeaderText
  import opened Headers
  import opened Texts
  import opened Wrappers

  // ---------- the first line ----------

  function FirstTen(words: seq<string>): seq<string> {
    if |words| <= 10 then words else words[..10]
  }

  function PiecesFrom(line: string, start: nat): seq<string> {
    if start > |line| then [] else Pieces(line[start..])
  }

  // A space or the end of the line closes the piece that starts at start.
  lemma PieceCloses(line: string, start: nat, i: nat)
    requires start <= i <= |line| && Without(line[start..i], ' ') && (i < |line| ==> line[i] == ' ')
    ensures PiecesFrom(line, start) == (if i > start then [line[start..i]] else []) + PiecesFrom(line, i + 1)
  {
    var rest := line[start..];
    if i > start {
      assert rest[..i - start] == line[start..i];
      assert forall j :: 0 <= j < i - start ==> rest[j] == line[start..i][j];
      FindIs(rest, ' ', i - start);
      assert rest[i - start..] == line[i..];
    }
    if i < |line| {
      assert line[i..][1..] == line[i + 1..];
      assert Pieces(line[i..]) == Pieces(line[i + 1..]);
    } else {
      assert line[i..] == "" && Pieces("") == [];
    }
  }

  lemma FirstTenMore(words: seq<string>, w: string)
    ensures FirstTen(words + [w]) == if |FirstTen(words)| < 10 then FirstTen(words) + [w] else FirstTen(words)
  {
  }

  lemma OneCharMore(line: string, start: nat, i: nat)
    requires start <= i < |line| && Without(line[start..i], ' ')
    ensures line[i] != ' ' ==> Without(line[start..i + 1], ' ')
    ensures Without(line[i + 1..i + 1], ' ')
  {
    assert line[start..i + 1] == line[start..i] + [line[i]];
  }

  lemma Regroup(all: seq<string>, w: seq<string>, rest: seq<string>)
    ensures all + (w + rest) == (all + w) + rest
  {
  }

  // Cuts a line at its spaces; at most ten pieces are kept.
  method SplitWords(line: string) returns (parts: seq<string>)
    ensures parts == FirstTen(Pieces(line))
  {
    hide Pieces, Without, FirstTen;
    parts := [];
    var start := 0;
    ghost var all: seq<string> := [];
    StartSplit(line);
    for i := 0 to |line| + 1
      invariant start <= i && (i <= |line| || start == i)
      invariant i <= |line| ==> Without(line[start..i], ' ')
      invariant parts == FirstTen(all) && all + PiecesFrom(line, start) == Pieces(line)
    {
      if i < |line| {
        OneCharMore(line, start, i);
      }
      if i == |line| || line[i] == ' ' {
        PieceCloses(line, start, i);
        ghost var piece := if i > start then [line[start..i]] else [];
        Regroup(all, piece, PiecesFrom(line, i + 1));
        if i > start {
          FirstTenMore(all, line[start..i]);
          if |parts| < 10 {
            parts := parts + [line[start..i]];
          }
        } else {
          assert all + piece == all;
        }
        all := all + piece;
        start := i + 1;
      }
    }
    assert all + [] == all;
  }

  lemma StartSplit(line: string)
    ensures FirstTen([]) == [] && PiecesFrom(line, 0) == Pieces(line) && Without(line[0..0], ' ')
  {
    assert line[0..] == line;
  }

  // ---------- the lines below it ----------

  // One round of the reader.
  lemma ReadRound(name: string, data: string, pos: nat, now: int, count: nat, tail: Tail)
    requires pos <= |data|
    ensures var end := pos + FindBreak(data[pos..]);
            ReadLines(name, data[pos..], now, count, tail) ==
              if pos == |data| || count >= MAX_LINES || end == |data| || end - pos > MAX_LINE then None
              else if end == pos then (if end + 2 == |data| && tail.timestamp.Some? then Some(tail) else None)
              else
                var put := PutLine(name, data[pos..end], now, tail);
                if put.None? then None else ReadLines(name, data[end + 2..], now, count + 1, put.value)
  {
    hide ReadLines, PutLine, FindBreak;
    var rest := data[pos..];
    var end := FindBreak(rest);
    ReadOnce(name, rest, now, count, tail);
    if end < |rest| {
      SliceOfRest(data, pos, end);
    }
  }

  lemma ReadOnce(name: string, rest: string, now: int, count: nat, tail: Tail)
    ensures var end := FindBreak(rest);
            ReadLines(name, rest, now, count, tail) ==
              if rest == "" || count >= MAX_LINES || end == |rest| || end > MAX_LINE then None
              else if end == 0 then (if |rest| == 2 && tail.timestamp.Some? then Some(tail) else None)
              else
                var put := PutLine(name, rest[..end], now, tail);
                if put.None? then None else ReadLines(name, rest[end + 2..], now, count + 1, put.value)
  {
    hide PutLine, FindBreak;
  }

  lemma SliceOfRest(data: string, pos: nat, end: nat)
    requires pos + end + 2 <= |data|
    ensures data[pos..][..end] == data[pos..pos + end] && data[pos..][end + 2..] == data[pos + end + 2..]
  {
  }

  // Reads field lines from start on to the end of the text.
  method ReadFieldLines(name: string, data: string, start: nat, now: int) returns (tail: Option<Tail>)
    requires start <= |data|
    ensures tail == ReadLines(name, data[start..], now, 0, EMPTY_TAIL)
  {
    hide ReadLines, PutLine;
    var pos, count, sawTerminator, read := start, 0, false, EMPTY_TAIL;
    while pos < |data| && count < MAX_LINES
      invariant start <= pos <= |data| && !sawTerminator && 0 <= count <= MAX_LINES
      invariant ReadLines(name, data[pos..], now, count, read) == ReadLines(name, data[start..], now, 0, EMPTY_TAIL)
      decreases |data| - pos
    {
      ReadRound(name, data, pos, now, count, read);
      var end := pos + FindBreak(data[pos..]);
      if end == |data| {
        return None;
      }
      if end - pos > MAX_LINE {
        return None;
      }
      var line := data[pos..end];
      if line == "" {
        sawTerminator := true;
        pos := end + 2;
        break;
      }
      var put := PutLine(name, line, now, read);
      if put.None? {
        return None;
      }
      read := put.value;
      pos := end + 2;
      count := count + 1;
    }
    if !sawTerminator {
      ReadRound(name, data, pos, now, count, read);
    }
    if !sawTerminator || read.timestamp.None? || pos != |data| {
      return None;
    }
    tail := Some(read);
  }

  // ---------- sorted keys ----------

  // The order of std::string.
  predicate Before(a: string, b: string) {
    if b == "" then false
    else if a == "" then true
    else if a[0] != b[0] then a[0] < b[0]
    else Before(a[1..], b[1..])
  }

  // At the first place where the two differ, the smaller has the smaller character or ends.
  ghost predicate DifferAt(a: string, b: string, k: int) {
    0 <= k <= |a| && k < |b| && a[..k] == b[..k] && (k == |a| || a[k] < b[k])
  }

  lemma {:induction false} BeforeExact(a: string, b: string)
    ensures Before(a, b) <==> exists k :: DifferAt(a, b, k)
  {
    if b == "" || a == "" {
      assert b != "" ==> DifferAt(a, b, 0);
    } else if a[0] != b[0] {
      assert a[0] < b[0] ==> DifferAt(a, b, 0);
      assert forall k :: DifferAt(a, b, k) && k > 0 ==> a[..k][0] == b[..k][0];
    } else {
      BeforeExact(a[1..], b[1..]);
      forall k | 0 < k <= |a| && k <= |b|
        ensures a[..k] == b[..k] <==> a[1..][..k - 1] == b[1..][..k - 1]
      {
        assert a[..k] == [a[0]] + a[1..][..k - 1] && b[..k] == [b[0]] + b[1..][..k - 1];
      }
      assert forall k :: DifferAt(a[1..], b[1..], k) ==> DifferAt(a, b, k + 1);
      assert forall k :: DifferAt(a, b, k) ==> DifferAt(a[1..], b[1..], k - 1);
    }
  }

  lemma {:induction false} BeforeTotal(a: string, b: string)
    ensures Before(a, b) || Before(b, a) || a == b
    ensures !(Before(a, b) && Before(b, a))
  {
    if a != "" && b != "" && a[0] == b[0] {
      BeforeTotal(a[1..], b[1..]);
      assert a[1..] == b[1..] ==> a == [a[0]] + a[1..] == [b[0]] + b[1..] == b;
    }
  }

  lemma {:induction false} BeforeTransitive(a: string, b: string, c: string)
    requires Before(a, b) && Before(b, c)
    ensures Before(a, c)
  {
    if a != "" && a[0] == b[0] && b[0] == c[0] {
      BeforeTransitive(a[1..], b[1..], c[1..]);
    }
  }

  ghost predicate Ascending(keys: seq<string>) {
    forall i, j :: 0 <= i < j < |keys| ==> Before(keys[i], keys[j])
  }

  // The smallest of the keys.
  method Smallest(keys: set<string>) returns (least: string)
    requires keys != {}
    ensures least in keys && forall k :: k in keys && k != least ==> Before(least, k)
  {
    least :| least in keys;
    var rest := keys - {least};
    while rest != {}
      invariant least in keys && rest <= keys && least !in rest
      invariant forall k :: k in keys && k !in rest && k != least ==> Before(least, k)
      decreases |rest|
    {
      var k :| k in rest;
      rest := rest - {k};
      BeforeTotal(least, k);
      if Before(k, least) {
        forall o | o in keys && o !in rest && o != k
          ensures Before(k, o)
        {
          if o != least {
            BeforeTransitive(k, least, o);
          }
        }
        least := k;
      }
    }
  }

  // The keys of the fields, sorted.
  method SortedKeys(fields: Fields) returns (keys: seq<string>)
    ensures Lists(keys, fields) && Ascending(keys)
  {
    keys := [];
    var rest := fields.Keys;
    while rest != {}
      invariant rest <= fields.Keys && Ascending(keys)
      invariant forall k :: k in keys <==> k in fields && k !in rest
      invariant forall i, k :: 0 <= i < |keys| && k in rest ==> Before(keys[i], k)
      decreases |rest|
    {
      var least := Smallest(rest);
      keys := keys + [least];
      rest := rest - {least};
    }
    forall i, j | 0 <= i < j < |keys|
      ensures keys[i] != keys[j]
    {
      BeforeTotal(keys[i], keys[j]);
    }
  }

  // Appends the fields in the order of their keys.
  method AppendFields(text: string, keys: seq<string>, fields: Fields) returns (out: string)
    requires forall k :: k in keys ==> k in fields
    ensures out == text + LinesText(keys, fields)
  {
    out := text;
    for i := 0 to |keys|
      invariant out + LinesText(keys[i..], fields) == text + LinesText(keys, fields)
    {
      var line := Line(keys[i], fields[keys[i]]);
      assert keys[i..][1..] == keys[i + 1..] && keys[i..][0] == keys[i];
      assert (out + line) + LinesText(keys[i + 1..], fields) == out + (line + LinesText(keys[i + 1..], fields));
      out := out + line;
    }
    assert keys[|keys|..] == [];
  }

  lemma Regrouped(text: string, a: string, b: string, c: string, d: string)
    ensures text + (a + b + c + d) == (((text + a) + b) + c) + d && text + "" == text
  {
  }

  // The lines of a header below the first one.
  method AppendTail(text: string, name: string, special: string, timestamp: int, fields: Fields)
    returns (out: string, keys: seq<string>)
    ensures Lists(keys, fields) && Ascending(keys)
    ensures out == text + TailText(name, special, timestamp, keys, fields)
  {
    hide Line, LinesText, PrintInt;
    keys := SortedKeys(fields);
    out := text;
    if special != "" {
      out := out + Line(name, special);
    }
    Regrouped(text, if special == "" then "" else Line(name, special), Line(TIMESTAMP, PrintInt(timestamp)),
              LinesText(keys, fields), BREAK);
    out := out + Line(TIMESTAMP, PrintInt(timestamp));
    out := AppendFields(out, keys, fields);
    out := out + BREAK;
  }

  // ---------- the header classes ----------

  class RequestHeader {
    var httpMethod: string
    var target: string
    var version: nat
    var checksumType: nat
    var checksum: nat
    var contentLength: nat
    var agent: string
    var timestamp: int
    var fields: Fields

    ghost function Value(): Request
      reads this
    {
      Request(httpMethod, target, version, checksumType, checksum, contentLength, agent, timestamp, fields)
    }

    constructor (now: int)
      ensures Value() == Request("", "", 1, 0, 0, 0, "", now, map[])
    {
      httpMethod, target, version, checksumType, checksum, contentLength := "", "", 1, 0, 0, 0;
      agent, timestamp, fields := "", now, map[];
    }

    method ToString() returns (text: string)
      ensures exists keys :: Lists(keys, fields) && Ascending(keys) && text == RequestText(Value(), keys)
    {
      text := Join([httpMethod, target, Digits(version), Digits(checksumType), Digits(checksum),
        Digits(contentLength)]);
      text := text + BREAK;
      var keys;
      text, keys := AppendTail(text, AGENT, agent, timestamp, fields);
    }

    // All or nothing: the fields change only if the whole text is good.
    method FromString(data: string, now: int) returns (ok: bool)
      modifies this
      ensures ok <==> ReadRequest(data, now).Some?
      ensures Value() == if ok then ReadRequest(data, now).value else old(Value())
    {
      hide ReadLines, Pieces, ReadUnsigned;
      ok := false;
      if data == "" || |data| < 10 || |data| > MAX_MESSAGE {
        return;
      }
      var end := FindBreak(data);
      if end == |data| || end >= |data| - 1 {
        return;
      }
      var parts := SplitWords(data[..end]);
      if |parts| != 6 {
        return;
      }
      NoEmptyPieces(data[..end]);
      if parts[0] == "" || |parts[0]| > 10 || parts[1] == "" || |parts[1]| > 2048 {
        return;
      }
      var version', kind := ReadUnsigned(parts[2], UINT32), ReadUnsigned(parts[3], UINT8);
      var checksum', size := ReadUnsigned(parts[4], UINT32), ReadUnsigned(parts[5], UINT64);
      if version'.None? || kind.None? || checksum'.None? || size.None? {
        return;
      }
      if kind.value > LAST_CHECKSUM_TYPE {
        return;
      }
      var tail := ReadFieldLines(AGENT, data, end + 2, now);
      if tail.None? || tail.value.timestamp.None? {
        return;
      }
      fields, httpMethod, target, agent := tail.value.fields, parts[0], parts[1], OrEmpty(tail.value.special);
      version, checksum, contentLength := version'.value, checksum'.value, size.value;
      checksumType, timestamp := kind.value, tail.value.timestamp.value;
      ok := true;
    }
  }

  lemma NoEmptyPieces(line: string)
    ensures forall i :: 0 <= i < |Pieces(line)| ==> Pieces(line)[i] != ""
  {
    PiecesAreWords(line);
  }

  class ResponseHeader {
    var version: nat
    var status: nat
    var message: string
    var checksumType: nat
    var checksum: nat
    var contentLength: nat
    var server: string
    var timestamp: int
    var fields: Fields

    ghost function Value(): Response
      reads this
    {
      Response(version, status, message, checksumType, checksum, contentLength, server, timestamp, fields)
    }

    constructor (now: int)
      ensures Value() == Response(1, 200, "OK", 0, 0, 0, "", now, map[])
    {
      version, status, message, checksumType, checksum, contentLength := 1, 200, "OK", 0, 0, 0;
      server, timestamp, fields := "", now, map[];
    }

    method ToString() returns (text: string)
      ensures exists keys :: Lists(keys, fields) && Ascending(keys) && text == ResponseText(Value(), keys)
    {
      text := Join([Digits(version), Digits(status), message, Digits(checksumType), Digits(checksum),
        Digits(contentLength)]);
      text := text + BREAK;
      var keys;
      text, keys := AppendTail(text, SERVER, server, timestamp, fields);
    }

    // All or nothing: the fields change only if the whole text is good.
    method FromString(data: string, now: int) returns (ok: bool)
      modifies this
      ensures ok <==> ReadResponse(data, now).Some?
      ensures Value() == if ok then ReadResponse(data, now).value else old(Value())
    {
      hide ReadLines, Pieces, ReadUnsigned;
      ok := false;
      if data == "" || |data| < 10 || |data| > MAX_MESSAGE {
        return;
      }
      var end := FindBreak(data);
      if end == |data| || end >= |data| - 1 {
        return;
      }
      var parts := SplitWords(data[..end]);
      if |parts| != 6 {
        return;
      }
      NoEmptyPieces(data[..end]);
      var version', status' := ReadUnsigned(parts[0], UINT32), ReadUnsigned(parts[1], UINT16);
      if version'.None? || status'.None? {
        return;
      }
      if status'.value < 100 || status'.value > 599 {
        return;
      }
      if parts[2] == "" || |parts[2]| > 256 {
        return;
      }
      var kind, checksum' := ReadUnsigned(parts[3], UINT8), ReadUnsigned(parts[4], UINT32);
      var size := ReadUnsigned(parts[5], UINT64);
      if kind.None? || checksum'.None? || size.None? {
        return;
      }
      if kind.value > LAST_CHECKSUM_TYPE {
        return;
      }
      var tail := ReadFieldLines(SERVER, data, end + 2, now);
      if tail.None? || tail.value.timestamp.None? {
        return;
      }
      fields, message, server := tail.value.fields, parts[2], OrEmpty(tail.value.special);
      version, status, checksum, contentLength := version'.value, status'.value, checksum'.value, size.value;
      checksumType, timestamp := kind.value, tail.value.timestamp.value;
      ok := true;
    }
  }
}
