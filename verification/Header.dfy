// Request and response headers: printing, reading, and what survives a round trip.
module Headers {
  import opened HeaderText
  import opened Texts
  import opened Wrappers

  type Fields = map<string, string>

  // What the lines below the first one hold: the value of one special field, which the header
  // class names, the timestamp in milliseconds, and the other fields.
  datatype Tail = Tail(special: Option<string>, timestamp: Option<int>, fields: Fields)

  const EMPTY_TAIL := Tail(None, None, map[])

  const AGENT := "User-Agent"
  const SERVER := "Server"

  const UINT8 := 0x100
  const UINT16 := 0x1_0000
  const UINT32 := 0x1_0000_0000
  const UINT64 := 0x1_0000_0000_0000_0000
  const INT64 := 0x8000_0000_0000_0000

  // ---------- reading ----------

  // What one line adds, or None if it is refused.
  function PutLine(name: string, line: string, now: int, tail: Tail): Option<Tail> {
    var colon := Find(line, ':');
    if colon == |line| || colon == 0 || colon >= |line| - 1 then None
    else
      PutPair(name, Trim(line[..colon]), Trim(line[colon + 1..]), now, tail)
  }

  // What a key with its value adds.
  function PutPair(name: string, key: string, value: string, now: int, tail: Tail): Option<Tail> {
    if key == "" || |key| > 256 || |value| > MAX_LINE || !OneLine(key) || !Without(key, ':') || !OneLine(value)
      then None
    else if key == name then
      if tail.special.Some? || |value| > 512 then None else Some(tail.(special := Some(value)))
    else if key == TIMESTAMP then
      var read := ReadSigned(value);
      if tail.timestamp.Some? || read.None? || read.value < 0 || read.value > now + DAY_MS then None
      else Some(tail.(timestamp := read))
    else if |tail.fields| >= MAX_FIELDS then None
    else Some(tail.(fields := tail.fields[key := value]))
  }

  // All lines up to the empty one, which must end the text.
  function ReadLines(name: string, data: string, now: int, count: nat, tail: Tail): Option<Tail>
    decreases |data|
  {
    var end := FindBreak(data);
    if data == "" || count >= MAX_LINES || end == |data| || end > MAX_LINE then None
    else if end == 0 then
      if |data| == 2 && tail.timestamp.Some? then Some(tail) else None
    else
      match PutLine(name, data[..end], now, tail)
      case None => None
      case Some(next) => ReadLines(name, data[end + 2..], now, count + 1, next)
  }

  // ---------- printing ----------

  function Line(key: string, value: string): string {
    key + ": " + value + BREAK
  }

  function LinesText(keys: seq<string>, fields: Fields): string
    requires forall k :: k in keys ==> k in fields
  {
    if keys == [] then "" else Line(keys[0], fields[keys[0]]) + LinesText(keys[1..], fields)
  }

  function TailText(name: string, special: string, timestamp: int, keys: seq<string>, fields: Fields): string
    requires forall k :: k in keys ==> k in fields
  {
    (if special == "" then "" else Line(name, special))
    + Line(TIMESTAMP, PrintInt(timestamp)) + LinesText(keys, fields) + BREAK
  }

  // keys lists the names of the fields, each once.
  ghost predicate Lists(keys: seq<string>, fields: Fields) {
    && (forall k :: k in keys <==> k in fields)
    && (forall i, j :: 0 <= i < j < |keys| ==> keys[i] != keys[j])
  }

  // ---------- which fields a reader can give back ----------

  ghost predicate FieldOk(name: string, key: string, value: string) {
    && key != "" && key != name && key != TIMESTAMP && |key| <= 256
    && Trimmed(key) && OneLine(key) && Without(key, ':')
    && Trimmed(value) && OneLine(value)
  }

  ghost predicate FieldsOk(name: string, fields: Fields) {
    |fields| <= MAX_FIELDS && forall k :: k in fields ==> FieldOk(name, k, fields[k])
  }

  // Every field fits a line when it is printed.
  ghost predicate LinesFit(fields: Fields) {
    forall k :: k in fields ==> |k| + 2 + |fields[k]| <= MAX_LINE
  }

  ghost predicate SpecialOk(special: string) {
    Trimmed(special) && OneLine(special) && |special| <= 512
  }

  ghost predicate TimestampOk(timestamp: int, now: int) {
    0 <= timestamp <= now + DAY_MS && timestamp < INT64
  }

  ghost predicate NameOk(name: string) {
    name == AGENT || name == SERVER
  }

  lemma NameIsPlain(name: string)
    requires NameOk(name)
    ensures name != "" && |name| <= 10 && OneLine(name) && Without(name, ':') && Trimmed(name) && name != TIMESTAMP
  {
  }

  lemma SpecialIsPlain(special: string)
    requires SpecialOk(special)
    ensures OneLine(special) && |special| <= 512
  {
  }

  // ---------- reading back a printed line ----------

  lemma OneLineUnbroken(key: string, value: string)
    requires OneLine(key) && OneLine(value)
    ensures Unbroken(key + ": " + value) && OneLine(key + ": " + value)
  {
    var line := key + ": " + value;
    forall i | 0 <= i < |line|
      ensures !EndsLine(line[i])
    {
      if i < |key| {
        assert line[i] == key[i];
      } else if i >= |key| + 2 {
        assert line[i] == value[i - |key| - 2];
      }
    }
  }

  // A printed line comes apart into its key and its value again.
  lemma LineParts(key: string, value: string)
    requires Without(key, ':') && Trimmed(key) && Trimmed(value) && key != ""
    ensures var line := key + ": " + value;
            Find(line, ':') == |key| && Trim(line[..|key|]) == key && Trim(line[|key| + 1..]) == value
  {
    var line := key + ": " + value;
    assert forall j :: 0 <= j < |key| ==> line[j] == key[j];
    FindIs(line, ':', |key|);
    assert line[..|key|] == key;
    assert line[|key| + 1..] == " " + value;
    TrimTrimmed(key);
    TrimTrimmed(value);
  }

  // Reading goes past a printed line with what the line adds.
  lemma ReadPast(name: string, key: string, value: string, rest: string, now: int, count: nat, tail: Tail)
    requires key != "" && OneLine(key) && OneLine(value) && |key| + 2 + |value| <= MAX_LINE && count < MAX_LINES
    ensures var put := PutLine(name, key + ": " + value, now, tail);
            ReadLines(name, Line(key, value) + rest, now, count, tail) ==
              if put.None? then None else ReadLines(name, rest, now, count + 1, put.value)
  {
    var line := key + ": " + value;
    OneLineUnbroken(key, value);
    BreakAfter(line, rest);
    assert Line(key, value) + rest == line + BREAK + rest;
  }

  lemma PutField(name: string, key: string, value: string, now: int, tail: Tail)
    requires FieldOk(name, key, value) && |tail.fields| < MAX_FIELDS && |key| + 2 + |value| <= MAX_LINE
    ensures PutLine(name, key + ": " + value, now, tail) == Some(tail.(fields := tail.fields[key := value]))
  {
    LineParts(key, value);
  }

  lemma PutSpecial(name: string, value: string, now: int, tail: Tail)
    requires NameOk(name) && SpecialOk(value) && tail.special.None?
    ensures PutLine(name, name + ": " + value, now, tail) == Some(tail.(special := Some(value)))
  {
    NameIsPlain(name);
    hide NameOk;
    LineParts(name, value);
  }

  lemma PutTimestamp(name: string, timestamp: int, now: int, tail: Tail)
    requires NameOk(name) && TimestampOk(timestamp, now) && tail.timestamp.None?
    ensures PutLine(name, TIMESTAMP + ": " + PrintInt(timestamp), now, tail) ==
            Some(tail.(timestamp := Some(timestamp)))
  {
    hide OneLine, Without, Trimmed, Find, Trim, Digits, ReadSigned, NameOk;
    TimestampIsPlain();
    NameIsPlain(name);
    StampIsPlain(timestamp);
    LineParts(TIMESTAMP, PrintInt(timestamp));
  }

  lemma TimestampIsPlain()
    ensures TIMESTAMP != "" && |TIMESTAMP| <= 256 && OneLine(TIMESTAMP) && Without(TIMESTAMP, ':') && Trimmed(TIMESTAMP)
  {
  }

  lemma StampIsPlain(timestamp: int)
    requires 0 <= timestamp < INT64
    ensures var text := PrintInt(timestamp);
            OneLine(text) && Trimmed(text) && |text| <= 20 && ReadSigned(text) == Some(timestamp)
  {
    NumberRoundTrip(timestamp, UINT64);
  }

  ghost function Part(keys: seq<string>, fields: Fields): Fields
    requires forall k :: k in keys ==> k in fields
  {
    map k | k in keys :: fields[k]
  }

  lemma PartStep(keys: seq<string>, fields: Fields, before: Fields)
    requires keys != [] && (forall k :: k in keys ==> k in fields)
    ensures before[keys[0] := fields[keys[0]]] + Part(keys[1..], fields) == before + Part(keys, fields)
  {
    assert keys == [keys[0]] + keys[1..];
  }

  lemma LinesStep(keys: seq<string>, fields: Fields)
    requires keys != [] && forall k :: k in keys ==> k in fields
    ensures LinesText(keys, fields) + BREAK ==
            Line(keys[0], fields[keys[0]]) + (LinesText(keys[1..], fields) + BREAK)
  {
  }

  // These fields can be read next.
  ghost predicate ToRead(name: string, keys: seq<string>, fields: Fields, count: nat, tail: Tail) {
    && (forall k :: k in keys ==> k in fields && k !in tail.fields && FieldOk(name, k, fields[k]))
    && LinesFit(fields) && (forall i, j :: 0 <= i < j < |keys| ==> keys[i] != keys[j])
    && count + |keys| < MAX_LINES && |tail.fields| + |keys| <= MAX_FIELDS && tail.timestamp.Some?
  }

  lemma ReadField(name: string, keys: seq<string>, fields: Fields, now: int, count: nat, tail: Tail)
    requires ToRead(name, keys, fields, count, tail) && keys != []
    ensures keys[0] in fields && forall k :: k in keys[1..] ==> k in fields
    ensures var next := tail.(fields := tail.fields[keys[0] := fields[keys[0]]]);
            && ToRead(name, keys[1..], fields, count + 1, next)
            && ReadLines(
                 name, Line(keys[0], fields[keys[0]]) + (LinesText(keys[1..], fields) + BREAK), now, count, tail) ==
               ReadLines(name, LinesText(keys[1..], fields) + BREAK, now, count + 1, next)
  {
    var key := keys[0];
    assert key in keys && forall k :: k in keys[1..] ==> k in keys && k != key;
    assert FieldOk(name, key, fields[key]) && |key| + 2 + |fields[key]| <= MAX_LINE;
    ReadPast(name, key, fields[key], LinesText(keys[1..], fields) + BREAK, now, count, tail);
    PutField(name, key, fields[key], now, tail);
  }

  lemma {:induction false} ReadFields(name: string, keys: seq<string>, fields: Fields, now: int, count: nat, tail: Tail)
    requires ToRead(name, keys, fields, count, tail)
    ensures ReadLines(name, LinesText(keys, fields) + BREAK, now, count, tail) ==
            Some(tail.(fields := tail.fields + Part(keys, fields)))
    decreases |keys|
  {
    if keys == [] {
      assert LinesText(keys, fields) + BREAK == BREAK;
      assert FindBreak(BREAK) == 0;
      assert tail.fields + Part(keys, fields) == tail.fields;
    } else {
      LinesStep(keys, fields);
      PartStep(keys, fields, tail.fields);
      ReadField(name, keys, fields, now, count, tail);
      hide ReadLines, Line, LinesText, ToRead, Part;
      var next := tail.(fields := tail.fields[keys[0] := fields[keys[0]]]);
      ReadFields(name, keys[1..], fields, now, count + 1, next);
    }
  }

  lemma {:induction false} ListedCount(keys: seq<string>, fields: Fields)
    requires Lists(keys, fields)
    ensures |keys| == |fields|
    decreases |keys|
  {
    if keys == [] {
      assert fields == map[];
    } else {
      var key := keys[0];
      assert keys == [key] + keys[1..];
      ListedCount(keys[1..], fields - {key});
      assert fields.Keys == (fields - {key}).Keys + {key};
    }
  }

  lemma ReadSpecialLine(name: string, special: string, rest: string, now: int)
    requires NameOk(name) && SpecialOk(special)
    ensures ReadLines(name, Line(name, special) + rest, now, 0, EMPTY_TAIL) ==
            ReadLines(name, rest, now, 1, EMPTY_TAIL.(special := Some(special)))
  {
    hide ReadLines, PutLine, Line, NameOk, OneLine, Trimmed, Without, SpecialOk;
    NameIsPlain(name);
    SpecialIsPlain(special);
    PutSpecial(name, special, now, EMPTY_TAIL);
    ReadPast(name, name, special, rest, now, 0, EMPTY_TAIL);
  }

  lemma ReadTimestampLine(name: string, timestamp: int, rest: string, now: int, count: nat, tail: Tail)
    requires NameOk(name) && TimestampOk(timestamp, now)
    requires tail.timestamp.None? && count < MAX_LINES
    ensures ReadLines(name, Line(TIMESTAMP, PrintInt(timestamp)) + rest, now, count, tail) ==
            ReadLines(name, rest, now, count + 1, tail.(timestamp := Some(timestamp)))
  {
    hide ReadLines, PutLine, Line, PrintInt, OneLine, Without, Trimmed, NameOk;
    PutTimestamp(name, timestamp, now, tail);
    TimestampIsPlain();
    StampIsPlain(timestamp);
    ReadPast(name, TIMESTAMP, PrintInt(timestamp), rest, now, count, tail);
  }

  // A printed tail is read back whole, whatever order its fields were printed in.
  lemma ReadTail(name: string, special: string, timestamp: int, keys: seq<string>, fields: Fields, now: int)
    requires NameOk(name) && SpecialOk(special) && FieldsOk(name, fields) && LinesFit(fields) && Lists(keys, fields)
    requires TimestampOk(timestamp, now)
    ensures ReadLines(name, TailText(name, special, timestamp, keys, fields), now, 0, EMPTY_TAIL) ==
            Some(Tail(if special == "" then None else Some(special), Some(timestamp), fields))
  {
    hide ReadLines, PutLine, Line, LinesText, TailText, ToRead, Part, PrintInt, FieldsOk, LinesFit, Lists, SpecialOk,
      NameOk, TimestampOk;
    ListedAreFields(keys, fields);
    var rest := LinesText(keys, fields) + BREAK;
    var first := EMPTY_TAIL.(special := if special == "" then None else Some(special));
    var stamped := first.(timestamp := Some(timestamp));
    var count := if special == "" then 0 else 1;
    AllToRead(name, keys, fields, count + 1, stamped);
    TailParts(name, special, timestamp, keys, fields);
    if special != "" {
      ReadSpecialLine(name, special, Line(TIMESTAMP, PrintInt(timestamp)) + rest, now);
    }
    ReadTimestampLine(name, timestamp, rest, now, count, first);
    ReadFields(name, keys, fields, now, count + 1, stamped);
  }

  lemma ListedAreFields(keys: seq<string>, fields: Fields)
    requires Lists(keys, fields)
    ensures forall k :: k in keys ==> k in fields
  {
  }

  lemma AllToRead(name: string, keys: seq<string>, fields: Fields, count: nat, tail: Tail)
    requires FieldsOk(name, fields) && LinesFit(fields) && Lists(keys, fields)
    requires count <= 2 && tail.fields == map[] && tail.timestamp.Some?
    ensures ToRead(name, keys, fields, count, tail) && tail.fields + Part(keys, fields) == fields
  {
    hide Part, FieldOk, LinesFit;
    ListedCount(keys, fields);
    AllParts(keys, fields);
    assert tail.fields + fields == fields;
  }

  lemma AllParts(keys: seq<string>, fields: Fields)
    requires Lists(keys, fields)
    ensures (forall k :: k in keys ==> k in fields) && Part(keys, fields) == fields
  {
  }

  lemma TailParts(name: string, special: string, timestamp: int, keys: seq<string>, fields: Fields)
    requires forall k :: k in keys ==> k in fields
    ensures var rest := LinesText(keys, fields) + BREAK;
            var stamped := Line(TIMESTAMP, PrintInt(timestamp)) + rest;
            TailText(name, special, timestamp, keys, fields) ==
              if special == "" then stamped else Line(name, special) + stamped
  {
  }

  // ---------- a printed line that is too long ----------

  // Lines of single-line fields, each of which the reader sees as one line.
  ghost predicate Readable(keys: seq<string>, fields: Fields) {
    forall k :: k in keys ==> k in fields && k != "" && OneLine(k) && OneLine(fields[k])
  }

  // The reader refuses a line that is too long, or has given up before it.
  lemma LongLineStops(name: string, key: string, value: string, rest: string, now: int, count: nat, tail: Tail)
    requires OneLine(key) && OneLine(value) && |key| + 2 + |value| > MAX_LINE
    ensures ReadLines(name, Line(key, value) + rest, now, count, tail).None?
  {
    var line := key + ": " + value;
    OneLineUnbroken(key, value);
    BreakAfter(line, rest);
    assert Line(key, value) + rest == line + BREAK + rest;
  }

  // Reading goes past a line with whatever it adds, or fails; so it fails if all reading of the
  // rest does.
  lemma FailsFurtherOn(name: string, key: string, value: string, rest: string, now: int, count: nat, tail: Tail)
    requires key != "" && OneLine(key) && OneLine(value)
    requires forall n: nat, t {:trigger ReadLines(name, rest, now, n, t)} :: ReadLines(name, rest, now, n, t).None?
    ensures ReadLines(name, Line(key, value) + rest, now, count, tail).None?
  {
    if |key| + 2 + |value| > MAX_LINE {
      LongLineStops(name, key, value, rest, now, count, tail);
    } else if count >= MAX_LINES {
    } else {
      hide ReadLines, PutLine, Line;
      ReadPast(name, key, value, rest, now, count, tail);
    }
  }

  lemma {:induction false} LongFieldFails(name: string, keys: seq<string>, fields: Fields, at: nat, now: int,
                                          count: nat, tail: Tail)
    requires Readable(keys, fields) && at < |keys| && |keys[at]| + 2 + |fields[keys[at]]| > MAX_LINE
    ensures ReadLines(name, LinesText(keys, fields) + BREAK, now, count, tail).None?
    decreases |keys|
  {
    hide ReadLines, Line, LinesText, OneLine;
    assert keys[0] in keys && forall k :: k in keys[1..] ==> k in keys;
    LinesStep(keys, fields);
    var rest := LinesText(keys[1..], fields) + BREAK;
    if at == 0 {
      LongLineStops(name, keys[0], fields[keys[0]], rest, now, count, tail);
    } else {
      forall n: nat, t
        ensures ReadLines(name, rest, now, n, t).None?
      {
        LongFieldFails(name, keys[1..], fields, at - 1, now, n, t);
      }
      FailsFurtherOn(name, keys[0], fields[keys[0]], rest, now, count, tail);
    }
  }

  // A printed tail with a field that does not fit its line is not read.
  lemma LongTailFails(name: string, special: string, timestamp: int, keys: seq<string>, fields: Fields, now: int)
    requires NameOk(name) && SpecialOk(special) && TimestampOk(timestamp, now)
    requires FieldsOk(name, fields) && !LinesFit(fields) && Lists(keys, fields)
    ensures ReadLines(name, TailText(name, special, timestamp, keys, fields), now, 0, EMPTY_TAIL).None?
  {
    var long :| long in fields && |long| + 2 + |fields[long]| > MAX_LINE;
    var at :| 0 <= at < |keys| && keys[at] == long;
    LongFieldBehind(name, special, timestamp, keys, fields, at, now);
  }

  lemma LongFieldBehind(name: string, special: string, timestamp: int, keys: seq<string>, fields: Fields, at: nat,
                        now: int)
    requires NameOk(name) && SpecialOk(special) && TimestampOk(timestamp, now)
    requires FieldsOk(name, fields) && Lists(keys, fields)
    requires at < |keys| && keys[at] in fields && |keys[at]| + 2 + |fields[keys[at]]| > MAX_LINE
    ensures ReadLines(name, TailText(name, special, timestamp, keys, fields), now, 0, EMPTY_TAIL).None?
  {
    hide ReadLines, Line, LinesText, TailText, PrintInt, NameOk, SpecialOk, TimestampOk, OneLine, Readable, Lists,
      FieldsOk;
    ListedAreReadable(name, keys, fields);
    TailParts(name, special, timestamp, keys, fields);
    NameIsPlain(name);
    SpecialIsPlain(special);
    TimestampIsPlain();
    StampOfTail(timestamp, now);
    var rest := LinesText(keys, fields) + BREAK;
    var stamped := Line(TIMESTAMP, PrintInt(timestamp)) + rest;
    forall n: nat, t
      ensures ReadLines(name, rest, now, n, t).None?
    {
      LongFieldFails(name, keys, fields, at, now, n, t);
    }
    forall n: nat, t
      ensures ReadLines(name, stamped, now, n, t).None?
    {
      FailsFurtherOn(name, TIMESTAMP, PrintInt(timestamp), rest, now, n, t);
    }
    FailsFurtherOn(name, name, special, stamped, now, 0, EMPTY_TAIL);
  }

  lemma ListedAreReadable(name: string, keys: seq<string>, fields: Fields)
    requires FieldsOk(name, fields) && Lists(keys, fields)
    ensures Readable(keys, fields) && forall k :: k in keys ==> k in fields
  {
  }

  lemma StampOfTail(timestamp: int, now: int)
    requires TimestampOk(timestamp, now)
    ensures OneLine(PrintInt(timestamp))
  {
    StampIsPlain(timestamp);
  }

  // ---------- what a reader accepts ----------

  ghost predicate TailOk(name: string, tail: Tail, now: int) {
    && (tail.special.Some? ==> SpecialOk(tail.special.value))
    && (tail.timestamp.Some? ==> TimestampOk(tail.timestamp.value, now))
    && FieldsOk(name, tail.fields)
  }

  lemma PutLineOk(name: string, line: string, now: int, tail: Tail)
    requires TailOk(name, tail, now) && PutLine(name, line, now, tail).Some?
    ensures TailOk(name, PutLine(name, line, now, tail).value, now)
  {
  }

  // Whatever the text was, what is read keeps the limits.
  lemma {:induction false} ReadLinesOk(name: string, data: string, now: int, count: nat, tail: Tail)
    requires TailOk(name, tail, now) && ReadLines(name, data, now, count, tail).Some?
    ensures var read := ReadLines(name, data, now, count, tail).value;
            TailOk(name, read, now) && read.timestamp.Some?
    decreases |data|
  {
    hide PutLine, TailOk, FindBreak;
    var end := FindBreak(data);
    if end != 0 {
      PutLineOk(name, data[..end], now, tail);
      ReadLinesOk(name, data[end + 2..], now, count + 1, PutLine(name, data[..end], now, tail).value);
    }
  }

  // ---------- what a line adds ----------

  // Blanks around key and value do not matter.
  lemma BlanksDoNotMatter(name: string, p: string, key: string, q: string, a: string, value: string, b: string,
                          now: int, tail: Tail)
    requires AllBlank(p) && AllBlank(q) && AllBlank(a) && AllBlank(b) && a + value + b != ""
    requires key != "" && Trimmed(key) && Without(key, ':') && Trimmed(value)
    ensures PutLine(name, p + key + q + ":" + (a + value + b), now, tail) == PutPair(name, key, value, now, tail)
  {
    var front, back := p + key + q, a + value + b;
    var line := front + ":" + back;
    forall j | 0 <= j < |front|
      ensures line[j] != ':'
    {
      assert line[j] == if j < |p| then p[j] else if j < |p| + |key| then key[j - |p|] else q[j - |p| - |key|];
    }
    FindIs(line, ':', |front|);
    assert line[..|front|] == front && line[|front| + 1..] == back;
    TrimExact(p, key, q);
    TrimExact(a, value, b);
  }

  // A line without a key or without anything behind its colon is refused.
  lemma NoPairNoLine(name: string, line: string, p: string, rest: string, now: int, tail: Tail)
    requires AllBlank(p)
    ensures Without(line, ':') ==> PutLine(name, line, now, tail).None?
    ensures Without(line, ':') ==> PutLine(name, line + ":", now, tail).None?
    ensures PutLine(name, p + ":" + rest, now, tail).None?
  {
    if Without(line, ':') {
      FindIs(line, ':', |line|);
      FindIs(line + ":", ':', |line|);
    }
    var all := p + ":" + rest;
    assert forall j :: 0 <= j < |p| ==> all[j] == p[j];
    FindIs(all, ':', |p|);
    assert all[..|p|] == p + "" + "";
    TrimExact(p, "", "");
  }

  // A pair that can be read at all.
  ghost predicate PairOk(name: string, key: string, value: string) {
    && NameOk(name) && key != "" && |key| <= 256 && |value| <= 8192
    && OneLine(key) && Without(key, ':') && OneLine(value)
  }

  // The special field may come once, with at most 512 characters.
  lemma SpecialPair(name: string, value: string, now: int, tail: Tail)
    requires PairOk(name, name, value)
    ensures PutPair(name, name, value, now, tail) ==
            if tail.special.None? && |value| <= 512 then Some(tail.(special := Some(value))) else None
  {
  }

  // The timestamp may come once, at most a day ahead.
  lemma StampPair(name: string, value: string, now: int, tail: Tail, ms: int)
    requires PairOk(name, "Timestamp", value)
    ensures PutPair(name, "Timestamp", value, now, tail) == Some(tail.(timestamp := Some(ms))) <==>
            tail.timestamp.None? && ReadSigned(value) == Some(ms) && 0 <= ms <= now + 86400000
  {
    hide OneLine, Without, ReadSigned;
  }

  // Other fields may come again, and the last one counts; there is room for ninety.
  lemma FieldPair(name: string, key: string, value: string, now: int, tail: Tail)
    requires PairOk(name, key, value) && key != name && key != "Timestamp"
    ensures PutPair(name, key, value, now, tail) ==
            if |tail.fields| < 90 then Some(tail.(fields := tail.fields[key := value])) else None
  {
  }

  // All other pairs are refused.
  lemma OtherPair(name: string, key: string, value: string, now: int, tail: Tail)
    requires NameOk(name) && !PairOk(name, key, value)
    ensures PutPair(name, key, value, now, tail).None?
  {
  }

  // ---------- which texts are read ----------

  // What the lines add one after the other, from the first on.
  function PutAll(name: string, lines: seq<string>, now: int, tail: Tail): Option<Tail> {
    if lines == [] then Some(tail)
    else
      var next := PutLine(name, lines[0], now, tail);
      if next.None? then None else PutAll(name, lines[1..], now, next.value)
  }

  function Broken(lines: seq<string>): string {
    if lines == [] then "" else lines[0] + BREAK + Broken(lines[1..])
  }

  // Lines that the reader looks at one by one.
  ghost predicate Lines(lines: seq<string>) {
    forall i :: 0 <= i < |lines| ==> lines[i] != "" && Unbroken(lines[i]) && |lines[i]| <= 8192
  }

  lemma NoLineLeft(name: string, now: int, count: nat, tail: Tail)
    requires count < 100
    ensures ReadLines(name, BREAK, now, count, tail) == if tail.timestamp.None? then None else Some(tail)
  {
    assert FindBreak(BREAK) == 0;
  }

  lemma LineIsRead(name: string, line: string, rest: string, now: int, count: nat, tail: Tail)
    requires line != "" && Unbroken(line) && |line| <= 8192 && count < 100
    ensures var next := PutLine(name, line, now, tail);
            ReadLines(name, line + BREAK + rest, now, count, tail) ==
            if next.None? then None else ReadLines(name, rest, now, count + 1, next.value)
  {
    hide PutLine;
    BreakAfter(line, rest);
  }

  lemma {:induction false} LinesAreRead(name: string, lines: seq<string>, now: int, count: nat, tail: Tail)
    requires Lines(lines) && count + |lines| < 100
    ensures var read := PutAll(name, lines, now, tail);
            ReadLines(name, Broken(lines) + BREAK, now, count, tail) ==
            if read.None? || read.value.timestamp.None? then None else read
    decreases |lines|
  {
    hide PutLine, ReadLines, FindBreak, Unbroken;
    if lines == [] {
      assert Broken(lines) + BREAK == BREAK;
      NoLineLeft(name, now, count, tail);
    } else {
      var line, rest := lines[0], Broken(lines[1..]) + BREAK;
      assert Broken(lines) + BREAK == line + BREAK + rest;
      LineIsRead(name, line, rest, now, count, tail);
      var next := PutLine(name, line, now, tail);
      if next.Some? {
        LinesAreRead(name, lines[1..], now, count + 1, next.value);
      }
    }
  }

  lemma {:induction false} ReadAreLines(name: string, data: string, now: int, count: nat, tail: Tail)
    returns (lines: seq<string>)
    requires ReadLines(name, data, now, count, tail).Some?
    ensures Lines(lines) && count + |lines| < 100 && data == Broken(lines) + BREAK
    decreases |data|
  {
    hide PutLine, ReadLines, FindBreak, Unbroken;
    FirstLineRead(name, data, now, count, tail);
    var end := FindBreak(data);
    if end == 0 {
      assert Broken([]) + BREAK == BREAK;
      return [];
    }
    var next := PutLine(name, data[..end], now, tail);
    var rest := ReadAreLines(name, data[end + 2..], now, count + 1, next.value);
    lines := [data[..end]] + rest;
    assert lines[1..] == rest;
    Behead(data[..end], Broken(rest), data[end + 2..]);
  }

  lemma Behead(line: string, more: string, rest: string)
    requires rest == more + BREAK
    ensures line + BREAK + rest == line + BREAK + more + BREAK
  {
  }

  lemma FirstLineRead(name: string, data: string, now: int, count: nat, tail: Tail)
    requires ReadLines(name, data, now, count, tail).Some?
    ensures count < 100
    ensures var end := FindBreak(data);
            if end == 0 then data == BREAK
            else
              && end <= 8192 && end + 2 <= |data| && Unbroken(data[..end])
              && data == data[..end] + BREAK + data[end + 2..]
              && var next := PutLine(name, data[..end], now, tail);
                 && next.Some?
                 && ReadLines(name, data[end + 2..], now, count + 1, next.value) ==
                    ReadLines(name, data, now, count, tail)
  {
    hide PutLine;
    FirstBreak(data);
  }

  // A text below the first line is read exactly when it consists of fewer than a hundred lines, none
  // of them empty or longer than 8192 characters, and an empty one behind them; and then it is read
  // as what the lines add, which must include a timestamp.
  lemma ReadLinesExact(name: string, data: string, now: int, tail: Tail, read: Tail)
    ensures ReadLines(name, data, now, 0, tail) == Some(read) <==>
            read.timestamp.Some? &&
            exists lines ::
              && Lines(lines) && |lines| < 100 && data == Broken(lines) + BREAK
              && PutAll(name, lines, now, tail) == Some(read)
  {
    hide ReadLines, PutAll, Broken, Lines;
    if ReadLines(name, data, now, 0, tail).Some? {
      var lines := ReadAreLines(name, data, now, 0, tail);
      LinesAreRead(name, lines, now, 0, tail);
    }
    if lines :| Lines(lines) && |lines| < 100 && data == Broken(lines) + BREAK &&
                PutAll(name, lines, now, tail) == Some(read) {
      LinesAreRead(name, lines, now, 0, tail);
    }
  }

  // ---------- the size of a printed header ----------

  lemma {:induction false} LinesSize(keys: seq<string>, fields: Fields)
    requires LinesFit(fields) && forall k :: k in keys ==> k in fields
    ensures |LinesText(keys, fields)| <= |keys| * (MAX_LINE + 2)
  {
    if keys != [] {
      LinesSize(keys[1..], fields);
    }
  }

  lemma TailSize(name: string, special: string, timestamp: int, keys: seq<string>, fields: Fields, now: int)
    requires NameOk(name) && SpecialOk(special) && TimestampOk(timestamp, now)
    requires FieldsOk(name, fields) && LinesFit(fields) && Lists(keys, fields)
    ensures 10 <= |TailText(name, special, timestamp, keys, fields)| <= 1000 + 90 * (MAX_LINE + 2)
  {
    LinesSize(keys, fields);
    ListedCount(keys, fields);
    NumberRoundTrip(timestamp, UINT64);
  }

  // ---------- requests ----------

  datatype Request = Request(
    httpMethod: string, target: string, version: nat, checksumType: nat, checksum: nat, contentLength: nat,
    agent: string, timestamp: int, fields: Fields)

  function OrEmpty(s: Option<string>): string {
    if s.None? then "" else s.value
  }

  function ReadRequest(data: string, now: int): Option<Request> {
    var end := FindBreak(data);
    var parts := Pieces(data[..end]);
    if |data| < 10 || |data| > MAX_MESSAGE || end == |data| || |parts| != 6 then None
    else if |parts[0]| > 10 || |parts[1]| > 2048 then None
    else
      var version, kind := ReadUnsigned(parts[2], UINT32), ReadUnsigned(parts[3], UINT8);
      var checksum, size := ReadUnsigned(parts[4], UINT32), ReadUnsigned(parts[5], UINT64);
      if version.None? || kind.None? || checksum.None? || size.None? || kind.value > LAST_CHECKSUM_TYPE then None
      else
        var tail := ReadLines(AGENT, data[end + 2..], now, 0, EMPTY_TAIL);
        if tail.None? || tail.value.timestamp.None? then None
        else Some(Request(parts[0], parts[1], version.value, kind.value, checksum.value, size.value,
                          OrEmpty(tail.value.special), tail.value.timestamp.value, tail.value.fields))
  }

  function RequestWords(r: Request): seq<string> {
    [r.httpMethod, r.target, Digits(r.version), Digits(r.checksumType), Digits(r.checksum), Digits(r.contentLength)]
  }

  function RequestText(r: Request, keys: seq<string>): string
    requires forall k :: k in keys ==> k in r.fields
  {
    Join(RequestWords(r)) + BREAK + TailText(AGENT, r.agent, r.timestamp, keys, r.fields)
  }

  // The numbers of a header are of their types.
  ghost predicate RequestTyped(r: Request) {
    && r.version < UINT32 && r.checksumType <= LAST_CHECKSUM_TYPE && r.checksum < UINT32
    && r.contentLength < UINT64 && -INT64 <= r.timestamp < INT64
  }

  // What a reader can give back: no spaces where spaces separate, no blanks around a value, and
  // the reader's limits.
  ghost predicate RequestOk(r: Request, now: int) {
    && RequestTyped(r)
    && Word(r.httpMethod) && |r.httpMethod| <= 10 && Unbroken(r.httpMethod)
    && Word(r.target) && |r.target| <= 2048 && Unbroken(r.target)
    && SpecialOk(r.agent) && TimestampOk(r.timestamp, now) && FieldsOk(AGENT, r.fields)
  }

  // The numbers of a first line are words that read back.
  ghost predicate NumberWord(n: nat, limit: nat) {
    Word(Digits(n)) && Unbroken(Digits(n)) && |Digits(n)| <= 20 && ReadUnsigned(Digits(n), limit) == Some(n)
  }

  lemma NumberIsWord(n: nat, limit: nat)
    requires n < limit <= UINT64
    ensures NumberWord(n, limit)
  {
    NumberRoundTrip(n, limit);
  }

  lemma WordsComeApart(words: seq<string>, rest: string)
    requires forall i :: 0 <= i < |words| ==> Word(words[i]) && Unbroken(words[i])
    ensures var text := Join(words) + BREAK + rest;
            && FindBreak(text) == |Join(words)| < |text| && Pieces(text[..FindBreak(text)]) == words
            && text[FindBreak(text) + 2..] == rest
  {
    PiecesJoin(words);
    UnbrokenJoin(words);
    hide Join, Pieces;
    BreakAfter(Join(words), rest);
  }

  lemma SixWordsSize(words: seq<string>)
    requires |words| == 6
    ensures |Join(words)| == |words[0]| + |words[1]| + |words[2]| + |words[3]| + |words[4]| + |words[5]| + 5
  {
    SixWordsJoin(words);
  }

  lemma SixWordsJoin(words: seq<string>)
    requires |words| == 6
    ensures Join(words) ==
            words[0] + " " + (words[1] + " " + (words[2] + " " + (words[3] + " " + (words[4] + " " + words[5]))))
  {
    assert words[1..][1..] == words[2..] && words[2..][1..] == words[3..] && words[3..][1..] == words[4..];
    assert words[4..][1..] == words[5..];
    assert Join(words[5..]) == words[5];
    assert Join(words[4..]) == words[4] + " " + Join(words[5..]);
    assert Join(words[3..]) == words[3] + " " + Join(words[4..]);
    assert Join(words[2..]) == words[2] + " " + Join(words[3..]);
    assert Join(words[1..]) == words[1] + " " + Join(words[2..]);
  }

  // A request header that keeps the limits is read back whole from its text.
  lemma RequestRoundTrip(r: Request, keys: seq<string>, now: int)
    requires RequestOk(r, now) && LinesFit(r.fields) && Lists(keys, r.fields)
    ensures ReadRequest(RequestText(r, keys), now) == Some(r)
  {
    hide Join, Pieces, TailText, ReadLines, ReadUnsigned, Digits, FindBreak, Word, Unbroken, SpecialOk, TimestampOk,
      FieldsOk, LinesFit;
    var words, tail := RequestWords(r), TailText(AGENT, r.agent, r.timestamp, keys, r.fields);
    NumberIsWord(r.version, UINT32);
    NumberIsWord(r.checksumType, UINT8);
    NumberIsWord(r.checksum, UINT32);
    NumberIsWord(r.contentLength, UINT64);
    TailSize(AGENT, r.agent, r.timestamp, keys, r.fields, now);
    ReadTail(AGENT, r.agent, r.timestamp, keys, r.fields, now);
    SixWordsSize(words);
    WordsComeApart(words, tail);
  }

  // Whatever the text was, a header that is read keeps the limits.
  lemma RequestReadOk(data: string, now: int)
    requires ReadRequest(data, now).Some?
    ensures RequestOk(ReadRequest(data, now).value, now)
  {
    var end := FindBreak(data);
    PiecesAreWords(data[..end]);
    assert forall i :: BreakAt(data[..end], i) ==> BreakAt(data, i);
    ReadLinesOk(AGENT, data[end + 2..], now, 0, EMPTY_TAIL);
  }

  // What a first line with these six words and the lines below it say.
  ghost predicate SaysRequest(w: seq<string>, tail: Tail, r: Request) {
    && |w| == 6 && w[0] == r.httpMethod && |w[0]| <= 10 && w[1] == r.target && |w[1]| <= 2048
    && ReadUnsigned(w[2], 0x1_0000_0000) == Some(r.version) && ReadUnsigned(w[3], 0x100) == Some(r.checksumType)
    && r.checksumType <= 3 && ReadUnsigned(w[4], 0x1_0000_0000) == Some(r.checksum)
    && ReadUnsigned(w[5], 0x1_0000_0000_0000_0000) == Some(r.contentLength)
    && (if tail.special.None? then r.agent == "" else Some(r.agent) == tail.special)
    && Some(r.timestamp) == tail.timestamp && r.fields == tail.fields
  }

  // A text is read as a request header exactly when it says it.
  lemma ReadRequestExact(data: string, now: int, r: Request)
    ensures ReadRequest(data, now) == Some(r) <==>
            && 10 <= |data| <= 1048576
            && exists line, rest, tail ::
                 && Unbroken(line) && data == line + BREAK + rest && SaysRequest(Pieces(line), tail, r)
                 && ReadLines(AGENT, rest, now, 0, EMPTY_TAIL) == Some(tail)
  {
    hide ReadLines, Pieces, ReadUnsigned, Unbroken, FindBreak;
    FirstBreak(data);
    var end := FindBreak(data);
    if ReadRequest(data, now) == Some(r) {
      var tail := ReadLines(AGENT, data[end + 2..], now, 0, EMPTY_TAIL).value;
      assert SaysRequest(Pieces(data[..end]), tail, r);
    }
    forall line, rest, tail |
      Unbroken(line) && data == line + BREAK + rest && SaysRequest(Pieces(line), tail, r)
      && ReadLines(AGENT, rest, now, 0, EMPTY_TAIL) == Some(tail) && 10 <= |data| <= 1048576
      ensures ReadRequest(data, now) == Some(r)
    {
      BreakAfter(line, rest);
    }
  }

  // A request header that keeps the limits but has a field too long for its line is refused.
  lemma RequestTooLong(r: Request, keys: seq<string>, now: int)
    requires RequestOk(r, now) && !LinesFit(r.fields) && Lists(keys, r.fields)
    ensures ReadRequest(RequestText(r, keys), now).None?
  {
    hide Join, Pieces, TailText, ReadLines, ReadUnsigned, Digits, FindBreak, Word, Unbroken, SpecialOk, TimestampOk,
      FieldsOk, LinesFit;
    var words, tail := RequestWords(r), TailText(AGENT, r.agent, r.timestamp, keys, r.fields);
    NumberIsWord(r.version, UINT32);
    NumberIsWord(r.checksumType, UINT8);
    NumberIsWord(r.checksum, UINT32);
    NumberIsWord(r.contentLength, UINT64);
    LongTailFails(AGENT, r.agent, r.timestamp, keys, r.fields, now);
    WordsComeApart(words, tail);
  }

  // A request header survives printing and reading exactly when it keeps the limits and each of
  // its fields fits a line.
  lemma RequestSurvives(r: Request, keys: seq<string>, now: int)
    requires RequestTyped(r) && Lists(keys, r.fields)
    ensures ReadRequest(RequestText(r, keys), now) == Some(r) <==> RequestOk(r, now) && LinesFit(r.fields)
  {
    if RequestOk(r, now) {
      if LinesFit(r.fields) {
        RequestRoundTrip(r, keys, now);
      } else {
        RequestTooLong(r, keys, now);
      }
    }
    if ReadRequest(RequestText(r, keys), now) == Some(r) {
      RequestReadOk(RequestText(r, keys), now);
    }
  }

  // Such a header: a setter takes any length of value, and this one fits in no line.
  lemma LongFieldIsNotReadBack(now: int)
    requires now >= 0
    ensures var value := seq(8190, _ => 'x');
            var r := Request("GET", "/", 1, 0, 0, 0, "", 0, map["a" := value]);
            && RequestOk(r, now) && Lists(["a"], r.fields) && ReadRequest(RequestText(r, ["a"]), now).None?
  {
    var value := seq(8190, _ => 'x');
    var r := Request("GET", "/", 1, 0, 0, 0, "", 0, map["a" := value]);
    assert "a" in r.fields && |"a"| + 2 + |r.fields["a"]| > MAX_LINE;
    RequestTooLong(r, ["a"], now);
  }

  // The printed form, on an example.
  lemma RequestExample()
    ensures RequestText(Request("GET", "/a", 1, 2, 34, 567, "me", 89, map["k" := "v"]), ["k"]) ==
            "GET /a 1 2 34 567" + "\r\n" + ("User-Agent: me\r\n" + "Timestamp: 89\r\n" + "k: v\r\n" + "\r\n")
  {
    hide Digits, TailText, Join;
    SmallDigits();
    var r := Request("GET", "/a", 1, 2, 34, 567, "me", 89, map["k" := "v"]);
    WordsExample("GET", "/a", "1", "2", "34", "567");
    assert "GET" + " " + "/a" + " " + "1" + " " + "2" + " " + "34" + " " + "567" == "GET /a 1 2 34 567";
    assert AGENT + ": " + "me" + "\r\n" == "User-Agent: me\r\n";
    TailExample(AGENT, "me", r.fields);
    assert RequestWords(r) == ["GET", "/a", "1", "2", "34", "567"];
  }

  lemma WordsExample(a: string, b: string, c: string, d: string, e: string, f: string)
    ensures Join([a, b, c, d, e, f]) == a + " " + b + " " + c + " " + d + " " + e + " " + f
  {
    hide Join;
    SixWordsJoin([a, b, c, d, e, f]);
  }

  lemma SmallDigits()
    ensures Digits(1) == "1" && Digits(2) == "2" && Digits(34) == "34" && Digits(567) == "567" && Digits(89) == "89"
    ensures Digits(200) == "200"
  {
    assert Digits(3) == "3" && Digits(5) == "5" && Digits(56) == "56" && Digits(8) == "8" && Digits(20) == "20";
  }

  lemma TailExample(name: string, special: string, fields: Fields)
    requires special != "" && fields == map["k" := "v"]
    ensures TailText(name, special, 89, ["k"], fields) ==
            (name + ": " + special + "\r\n") + "Timestamp: 89\r\n" + "k: v\r\n" + "\r\n"
  {
    hide Digits;
    SmallDigits();
    assert LinesText(["k"][1..], fields) == "";
    assert LinesText(["k"], fields) == "k: v\r\n" + "";
    assert Line(TIMESTAMP, "89") == "Timestamp: 89\r\n";
  }

  // ---------- responses ----------

  datatype Response = Response(
    version: nat, status: nat, message: string, checksumType: nat, checksum: nat, contentLength: nat,
    server: string, timestamp: int, fields: Fields)

  function ReadResponse(data: string, now: int): Option<Response> {
    var end := FindBreak(data);
    var parts := Pieces(data[..end]);
    if |data| < 10 || |data| > MAX_MESSAGE || end == |data| || |parts| != 6 then None
    else
      var version, status := ReadUnsigned(parts[0], UINT32), ReadUnsigned(parts[1], UINT16);
      if version.None? || status.None? || status.value < 100 || status.value > 599 || |parts[2]| > 256 then None
      else
        var kind, checksum := ReadUnsigned(parts[3], UINT8), ReadUnsigned(parts[4], UINT32);
        var size := ReadUnsigned(parts[5], UINT64);
        if kind.None? || checksum.None? || size.None? || kind.value > LAST_CHECKSUM_TYPE then None
        else
          var tail := ReadLines(SERVER, data[end + 2..], now, 0, EMPTY_TAIL);
          if tail.None? || tail.value.timestamp.None? then None
          else Some(Response(version.value, status.value, parts[2], kind.value, checksum.value, size.value,
                             OrEmpty(tail.value.special), tail.value.timestamp.value, tail.value.fields))
  }

  function ResponseWords(r: Response): seq<string> {
    [Digits(r.version), Digits(r.status), r.message, Digits(r.checksumType), Digits(r.checksum),
      Digits(r.contentLength)]
  }

  function ResponseText(r: Response, keys: seq<string>): string
    requires forall k :: k in keys ==> k in r.fields
  {
    Join(ResponseWords(r)) + BREAK + TailText(SERVER, r.server, r.timestamp, keys, r.fields)
  }

  ghost predicate ResponseTyped(r: Response) {
    && r.version < UINT32 && r.status < UINT16 && r.checksumType <= LAST_CHECKSUM_TYPE && r.checksum < UINT32
    && r.contentLength < UINT64 && -INT64 <= r.timestamp < INT64
  }

  ghost predicate ResponseOk(r: Response, now: int) {
    && ResponseTyped(r) && 100 <= r.status <= 599
    && Word(r.message) && |r.message| <= 256 && Unbroken(r.message)
    && SpecialOk(r.server) && TimestampOk(r.timestamp, now) && FieldsOk(SERVER, r.fields)
  }

  // A response header that keeps the limits is read back whole from its text.
  lemma ResponseRoundTrip(r: Response, keys: seq<string>, now: int)
    requires ResponseOk(r, now) && LinesFit(r.fields) && Lists(keys, r.fields)
    ensures ReadResponse(ResponseText(r, keys), now) == Some(r)
  {
    hide Join, Pieces, TailText, ReadLines, ReadUnsigned, Digits, FindBreak, Word, Unbroken, SpecialOk, TimestampOk,
      FieldsOk, LinesFit;
    var words, tail := ResponseWords(r), TailText(SERVER, r.server, r.timestamp, keys, r.fields);
    NumberIsWord(r.version, UINT32);
    NumberIsWord(r.status, UINT16);
    NumberIsWord(r.checksumType, UINT8);
    NumberIsWord(r.checksum, UINT32);
    NumberIsWord(r.contentLength, UINT64);
    TailSize(SERVER, r.server, r.timestamp, keys, r.fields, now);
    ReadTail(SERVER, r.server, r.timestamp, keys, r.fields, now);
    SixWordsSize(words);
    WordsComeApart(words, tail);
  }

  // Whatever the text was, a header that is read keeps the limits.
  lemma ResponseReadOk(data: string, now: int)
    requires ReadResponse(data, now).Some?
    ensures ResponseOk(ReadResponse(data, now).value, now)
  {
    var end := FindBreak(data);
    PiecesAreWords(data[..end]);
    assert forall i :: BreakAt(data[..end], i) ==> BreakAt(data, i);
    ReadLinesOk(SERVER, data[end + 2..], now, 0, EMPTY_TAIL);
  }

  // What a first line with these six words and the lines below it say.
  ghost predicate SaysResponse(w: seq<string>, tail: Tail, r: Response) {
    && |w| == 6 && ReadUnsigned(w[0], 0x1_0000_0000) == Some(r.version)
    && ReadUnsigned(w[1], 0x1_0000) == Some(r.status) && 100 <= r.status <= 599 && w[2] == r.message && |w[2]| <= 256
    && ReadUnsigned(w[3], 0x100) == Some(r.checksumType) && r.checksumType <= 3
    && ReadUnsigned(w[4], 0x1_0000_0000) == Some(r.checksum)
    && ReadUnsigned(w[5], 0x1_0000_0000_0000_0000) == Some(r.contentLength)
    && (if tail.special.None? then r.server == "" else Some(r.server) == tail.special)
    && Some(r.timestamp) == tail.timestamp && r.fields == tail.fields
  }

  // A text is read as a response header exactly when it says it.
  lemma ReadResponseExact(data: string, now: int, r: Response)
    ensures ReadResponse(data, now) == Some(r) <==>
            && 10 <= |data| <= 1048576
            && exists line, rest, tail ::
                 && Unbroken(line) && data == line + BREAK + rest && SaysResponse(Pieces(line), tail, r)
                 && ReadLines(SERVER, rest, now, 0, EMPTY_TAIL) == Some(tail)
  {
    hide ReadLines, Pieces, ReadUnsigned, Unbroken, FindBreak;
    FirstBreak(data);
    var end := FindBreak(data);
    if ReadResponse(data, now) == Some(r) {
      var tail := ReadLines(SERVER, data[end + 2..], now, 0, EMPTY_TAIL).value;
      assert SaysResponse(Pieces(data[..end]), tail, r);
    }
    forall line, rest, tail |
      Unbroken(line) && data == line + BREAK + rest && SaysResponse(Pieces(line), tail, r)
      && ReadLines(SERVER, rest, now, 0, EMPTY_TAIL) == Some(tail) && 10 <= |data| <= 1048576
      ensures ReadResponse(data, now) == Some(r)
    {
      BreakAfter(line, rest);
    }
  }

  // A response header that keeps the limits but has a field too long for its line is refused.
  lemma ResponseTooLong(r: Response, keys: seq<string>, now: int)
    requires ResponseOk(r, now) && !LinesFit(r.fields) && Lists(keys, r.fields)
    ensures ReadResponse(ResponseText(r, keys), now).None?
  {
    hide Join, Pieces, TailText, ReadLines, ReadUnsigned, Digits, FindBreak, Word, Unbroken, SpecialOk, TimestampOk,
      FieldsOk, LinesFit;
    var words, tail := ResponseWords(r), TailText(SERVER, r.server, r.timestamp, keys, r.fields);
    NumberIsWord(r.version, UINT32);
    NumberIsWord(r.status, UINT16);
    NumberIsWord(r.checksumType, UINT8);
    NumberIsWord(r.checksum, UINT32);
    NumberIsWord(r.contentLength, UINT64);
    LongTailFails(SERVER, r.server, r.timestamp, keys, r.fields, now);
    WordsComeApart(words, tail);
  }

  // A response header survives printing and reading exactly when it keeps the limits and each of
  // its fields fits a line.
  lemma ResponseSurvives(r: Response, keys: seq<string>, now: int)
    requires ResponseTyped(r) && Lists(keys, r.fields)
    ensures ReadResponse(ResponseText(r, keys), now) == Some(r) <==> ResponseOk(r, now) && LinesFit(r.fields)
  {
    if ResponseOk(r, now) {
      if LinesFit(r.fields) {
        ResponseRoundTrip(r, keys, now);
      } else {
        ResponseTooLong(r, keys, now);
      }
    }
    if ReadResponse(ResponseText(r, keys), now) == Some(r) {
      ResponseReadOk(ResponseText(r, keys), now);
    }
  }

  // A status message with a space in it is not even read: the 404 response that the library itself
  // makes, whose message is "not found", is such a one.
  lemma NotFoundIsNotReadBack(r: Response, keys: seq<string>, now: int)
    requires ResponseTyped(r) && r.message == "not found" && forall k :: k in keys ==> k in r.fields
    ensures ReadResponse(ResponseText(r, keys), now).None?
  {
    hide Join, Pieces, TailText, ReadLines, ReadUnsigned, Digits, FindBreak, Word, Unbroken;
    var words := NotFoundWords(r);
    NotFoundIsSevenWords(r);
    WordsComeApart(words, TailText(SERVER, r.server, r.timestamp, keys, r.fields));
  }

  function NotFoundWords(r: Response): seq<string> {
    [Digits(r.version), Digits(r.status), "not", "found", Digits(r.checksumType), Digits(r.checksum),
      Digits(r.contentLength)]
  }

  lemma NotFoundIsSevenWords(r: Response)
    requires ResponseTyped(r) && r.message == "not found"
    ensures var words := NotFoundWords(r);
            && Join(ResponseWords(r)) == Join(words)
            && forall i :: 0 <= i < |words| ==> Word(words[i]) && Unbroken(words[i])
  {
    hide Join, Digits;
    var words := NotFoundWords(r);
    NumberIsWord(r.version, UINT32);
    NumberIsWord(r.status, UINT16);
    NumberIsWord(r.checksumType, UINT8);
    NumberIsWord(r.checksum, UINT32);
    NumberIsWord(r.contentLength, UINT64);
    SpacedWordIsTwo(words[0], words[1], "not", "found", words[4..]);
    assert "not" + " " + "found" == "not found";
    assert [words[0], words[1], "not found"] + words[4..] == ResponseWords(r);
    assert [words[0], words[1], "not", "found"] + words[4..] == words;
  }

  // A word with a space inside looks like two words.
  lemma SpacedWordIsTwo(a: string, b: string, x: string, y: string, rest: seq<string>)
    requires rest != []
    ensures Join([a, b, x + " " + y] + rest) == Join([a, b, x, y] + rest)
  {
    var one, two := [a, b, x + " " + y] + rest, [a, b, x, y] + rest;
    assert one[1..] == [b, x + " " + y] + rest && one[1..][1..] == [x + " " + y] + rest && one[1..][1..][1..] == rest;
    assert two[1..] == [b, x, y] + rest && two[1..][1..] == [x, y] + rest && two[1..][1..][1..] == [y] + rest;
    assert ([y] + rest)[1..] == rest;
    assert Join([x, y] + rest) == x + " " + (y + " " + Join(rest));
    assert Join([x + " " + y] + rest) == (x + " " + y) + " " + Join(rest);
  }

  // The printed form, on an example.
  lemma ResponseExample()
    ensures ResponseText(Response(1, 200, "OK", 2, 34, 567, "us", 89, map["k" := "v"]), ["k"]) ==
            "1 200 OK 2 34 567" + "\r\n" + ("Server: us\r\n" + "Timestamp: 89\r\n" + "k: v\r\n" + "\r\n")
  {
    hide Digits, TailText, Join;
    SmallDigits();
    var r := Response(1, 200, "OK", 2, 34, 567, "us", 89, map["k" := "v"]);
    WordsExample("1", "200", "OK", "2", "34", "567");
    assert "1" + " " + "200" + " " + "OK" + " " + "2" + " " + "34" + " " + "567" == "1 200 OK 2 34 567";
    assert SERVER + ": " + "us" + "\r\n" == "Server: us\r\n";
    TailExample(SERVER, "us", r.fields);
    assert ResponseWords(r) == ["1", "200", "OK", "2", "34", "567"];
  }
}
