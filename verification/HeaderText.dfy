// The text of a protocol header: what the reader makes of it, function by function, and what the
// printer writes.
module HeaderText {
  import opened Texts
  import opened Wrappers

  const MAX_MESSAGE := 1024 * 1024
  const MAX_LINE := 8192
  const MAX_LINES := 100
  const MAX_FIELDS := 90 // room for the special ones is kept free
  const DAY_MS := 86400000
  const LAST_CHECKSUM_TYPE := 3 // Crc32, Md5, Sha256, Custom
  const BREAK := "\r\n"
  const TIMESTAMP := "Timestamp"

  // ---------- characters ----------

  predicate Blank(c: char) {
    c == ' ' || c == '\t'
  }

  predicate EndsLine(c: char) {
    c == '\r' || c == '\n'
  }

  lemma CharactersAre(c: char)
    ensures (Blank(c) <==> c in " \t") && (EndsLine(c) <==> c in "\r\n")
  {
    assert " \t"[0] == ' ' && " \t"[1] == '\t' && "\r\n"[0] == '\r' && "\r\n"[1] == '\n';
  }

  predicate Without(s: string, c: char) {
    forall i :: 0 <= i < |s| ==> s[i] != c
  }

  predicate OneLine(s: string) {
    forall i :: 0 <= i < |s| ==> !EndsLine(s[i])
  }

  predicate BreakAt(s: string, i: int) {
    0 <= i && i + 1 < |s| && s[i] == '\r' && s[i + 1] == '\n'
  }

  ghost predicate Unbroken(s: string) {
    forall i :: !BreakAt(s, i)
  }

  // The place of the first line break, or |s|.
  function FindBreak(s: string): (k: nat)
    ensures k <= |s| && (k < |s| ==> BreakAt(s, k)) && forall j :: 0 <= j < k ==> !BreakAt(s, j)
  {
    if s == "" || BreakAt(s, 0) then 0
    else
      assert forall j :: 0 < j ==> (BreakAt(s, j) <==> BreakAt(s[1..], j - 1));
      1 + FindBreak(s[1..])
  }

  lemma BreakAfter(line: string, rest: string)
    requires Unbroken(line)
    ensures FindBreak(line + BREAK + rest) == |line|
    ensures (line + BREAK + rest)[..|line|] == line && (line + BREAK + rest)[|line| + 2..] == rest
  {
    var s := line + BREAK + rest;
    assert BreakAt(s, |line|);
    forall j | 0 <= j < |line|
      ensures !BreakAt(s, j)
    {
      assert !BreakAt(line, j);
    }
  }

  lemma CutAtBreak(s: string, end: nat)
    requires BreakAt(s, end)
    ensures s == s[..end] + BREAK + s[end + 2..]
  {
  }

  // The first line of a text, and what is below it.
  lemma FirstBreak(s: string)
    ensures var end := FindBreak(s);
            end < |s| ==> end + 2 <= |s| && Unbroken(s[..end]) && s == s[..end] + BREAK + s[end + 2..]
  {
    hide FindBreak;
    var end := FindBreak(s);
    if end < |s| {
      CutAtBreak(s, end);
      forall i
        ensures !BreakAt(s[..end], i)
      {
        assert BreakAt(s[..end], i) ==> BreakAt(s, i);
      }
    }
  }

  // ---------- blanks around a text ----------

  predicate Trimmed(s: string) {
    s == "" || (!Blank(s[0]) && !Blank(s[|s| - 1]))
  }

  function Trim(s: string): (t: string)
    ensures Trimmed(t) && |t| <= |s| && forall c :: c in t ==> c in s
    decreases |s|
  {
    if s == "" then ""
    else if Blank(s[0]) then Trim(s[1..])
    else if Blank(s[|s| - 1]) then Trim(s[..|s| - 1])
    else s
  }

  lemma TrimTrimmed(s: string)
    requires Trimmed(s)
    ensures Trim(s) == s && Trim(" " + s) == s
  {
    assert (" " + s)[1..] == s;
  }

  predicate AllBlank(s: string) {
    forall i :: 0 <= i < |s| ==> Blank(s[i])
  }

  // Blanks around a text are cut off, and nothing else is.
  lemma {:induction false} TrimExact(a: string, t: string, b: string)
    requires AllBlank(a) && Trimmed(t) && AllBlank(b)
    ensures Trim(a + t + b) == t
    decreases |a| + |b|
  {
    var s := a + t + b;
    if a != "" {
      assert s[1..] == a[1..] + t + b;
      TrimExact(a[1..], t, b);
    } else if b != "" {
      var less := b[..|b| - 1];
      assert s[..|s| - 1] == a + t + less && (t != "" ==> s[0] == t[0]);
      if t == "" {
        assert s[1..] == a + t + b[1..];
        TrimExact(a, t, b[1..]);
      } else {
        TrimExact(a, t, less);
      }
    } else {
      assert s == t;
    }
  }

  // ---------- words ----------

  // The nonempty pieces between the spaces of a line.
  function Pieces(line: string): seq<string>
    decreases |line|
  {
    if line == "" then []
    else if line[0] == ' ' then Pieces(line[1..])
    else
      var k := Find(line, ' ');
      [line[..k]] + Pieces(line[k..])
  }

  predicate Word(w: string) {
    w != "" && Without(w, ' ')
  }

  lemma {:induction false} PiecesAreWords(line: string)
    ensures forall i :: 0 <= i < |Pieces(line)| ==> Word(Pieces(line)[i])
    ensures Unbroken(line) ==> forall i :: 0 <= i < |Pieces(line)| ==> Unbroken(Pieces(line)[i])
    decreases |line|
  {
    if line != "" {
      if line[0] == ' ' {
        PiecesAreWords(line[1..]);
        assert forall i :: BreakAt(line[1..], i) ==> BreakAt(line, i + 1);
      } else {
        var k := Find(line, ' ');
        PiecesAreWords(line[k..]);
        assert forall i :: BreakAt(line[k..], i) ==> BreakAt(line, i + k);
        assert forall i :: BreakAt(line[..k], i) ==> BreakAt(line, i);
      }
    }
  }

  function Join(words: seq<string>): string {
    if words == [] then ""
    else if |words| == 1 then words[0]
    else words[0] + " " + Join(words[1..])
  }

  lemma FirstPiece(w: string, rest: string)
    requires Word(w)
    ensures Pieces(w) == [w] && Pieces(w + " " + rest) == [w] + Pieces(rest)
  {
    FindIs(w, ' ', |w|);
    assert w[..|w|] == w && w[|w|..] == "";
    var s := w + " " + rest;
    FindIs(s, ' ', |w|);
    assert s[..|w|] == w && s[|w|..] == " " + rest;
    assert (" " + rest)[1..] == rest;
  }

  lemma {:induction false} PiecesJoin(words: seq<string>)
    requires forall i :: 0 <= i < |words| ==> Word(words[i])
    ensures Pieces(Join(words)) == words
  {
    if words != [] {
      hide Pieces, Word;
      FirstPiece(words[0], if |words| == 1 then "" else Join(words[1..]));
      if |words| == 1 {
        assert words == [words[0]];
      } else {
        PiecesJoin(words[1..]);
        assert words == [words[0]] + words[1..];
      }
    } else {
      assert Pieces("") == [];
    }
  }

  // A space only ever separates: the pieces of two texts with a space between are those of both.
  lemma {:induction false} PiecesApart(a: string, b: string)
    ensures Pieces("") == [] && Pieces(a + " " + b) == Pieces(a) + Pieces(b)
    decreases |a|
  {
    var s := a + " " + b;
    if a == "" {
      assert s[1..] == b;
    } else if a[0] == ' ' {
      PiecesApart(a[1..], b);
      assert s[1..] == a[1..] + " " + b;
    } else {
      var k := Find(a, ' ');
      assert forall j :: 0 <= j < k ==> s[j] == a[j];
      FindIs(s, ' ', k);
      PiecesApart(a[k..], b);
      assert s[..k] == a[..k] && s[k..] == a[k..] + " " + b;
    }
  }

  lemma UnbrokenSum(a: string, b: string)
    requires Unbroken(a) && Unbroken(b) && (b != "" ==> b[0] != '\n')
    ensures Unbroken(a + b)
  {
    forall i
      ensures !BreakAt(a + b, i)
    {
      assert BreakAt(a + b, i) ==> BreakAt(a, i) || (i >= |a| && BreakAt(b, i - |a|));
    }
  }

  lemma {:induction false} UnbrokenJoin(words: seq<string>)
    requires forall i :: 0 <= i < |words| ==> Unbroken(words[i])
    ensures Unbroken(Join(words))
  {
    if |words| > 1 {
      UnbrokenJoin(words[1..]);
      var rest := " " + Join(words[1..]);
      assert forall i :: BreakAt(rest, i) ==> BreakAt(Join(words[1..]), i - 1);
      UnbrokenSum(words[0], rest);
      assert Join(words) == words[0] + rest;
    }
  }

  // ---------- numbers ----------

  function Decimal(s: string): nat
    requires forall i :: 0 <= i < |s| ==> Digit(s[i])
  {
    if s == "" then 0
    else
      assert Digit(s[|s| - 1]);
      Decimal(s[..|s| - 1]) * 10 + (s[|s| - 1] - '0') as nat
  }

  function Digits(n: nat): (s: string)
    ensures s != "" && forall i :: 0 <= i < |s| ==> Digit(s[i])
  {
    if n < 10 then ['0' + n as char] else Digits(n / 10) + ['0' + (n % 10) as char]
  }

  function PrintInt(i: int): string {
    if i < 0 then "-" + Digits(-i) else Digits(i)
  }

  // SafeParse for an unsigned type that holds the numbers below limit.
  function ReadUnsigned(s: string, limit: nat): Option<nat> {
    if s == "" || |s| > 20 || !(forall i :: 0 <= i < |s| ==> Digit(s[i])) || Decimal(s) >= limit then None
    else Some(Decimal(s))
  }

  // SafeParse for std::int64_t.
  function ReadSigned(s: string): Option<int> {
    if s == "" || |s| > 20 then None
    else
      var minus := s[0] == '-';
      var limit := if minus then 0x8000_0000_0000_0001 else 0x8000_0000_0000_0000;
      var read := ReadUnsigned(if minus then s[1..] else s, limit);
      if read.None? then None else Some(if minus then 0 - read.value else read.value as int)
  }

  lemma {:induction false} DecimalDigits(n: nat)
    ensures Decimal(Digits(n)) == n
  {
    if n >= 10 {
      DecimalDigits(n / 10);
      assert Digits(n)[..|Digits(n)| - 1] == Digits(n / 10);
    } else {
      assert Digits(n)[..0] == "";
    }
  }

  function Pow10(k: nat): nat {
    if k == 0 then 1 else 10 * Pow10(k - 1)
  }

  lemma {:induction false} DigitsLength(n: nat, k: nat)
    requires k > 0 && n < Pow10(k)
    ensures |Digits(n)| <= k
  {
    if n >= 10 {
      if k > 1 {
        DigitsLength(n / 10, k - 1);
      }
    }
  }

  lemma TwentyDigits()
    ensures Pow10(20) > 0xFFFF_FFFF_FFFF_FFFF
  {
    assert Pow10(4) == 10000;
    assert Pow10(8) == 1_0000_0000;
    assert Pow10(12) == 1_0000_0000_0000;
    assert Pow10(16) == 1_0000_0000_0000_0000;
    assert Pow10(20) == 1_0000_0000_0000_0000_0000;
  }

  lemma NumberRoundTrip(n: nat, limit: nat)
    requires n < limit <= 0x1_0000_0000_0000_0000
    ensures ReadUnsigned(Digits(n), limit) == Some(n) && |Digits(n)| <= 20
    ensures n < 0x8000_0000_0000_0000 ==> ReadSigned(Digits(n)) == Some(n)
    ensures Word(Digits(n)) && OneLine(Digits(n)) && Unbroken(Digits(n)) && Trimmed(Digits(n))
  {
    hide Digits, Word, OneLine, Unbroken, Trimmed;
    TwentyDigits();
    DigitsLength(n, 20);
    DecimalDigits(n);
    DigitsAreWord(Digits(n));
  }

  lemma DigitsAreWord(s: string)
    requires s != "" && forall i :: 0 <= i < |s| ==> Digit(s[i])
    ensures Word(s) && OneLine(s) && Unbroken(s) && Trimmed(s)
  {
    assert Digit(s[0]) && Digit(s[|s| - 1]);
  }

  // ---------- which texts are numbers ----------

  function Zeros(k: nat): string {
    seq(k, _ => '0')
  }

  lemma {:induction false} DecimalOfZeros(k: nat, n: nat)
    ensures forall i :: 0 <= i < |Zeros(k) + Digits(n)| ==> Digit((Zeros(k) + Digits(n))[i])
    ensures Decimal(Zeros(k) + Digits(n)) == n
    decreases n, k
  {
    var s := Zeros(k) + Digits(n);
    var last := |s| - 1;
    if n >= 10 {
      DecimalOfZeros(k, n / 10);
      assert s[..last] == Zeros(k) + Digits(n / 10);
    } else if k > 0 {
      DecimalOfZeros(k - 1, 0);
      assert s[..last] == Zeros(k - 1) + Digits(0);
    } else {
      assert s[..last] == "";
    }
  }

  // A text of digits is the number it stands for, with any number of zeros in front.
  lemma {:induction false} DigitsAreNumber(s: string) returns (k: nat)
    requires s != "" && forall i :: 0 <= i < |s| ==> Digit(s[i])
    ensures s == Zeros(k) + Digits(Decimal(s))
    decreases |s|
  {
    var last := |s| - 1;
    var c, front, n := s[last], s[..last], Decimal(s);
    assert s == front + [c];
    if front == "" {
      return 0;
    }
    k := DigitsAreNumber(front);
    assert n / 10 == Decimal(front) && n % 10 == (c - '0') as int;
    if n < 10 {
      assert Digits(0) == "0" && Zeros(k + 1) == Zeros(k) + "0";
      assert Digits(n) == [c];
      k := k + 1;
    } else {
      assert Digits(n) == Digits(n / 10) + [c];
    }
  }

  // The texts that are read as an unsigned number: its digits, with zeros in front or not, in at
  // most twenty characters.
  lemma ReadUnsignedExact(s: string, limit: nat, n: nat)
    ensures ReadUnsigned(s, limit) == Some(n) <==>
            n < limit && |s| <= 20 && exists k: nat :: s == Zeros(k) + Digits(n)
  {
    hide Decimal, Digits;
    if ReadUnsigned(s, limit) == Some(n) {
      var k := DigitsAreNumber(s);
    }
    if k: nat :| s == Zeros(k) + Digits(n) {
      DecimalOfZeros(k, n);
    }
  }

  // The same with a minus sign for the negative ones.
  lemma ReadSignedExact(s: string, i: int)
    ensures ReadSigned(s) == Some(i) <==>
            && -0x8000_0000_0000_0000 <= i < 0x8000_0000_0000_0000 && |s| <= 20
            && exists k: nat :: (i >= 0 && s == Zeros(k) + Digits(i)) || (i <= 0 && s == "-" + (Zeros(k) + Digits(-i)))
  {
    hide Decimal, Digits, ReadUnsigned;
    if s != "" && s[0] == '-' {
      var rest := s[1..];
      assert s == "-" + rest;
      if i <= 0 {
        ReadUnsignedExact(rest, 0x8000_0000_0000_0001, -i);
      }
      NoMinusInNumber(s);
    } else if i >= 0 {
      ReadUnsignedExact(s, 0x8000_0000_0000_0000, i);
    }
  }

  lemma NoMinusInNumber(s: string)
    requires s != "" && s[0] == '-'
    ensures forall k: nat, n: nat :: s != Zeros(k) + Digits(n)
  {
    forall k: nat, n: nat
      ensures s != Zeros(k) + Digits(n)
    {
      DecimalOfZeros(k, n);
      assert Digit((Zeros(k) + Digits(n))[0]);
    }
  }

  // Numbers are printed in tens, the highest digit first.
  lemma DigitsExample()
    ensures Digits(9876543210) == "9876543210" && PrintInt(-15) == "-15"
  {
    assert Digits(98) == "98" && Digits(987) == "987" && Digits(9876) == "9876" && Digits(98765) == "98765";
    assert Digits(987654) == "987654" && Digits(9876543) == "9876543" && Digits(98765432) == "98765432";
    assert Digits(987654321) == "987654321";
  }
}
