// Route patterns: what a pattern text means, and what it means for a path to match a pattern.
module Patterns {
  import opened Texts
  import opened Wrappers

  // How a parameter captures text.
  datatype Kind = NoKind | IntKind | StringKind | PathKind

  // A pattern is a sequence of literal characters and parameters.
  datatype Token = Lit(c: char) | Param(kind: Kind, name: string)
  type Pattern = seq<Token>

  function Lits(text: string): (ts: Pattern)
    ensures |ts| == |text| && forall i :: 0 <= i < |ts| ==> ts[i] == Lit(text[i])
  {
    seq(|text|, i requires 0 <= i < |text| => Lit(text[i]))
  }

  ghost function Names(ts: Pattern): set<string> {
    set i | 0 <= i < |ts| && ts[i].Param? :: ts[i].name
  }

  ghost predicate DistinctNames(ts: Pattern) {
    forall i, j :: 0 <= i < j < |ts| && ts[i].Param? && ts[j].Param? ==> ts[i].name != ts[j].name
  }

  lemma DistinctTail(ts: Pattern)
    requires DistinctNames(ts) && ts != []
    ensures DistinctNames(ts[1..])
    ensures Names(ts) == Names(ts[1..]) + (if ts[0].Param? then {ts[0].name} else {})
    ensures ts[0].Param? ==> ts[0].name !in Names(ts[1..])
  {
    forall x | x in Names(ts)
      ensures x in Names(ts[1..]) + (if ts[0].Param? then {ts[0].name} else {})
    {
      var i :| 0 <= i < |ts| && ts[i].Param? && ts[i].name == x;
      if i > 0 {
        assert ts[1..][i - 1] == ts[i];
      }
    }
  }

  // ---------- matching ----------

  predicate Takes(kind: Kind, c: char) {
    match kind
    case NoKind => false
    case IntKind => Digit(c)
    case StringKind => c != '/'
    case PathKind => true
  }

  // How far a parameter of this kind reaches into s.
  function Span(kind: Kind, s: string): (k: nat)
    ensures k <= |s| && (forall j :: 0 <= j < k ==> Takes(kind, s[j]))
    ensures k < |s| ==> !Takes(kind, s[k])
  {
    if s == "" || !Takes(kind, s[0]) then 0 else 1 + Span(kind, s[1..])
  }

  // Matches a whole path against a pattern, each parameter taking as much as it can and never
  // nothing; the captured texts when they match.
  function Fit(ts: Pattern, s: string): Option<map<string, string>>
    decreases |ts|
  {
    if ts == [] then
      if s == "" then Some(map[]) else None
    else match ts[0]
      case Lit(c) =>
        if s != "" && s[0] == c then Fit(ts[1..], s[1..]) else None
      case Param(kind, name) =>
        var k := Span(kind, s);
        if k == 0 then None
        else match Fit(ts[1..], s[k..])
          case None => None
          case Some(captures) => Some(captures[name := s[..k]])
  }

  // The text a pattern stands for once its parameters are known.
  ghost function Fill(ts: Pattern, captures: map<string, string>): string
    requires Names(ts) <= captures.Keys && DistinctNames(ts)
    decreases |ts|
  {
    if ts == [] then ""
    else
      DistinctTail(ts);
      (match ts[0]
       case Lit(c) => [c]
       case Param(_, name) => captures[name]) + Fill(ts[1..], captures)
  }

  // Every capture is a nonempty text of its parameter's kind that could not have been longer.
  ghost predicate Greedy(ts: Pattern, captures: map<string, string>)
    requires Names(ts) <= captures.Keys && DistinctNames(ts)
    decreases |ts|
  {
    ts == [] ||
    (DistinctTail(ts);
     && Greedy(ts[1..], captures)
     && (ts[0].Param? ==>
           var text := captures[ts[0].name];
           var rest := Fill(ts[1..], captures);
           && text != "" && (forall j :: 0 <= j < |text| ==> Takes(ts[0].kind, text[j]))
           && (rest == "" || !Takes(ts[0].kind, rest[0]))))
  }

  // Captures of other names do not matter.
  lemma {:induction false} FillDepends(ts: Pattern, a: map<string, string>, b: map<string, string>)
    requires DistinctNames(ts) && Names(ts) <= a.Keys && Names(ts) <= b.Keys
    requires forall x :: x in Names(ts) ==> a[x] == b[x]
    ensures Fill(ts, a) == Fill(ts, b) && Greedy(ts, a) == Greedy(ts, b)
    decreases |ts|
  {
    if ts != [] {
      DistinctTail(ts);
      FillDepends(ts[1..], a, b);
    }
  }

  lemma SpanIs(kind: Kind, text: string, rest: string)
    requires forall j :: 0 <= j < |text| ==> Takes(kind, text[j])
    requires rest == "" || !Takes(kind, rest[0])
    ensures Span(kind, text + rest) == |text|
  {
    var s := text + rest;
    assert forall j :: 0 <= j < |text| ==> s[j] == text[j];
    assert rest != "" ==> s[|text|] == rest[0];
  }

  // A path matches with these captures exactly when they are captures for this pattern's
  // parameters, filling them in gives back the path, and each was greedy.
  lemma {:induction false} FitExact(ts: Pattern, s: string, captures: map<string, string>)
    requires DistinctNames(ts)
    ensures Fit(ts, s) == Some(captures) <==>
              captures.Keys == Names(ts) && Fill(ts, captures) == s && Greedy(ts, captures)
    decreases |ts|
  {
    if ts == [] {
      assert captures.Keys == {} ==> captures == map[];
    } else {
      DistinctTail(ts);
      match ts[0]
      case Lit(c) => FitExactLit(ts, s, captures);
      case Param(kind, name) => FitExactParam(ts, s, captures);
    }
  }

  lemma {:induction false} FitExactLit(ts: Pattern, s: string, captures: map<string, string>)
    requires DistinctNames(ts) && ts != [] && ts[0].Lit?
    ensures Fit(ts, s) == Some(captures) <==>
              captures.Keys == Names(ts) && Fill(ts, captures) == s && Greedy(ts, captures)
    decreases |ts|, 0
  {
    DistinctTail(ts);
    if s != "" && s[0] == ts[0].c {
      FitExact(ts[1..], s[1..], captures);
      assert s == [s[0]] + s[1..];
    }
  }

  lemma FitExactParam(ts: Pattern, s: string, captures: map<string, string>)
    requires DistinctNames(ts) && ts != [] && ts[0].Param?
    ensures Fit(ts, s) == Some(captures) <==>
              captures.Keys == Names(ts) && Fill(ts, captures) == s && Greedy(ts, captures)
    decreases |ts|, 2
  {
    DistinctTail(ts);
    if Fit(ts, s).Some? {
      FitIsGreedy(ts, s);
    }
    if captures.Keys == Names(ts) && Fill(ts, captures) == s && Greedy(ts, captures) {
      GreedyIsFit(ts, captures);
    }
  }

  lemma FitIsGreedy(ts: Pattern, s: string)
    requires DistinctNames(ts) && ts != [] && ts[0].Param? && Fit(ts, s).Some?
    ensures var got := Fit(ts, s).value;
            got.Keys == Names(ts) && Fill(ts, got) == s && Greedy(ts, got)
    decreases |ts|, 0
  {
    DistinctTail(ts);
    var kind, name := ts[0].kind, ts[0].name;
    var k := Span(kind, s);
    var inner := Fit(ts[1..], s[k..]).value;
    var got := inner[name := s[..k]];
    FitExact(ts[1..], s[k..], inner);
    FillDepends(ts[1..], inner, got);
    assert s == s[..k] + s[k..];
  }

  lemma GreedyIsFit(ts: Pattern, captures: map<string, string>)
    requires DistinctNames(ts) && ts != [] && ts[0].Param?
    requires captures.Keys == Names(ts) && Greedy(ts, captures)
    ensures Fit(ts, Fill(ts, captures)) == Some(captures)
    decreases |ts|, 1
  {
    DistinctTail(ts);
    var kind, name := ts[0].kind, ts[0].name;
    var text, rest := captures[name], Fill(ts[1..], captures);
    var s := text + rest;
    SpanIs(kind, text, rest);
    assert s[..|text|] == text && s[|text|..] == rest;
    var inner := captures - {name};
    FillDepends(ts[1..], captures, inner);
    FitExact(ts[1..], rest, inner);
    assert captures == inner[name := text];
  }

  lemma {:induction false} FitLits(text: string, ts: Pattern, s: string)
    ensures Fit(Lits(text) + ts, s) == if text <= s then Fit(ts, s[|text|..]) else None
    decreases |text|
  {
    var all := Lits(text) + ts;
    if text == "" {
      assert all == ts && s[0..] == s;
    } else {
      assert all[1..] == Lits(text[1..]) + ts;
      if s != "" && s[0] == text[0] {
        FitLits(text[1..], ts, s[1..]);
        assert text <= s <==> text[1..] <= s[1..] by {
          if text[1..] <= s[1..] {
            assert s == [s[0]] + s[1..] && text == [text[0]] + text[1..];
          }
        }
        if text <= s {
          assert s[1..][|text| - 1..] == s[|text|..];
        }
      }
    }
  }

  ghost predicate PartAt(a: Pattern, b: Pattern, k: int) {
    0 <= k < |a| && k < |b| && a[..k] == b[..k] && a[k] != b[k]
  }

  // Two patterns that fit the same path part at a place where one of them has a parameter.
  lemma {:induction false} FittingPatternsPart(a: Pattern, b: Pattern, s: string) returns (k: int)
    requires Fit(a, s).Some? && Fit(b, s).Some? && a != b
    ensures PartAt(a, b, k) && (a[k].Param? || b[k].Param?)
    decreases |a|
  {
    if a == [] || b == [] {
      assert false;
    } else if a[0] == b[0] {
      var rest := if a[0].Lit? then s[1..] else s[Span(a[0].kind, s)..];
      assert a == [a[0]] + a[1..] && b == [b[0]] + b[1..];
      k := FittingPatternsPart(a[1..], b[1..], rest);
      assert a[..k + 1] == [a[0]] + a[1..][..k] && b[..k + 1] == [b[0]] + b[1..][..k];
      k := k + 1;
    } else {
      k := 0;
    }
  }

  // ---------- pattern texts ----------

  datatype Rejection =
    | Frozen | NotAbsolute | NoHandler
    | StrayTerminator | Unterminated | BadSpecification | PathNotTerminal | BadName | DuplicateName
    | ConflictingTypes | ConflictingNames

  function KindOf(text: string): Kind {
    if text == "int" then IntKind
    else if text == "string" then StringKind
    else if text == "path" then PathKind
    else NoKind
  }

  function KindText(kind: Kind): string {
    match kind
    case IntKind => "int"
    case StringKind => "string"
    case PathKind => "path"
    case NoKind => ""
  }

  // The kind and the name in the text between the angle brackets.
  function ReadSpec(spec: string): (Kind, string) {
    var colon := Find(spec, ':');
    if colon == |spec| then (StringKind, spec) else (KindOf(spec[..colon]), spec[colon + 1..])
  }

  predicate NameChar(c: char) {
    Digit(c) || 'a' <= c <= 'z' || 'A' <= c <= 'Z' || c == '_'
  }

  predicate NameOk(name: string) {
    forall i :: 0 <= i < |name| ==> NameChar(name[i])
  }

  // What is wrong with a parameter, if anything.
  function Fault(kind: Kind, name: string, terminal: bool, seen: set<string>): Option<Rejection> {
    if kind.NoKind? || name == "" then Some(BadSpecification)
    else if kind.PathKind? && !terminal then Some(PathNotTerminal)
    else if !NameOk(name) then Some(BadName)
    else if name in seen then Some(DuplicateName)
    else None
  }

  // The pattern a text stands for, or why it is none; seen are the names of earlier parameters.
  function Parse(s: string, seen: set<string>): Result<Pattern, Rejection>
    decreases |s|
  {
    if s == "" then Ok([])
    else if s[0] == '>' then Err(StrayTerminator)
    else if s[0] != '<' then Prepend(Lit(s[0]), Parse(s[1..], seen))
    else
      var end := Find(s, '>');
      if end == |s| then Err(Unterminated)
      else
        var (kind, name) := ReadSpec(s[1..end]);
        var fault := Fault(kind, name, end + 1 == |s|, seen);
        if fault.Some? then Err(fault.value)
        else Prepend(Param(kind, name), Parse(s[end + 1..], seen + {name}))
  }

  function Prepend(t: Token, r: Result<Pattern, Rejection>): Result<Pattern, Rejection> {
    match r
    case Ok(ts) => Ok([t] + ts)
    case Err(e) => Err(e)
  }

  // The patterns that can be written down.
  ghost predicate WellFormed(ts: Pattern) {
    && DistinctNames(ts)
    && (forall i :: 0 <= i < |ts| && ts[i].Lit? ==> ts[i].c != '<' && ts[i].c != '>')
    && (forall i :: 0 <= i < |ts| && ts[i].Param? ==>
          && !ts[i].kind.NoKind? && ts[i].name != "" && NameOk(ts[i].name)
          && (ts[i].kind.PathKind? ==> i == |ts| - 1))
  }

  function Print(ts: Pattern): string {
    if ts == [] then ""
    else
      (match ts[0]
       case Lit(c) => [c]
       case Param(kind, name) => "<" + KindText(kind) + ":" + name + ">") + Print(ts[1..])
  }

  lemma WellFormedTail(ts: Pattern)
    requires WellFormed(ts) && ts != []
    ensures WellFormed(ts[1..])
  {
    DistinctTail(ts);
  }

  lemma WellFormedCons(t: Token, ts: Pattern)
    requires WellFormed(ts)
    requires t.Lit? ==> t.c != '<' && t.c != '>'
    requires t.Param? ==> !t.kind.NoKind? && t.name != "" && NameOk(t.name)
    requires t.Param? ==> t.name !in Names(ts) && (t.kind.PathKind? ==> ts == [])
    ensures WellFormed([t] + ts)
    ensures Names([t] + ts) == Names(ts) + (if t.Param? then {t.name} else {})
  {
    var all := [t] + ts;
    assert all[1..] == ts;
    forall i, j | 0 <= i < j < |all| && all[i].Param? && all[j].Param?
      ensures all[i].name != all[j].name
    {
      assert all[j] == ts[j - 1];
      if i == 0 {
        assert ts[j - 1].name in Names(ts);
      }
    }
    DistinctTail(all);
  }

  // A text that parses gives a well-formed pattern with fresh names.
  lemma {:induction false} ParseIsWellFormed(s: string, seen: set<string>)
    requires Parse(s, seen).Ok?
    ensures WellFormed(Parse(s, seen).value) && Names(Parse(s, seen).value) !! seen
    decreases |s|
  {
    if s != "" {
      if s[0] != '<' {
        ParseIsWellFormed(s[1..], seen);
        WellFormedCons(Lit(s[0]), Parse(s[1..], seen).value);
      } else {
        var end := Find(s, '>');
        var (kind, name) := ReadSpec(s[1..end]);
        ParseIsWellFormed(s[end + 1..], seen + {name});
        WellFormedCons(Param(kind, name), Parse(s[end + 1..], seen + {name}).value);
      }
    }
  }

  // Every well-formed pattern can be written down: printing it and parsing the text gives it back.
  lemma {:induction false} ParsePrint(ts: Pattern, seen: set<string>)
    requires WellFormed(ts) && Names(ts) !! seen
    ensures Parse(Print(ts), seen) == Ok(ts)
    decreases |ts|
  {
    if ts != [] {
      DistinctTail(ts);
      WellFormedTail(ts);
      if ts[0].Lit? {
        ParsePrint(ts[1..], seen);
        assert Print(ts)[1..] == Print(ts[1..]);
      } else {
        ParsePrint(ts[1..], seen + {ts[0].name});
        ParseParameter(ts[0].kind, ts[0].name, Print(ts[1..]), seen);
      }
      assert ts == [ts[0]] + ts[1..];
    }
  }

  lemma ParseParameter(kind: Kind, name: string, rest: string, seen: set<string>)
    requires NameOk(name) && name != "" && !kind.NoKind? && name !in seen
    requires kind.PathKind? ==> rest == ""
    ensures Parse("<" + KindText(kind) + ":" + name + ">" + rest, seen) ==
            Prepend(Param(kind, name), Parse(rest, seen + {name}))
  {
    hide Parse, ReadSpec, KindText, Find;
    var spec := KindText(kind) + ":" + name;
    var s := "<" + KindText(kind) + ":" + name + ">" + rest;
    SpecEnds(kind, name, rest);
    assert s == "<" + spec + ">" + rest;
    var end := |spec| + 1;
    assert s[1..end] == spec && s[end + 1..] == rest;
    ParseOpened(s, end, kind, name, seen);
  }

  lemma ParseOpened(s: string, end: nat, kind: Kind, name: string, seen: set<string>)
    requires s != "" && s[0] == '<' && 1 <= end == Find(s, '>') < |s| && ReadSpec(s[1..end]) == (kind, name)
    requires NameOk(name) && name != "" && !kind.NoKind? && name !in seen
    requires kind.PathKind? ==> end + 1 == |s|
    ensures Parse(s, seen) == Prepend(Param(kind, name), Parse(s[end + 1..], seen + {name}))
  {
  }

  lemma SpecEnds(kind: Kind, name: string, rest: string)
    requires NameOk(name) && !kind.NoKind?
    ensures var spec := KindText(kind) + ":" + name;
            Find("<" + spec + ">" + rest, '>') == |spec| + 1 && ReadSpec(spec) == (kind, name)
  {
    var text := KindText(kind);
    var spec := text + ":" + name;
    var s := "<" + spec + ">" + rest;
    assert forall j :: 0 <= j < |text| ==> text[j] != ':' && text[j] != '>';
    FindIs(spec, ':', |text|);
    assert spec[..|text|] == text && spec[|text| + 1..] == name;
    forall j | 0 <= j < |spec| + 1
      ensures s[j] != '>'
    {
      if j > 0 {
        assert s[j] == spec[j - 1];
        if j > |text| + 1 {
          assert spec[j - 1] == name[j - |text| - 2] && NameChar(name[j - |text| - 2]);
        }
      }
    }
    FindIs(s, '>', |spec| + 1);
  }

  lemma SliceOfTail(s: string, start: nat, lo: nat, hi: nat)
    requires lo <= hi && start + hi <= |s|
    ensures s[start..][lo..hi] == s[start + lo..start + hi] && s[start..][hi..] == s[start + hi..]
  {
  }

  // Parsing the tail of a text that starts with a parameter, told by positions in the whole text.
  lemma ParseTail(path: string, start: nat, seen: set<string>)
    requires start < |path| && path[start] == '<'
    ensures var end := start + Find(path[start..], '>');
            && start < end <= |path|
            && Parse(path[start..], seen) ==
                 if end == |path| then Err(Unterminated)
                 else
                   var (kind, name) := ReadSpec(path[start + 1..end]);
                   var fault := Fault(kind, name, end + 1 == |path|, seen);
                   if fault.Some? then Err(fault.value)
                   else Prepend(Param(kind, name), Parse(path[end + 1..], seen + {name}))
  {
    var rest := path[start..];
    var end := Find(rest, '>');
    if end < |rest| {
      SliceOfTail(path, start, 1, end);
      SliceOfTail(path, start, 1, end + 1);
    }
  }

  // A run of literal characters parses to itself.
  lemma ParseLiteral(s: string, seen: set<string>)
    requires s != "" && s[0] != '<' && Parse(s, seen).Ok?
    ensures Parse(s[1..], seen).Ok? && Parse(s, seen).value == [Lit(s[0])] + Parse(s[1..], seen).value
  {
  }

  lemma {:induction false} ParseRun(s: string, k: nat, seen: set<string>)
    requires k <= |s| && (forall j :: 0 <= j < k ==> s[j] != '<') && Parse(s, seen).Ok?
    ensures Parse(s[k..], seen).Ok? && Parse(s, seen).value == Lits(s[..k]) + Parse(s[k..], seen).value
    decreases k
  {
    hide Parse;
    if k == 0 {
      assert s[0..] == s;
    } else {
      ParseLiteral(s, seen);
      ParseRun(s[1..], k - 1, seen);
      assert s[1..][k - 1..] == s[k..];
      var rest := Parse(s[k..], seen).value;
      assert Lits(s[..k]) + rest == [Lit(s[0])] + (Lits(s[1..][..k - 1]) + rest);
    }
  }

  // ---------- which texts stand for which patterns ----------

  lemma SmallLettersAre(c: char)
    ensures 'a' <= c <= 'z' <==> c in "abcdefghijklmnopqrstuvwxyz"
  {
    var letters := "abcdefghijklmnopqrstuvwxyz";
    assert forall i :: 0 <= i < 26 ==> letters[i] == 'a' + i as char;
    if 'a' <= c <= 'z' {
      assert letters[(c - 'a') as int] == c;
    }
  }

  lemma BigLettersAre(c: char)
    ensures 'A' <= c <= 'Z' <==> c in "ABCDEFGHIJKLMNOPQRSTUVWXYZ"
  {
    var letters := "ABCDEFGHIJKLMNOPQRSTUVWXYZ";
    assert forall i :: 0 <= i < 26 ==> letters[i] == 'A' + i as char;
    if 'A' <= c <= 'Z' {
      assert letters[(c - 'A') as int] == c;
    }
  }

  // The characters of a name: digits, letters and the underscore.
  lemma NameCharsAre(c: char)
    ensures NameChar(c) <==>
            c in "0123456789" || c in "abcdefghijklmnopqrstuvwxyz" || c in "ABCDEFGHIJKLMNOPQRSTUVWXYZ" || c == '_'
  {
    hide Digit;
    DigitsAre(c);
    SmallLettersAre(c);
    BigLettersAre(c);
  }

  // The text between angle brackets, told by what may be written: a name alone is that of a string
  // parameter.
  ghost predicate Writes(spec: string, kind: Kind, name: string) {
    match kind
    case IntKind => spec == "int:" + name
    case StringKind => spec == "string:" + name || (spec == name && ':' !in name)
    case PathKind => spec == "path:" + name
    case NoKind => false
  }

  lemma WrittenHasKind(spec: string, kind: Kind, name: string)
    requires Writes(spec, kind, name) && ':' in spec
    ensures spec == KindText(kind) + ":" + name && Find(spec, ':') == |KindText(kind)|
  {
    var text := KindText(kind);
    assert spec == text + ":" + name;
    FindIs(spec, ':', |text|);
  }

  lemma ReadSpecExact(spec: string, kind: Kind, name: string)
    requires !kind.NoKind?
    ensures ReadSpec(spec) == (kind, name) <==> Writes(spec, kind, name)
  {
    var colon := Find(spec, ':');
    if colon == |spec| {
      assert Writes(spec, kind, name) ==> kind.StringKind? && spec == name by {
        assert "int:"[3] == "path:"[4] == "string:"[6] == ':';
        assert Writes(spec, kind, name) && spec != name ==> ':' in spec;
      }
    } else {
      var text, rest := spec[..colon], spec[colon + 1..];
      assert spec == text + ":" + rest;
      if Writes(spec, kind, name) {
        WrittenHasKind(spec, kind, name);
        assert KindOf(KindText(kind)) == kind;
      }
    }
  }

  lemma NothingWritten(spec: string)
    ensures (ReadSpec(spec).0.NoKind? || ReadSpec(spec).1 == "") <==>
            forall kind, name :: Writes(spec, kind, name) ==> name == ""
  {
    var (k, n) := ReadSpec(spec);
    if !k.NoKind? {
      ReadSpecExact(spec, k, n);
    }
    forall kind, name | Writes(spec, kind, name)
      ensures (kind, name) == (k, n)
    {
      ReadSpecExact(spec, kind, name);
    }
  }

  // The text writes the pattern down, token by token.
  ghost predicate Spells(ts: Pattern, s: string)
    decreases |ts|
  {
    if ts == [] then s == ""
    else match ts[0]
      case Lit(c) => s != "" && s[0] == c && Spells(ts[1..], s[1..])
      case Param(kind, name) => exists end :: SpellsTo(ts, s, kind, name, end)
  }

  ghost predicate SpellsTo(ts: Pattern, s: string, kind: Kind, name: string, end: int)
    requires ts != []
    decreases |ts|, 0
  {
    && 0 < end < |s| && s[0] == '<' && s[end] == '>' && Writes(s[1..end], kind, name) && Spells(ts[1..], s[end + 1..])
  }

  lemma NamesHaveNoMarks(name: string)
    requires NameOk(name)
    ensures ':' !in name && '>' !in name
  {
    forall i | 0 <= i < |name|
      ensures name[i] != ':' && name[i] != '>'
    {
      assert NameChar(name[i]);
    }
  }

  lemma WrittenHasNoEnd(spec: string, kind: Kind, name: string)
    requires Writes(spec, kind, name) && NameOk(name)
    ensures '>' !in spec
  {
    NamesHaveNoMarks(name);
  }

  // What parses has been written down.
  lemma {:induction false} ParseSpells(s: string, seen: set<string>)
    requires Parse(s, seen).Ok?
    ensures Spells(Parse(s, seen).value, s)
    decreases |s|
  {
    if s != "" {
      var ts := Parse(s, seen).value;
      if s[0] != '<' {
        ParseSpells(s[1..], seen);
        assert ts[1..] == Parse(s[1..], seen).value;
      } else {
        var end := Find(s, '>');
        var (kind, name) := ReadSpec(s[1..end]);
        ParseSpells(s[end + 1..], seen + {name});
        assert ts[1..] == Parse(s[end + 1..], seen + {name}).value;
        ReadSpecExact(s[1..end], kind, name);
        assert SpellsTo(ts, s, kind, name, end);
      }
    }
  }

  // What follows a pattern in a text, after the pattern has been read.
  function Behind(ts: Pattern, r: Result<Pattern, Rejection>): Result<Pattern, Rejection> {
    match r
    case Ok(us) => Ok(ts + us)
    case Err(e) => Err(e)
  }

  ghost predicate NoPath(ts: Pattern) {
    forall i :: 0 <= i < |ts| ==> ts[i].Lit? || !ts[i].kind.PathKind?
  }

  lemma ParseWritten(s: string, end: int, kind: Kind, name: string, more: string, seen: set<string>)
    requires 0 < end < |s| && s[0] == '<' && s[end] == '>' && Writes(s[1..end], kind, name)
    requires name != "" && NameOk(name) && name !in seen && (kind.PathKind? ==> end + 1 == |s + more|)
    ensures Parse(s + more, seen) == Prepend(Param(kind, name), Parse(s[end + 1..] + more, seen + {name}))
  {
    var all := s + more;
    assert all[1..end] == s[1..end] && all[end + 1..] == s[end + 1..] + more;
    WrittenHasNoEnd(s[1..end], kind, name);
    assert forall j :: 1 <= j < end ==> all[j] == s[1..end][j - 1];
    FindIs(all, '>', end);
    ReadSpecExact(s[1..end], kind, name);
    ParseOpened(all, end, kind, name, seen);
  }

  lemma ParseMore(s: string, more: string, seen: set<string>)
    requires s != "" && s[0] != '<' && s[0] != '>'
    ensures Parse(s + more, seen) == Prepend(Lit(s[0]), Parse(s[1..] + more, seen))
  {
    assert (s + more)[1..] == s[1..] + more;
  }

  lemma BehindNext(t: Token, ts: Pattern, r: Result<Pattern, Rejection>)
    ensures Prepend(t, Behind(ts, r)) == Behind([t] + ts, r)
  {
    assert r.Ok? ==> [t] + (ts + r.value) == [t] + ts + r.value;
  }

  lemma BehindNothing(s: string, more: string, seen: set<string>)
    requires s == ""
    ensures Parse(s + more, seen) == Behind([], Parse(more, seen))
  {
    assert s + more == more && forall us: Pattern :: [] + us == us;
  }

  // A well-formed beginning of a text is read as it is written, and the rest decides.
  lemma {:induction false} ParseBehind(ts: Pattern, s: string, more: string, seen: set<string>)
    requires WellFormed(ts) && Spells(ts, s) && Names(ts) !! seen && (NoPath(ts) || more == "")
    ensures Parse(s + more, seen) == Behind(ts, Parse(more, seen + Names(ts)))
    decreases |ts|
  {
    hide Parse, Prepend, Behind;
    if ts == [] {
      assert seen + Names(ts) == seen;
      BehindNothing(s, more, seen);
      return;
    }
    DistinctTail(ts);
    WellFormedTail(ts);
    var r := Parse(more, seen + Names(ts));
    if ts[0].Lit? {
      ParseBehind(ts[1..], s[1..], more, seen);
      ParseMore(s, more, seen);
      assert Names(ts) == Names(ts[1..]);
    } else {
      var kind, name := ts[0].kind, ts[0].name;
      var end :| SpellsTo(ts, s, kind, name, end);
      PathIsLast(ts, s[end + 1..]);
      ParseWritten(s, end, kind, name, more, seen);
      ParseBehind(ts[1..], s[end + 1..], more, seen + {name});
      assert seen + {name} + Names(ts[1..]) == seen + Names(ts);
    }
    assert ts == [ts[0]] + ts[1..];
    BehindNext(ts[0], ts[1..], r);
  }

  lemma PathIsLast(ts: Pattern, rest: string)
    requires WellFormed(ts) && ts != [] && ts[0].Param? && Spells(ts[1..], rest)
    ensures ts[0].kind.PathKind? ==> rest == ""
  {
  }

  // The accepted texts are exactly those that write a well-formed pattern down, and that is the
  // pattern they are read as.
  lemma ParseExact(s: string, seen: set<string>, ts: Pattern)
    ensures Parse(s, seen) == Ok(ts) <==> WellFormed(ts) && Names(ts) !! seen && Spells(ts, s)
  {
    if Parse(s, seen) == Ok(ts) {
      ParseIsWellFormed(s, seen);
      ParseSpells(s, seen);
    }
    if WellFormed(ts) && Names(ts) !! seen && Spells(ts, s) {
      ParseBehind(ts, s, "", seen);
      assert s + "" == s && ts + [] == ts;
    }
  }

  // A name alone between the brackets is that of a string parameter.
  lemma PlainName(name: string, rest: string, seen: set<string>)
    requires NameOk(name) && name != "" && name !in seen
    ensures Parse("<" + name + ">" + rest, seen) == Prepend(Param(StringKind, name), Parse(rest, seen + {name}))
  {
    NamesHaveNoMarks(name);
    var s, end := "<" + name + ">", |name| + 1;
    assert s[1..end] == name && s[end + 1..] + rest == rest;
    ParseWritten(s, end, StringKind, name, rest, seen);
  }

  // ---------- which texts are refused, and why ----------

  // A text that starts with a fault, when the names in seen are taken.
  ghost predicate Faulty(s: string, seen: set<string>, e: Rejection) {
    match e
    case StrayTerminator => s != "" && s[0] == '>'
    case Unterminated => s != "" && s[0] == '<' && '>' !in s
    case BadSpecification | PathNotTerminal | BadName | DuplicateName => exists end :: FaultyTo(s, seen, e, end)
    case _ => false
  }

  ghost predicate FaultyTo(s: string, seen: set<string>, e: Rejection, end: int) {
    && 0 < end < |s| && s[0] == '<' && s[end] == '>' && '>' !in s[1..end]
    && if e.BadSpecification? then forall kind, name :: Writes(s[1..end], kind, name) ==> name == ""
       else exists kind, name ::
              Writes(s[1..end], kind, name) && name != "" && FaultyName(e, kind, name, s[end + 1..], seen)
  }

  ghost predicate FaultyName(e: Rejection, kind: Kind, name: string, rest: string, seen: set<string>) {
    if kind.PathKind? && rest != "" then e.PathNotTerminal?
    else if exists i :: 0 <= i < |name| && !NameChar(name[i]) then e.BadName?
    else name in seen && e.DuplicateName?
  }

  lemma FaultIs(spec: string, rest: string, seen: set<string>, e: Rejection)
    requires !e.BadSpecification?
    ensures var (kind, name) := ReadSpec(spec);
            Fault(kind, name, rest == "", seen) == Some(e) <==>
            exists k, n :: Writes(spec, k, n) && n != "" && FaultyName(e, k, n, rest, seen)
  {
    var (kind, name) := ReadSpec(spec);
    if !kind.NoKind? {
      ReadSpecExact(spec, kind, name);
    }
    forall k, n | Writes(spec, k, n)
      ensures (k, n) == (kind, name)
    {
      ReadSpecExact(spec, k, n);
    }
  }

  lemma FaultAtHead(s: string, seen: set<string>, e: Rejection)
    ensures Faulty(s, seen, e) ==> Parse(s, seen) == Err(e)
    ensures s != "" && s[0] == '<' && Find(s, '>') < |s| ==>
              var end := Find(s, '>');
              var (kind, name) := ReadSpec(s[1..end]);
              Fault(kind, name, end + 1 == |s|, seen) == Some(e) ==> Faulty(s, seen, e)
  {
    if s == "" || s[0] != '<' {
      return;
    }
    var end := Find(s, '>');
    if end < |s| {
      assert s[end] == '>' && '>' !in s[1..end];
      var spec, rest := s[1..end], s[end + 1..];
      NothingWritten(spec);
      if !e.BadSpecification? {
        FaultIs(spec, rest, seen, e);
      }
      if to :| FaultyTo(s, seen, e, to) {
        assert forall j :: 1 <= j < to ==> s[j] == s[1..to][j - 1];
        FindIs(s, '>', to);
      }
      var (kind, name) := ReadSpec(spec);
      if Fault(kind, name, end + 1 == |s|, seen) == Some(e) {
        assert FaultyTo(s, seen, e, end);
      }
    }
  }

  // The text is read as ts up to at, and goes on with the fault.
  ghost predicate RefusedAt(s: string, seen: set<string>, e: Rejection, at: nat, ts: Pattern) {
    && at <= |s| && WellFormed(ts) && NoPath(ts) && Names(ts) !! seen && Spells(ts, s[..at])
    && Faulty(s[at..], seen + Names(ts), e)
  }

  lemma RefusedAtOnce(s: string, seen: set<string>, e: Rejection)
    requires Faulty(s, seen, e)
    ensures RefusedAt(s, seen, e, 0, [])
  {
    assert s[0..] == s && seen + Names([]) == seen;
  }

  lemma RefusedBehindLiteral(s: string, seen: set<string>, e: Rejection, at: nat, ts: Pattern)
    requires s != "" && s[0] != '<' && s[0] != '>' && RefusedAt(s[1..], seen, e, at, ts)
    ensures RefusedAt(s, seen, e, at + 1, [Lit(s[0])] + ts)
  {
    hide Faulty;
    var all := [Lit(s[0])] + ts;
    WellFormedCons(Lit(s[0]), ts);
    assert s[..at + 1][1..] == s[1..][..at] && s[1..][at..] == s[at + 1..] && all[1..] == ts;
    assert Names(all) == Names(ts);
  }

  lemma RefusedBehindParameter(s: string, end: nat, seen: set<string>, e: Rejection, k: nat, us: Pattern)
    requires 0 < end < |s| && s[0] == '<' && s[end] == '>'
    requires var (kind, name) := ReadSpec(s[1..end]);
             && !kind.NoKind? && !kind.PathKind? && name != "" && NameOk(name) && name !in seen
             && RefusedAt(s[end + 1..], seen + {name}, e, k, us)
    ensures var (kind, name) := ReadSpec(s[1..end]);
            RefusedAt(s, seen, e, end + 1 + k, [Param(kind, name)] + us)
  {
    hide Faulty, Spells, ReadSpec;
    var (kind, name) := ReadSpec(s[1..end]);
    BehindParameter(s, end, kind, name, k, us);
    WellFormedCons(Param(kind, name), us);
    assert seen + {name} + Names(us) == seen + Names([Param(kind, name)] + us);
  }

  // Where the first fault of a refused text is, and what was read before it.
  lemma {:induction false} FirstFault(s: string, seen: set<string>) returns (at: nat, ts: Pattern)
    requires Parse(s, seen).Err?
    ensures RefusedAt(s, seen, Parse(s, seen).error, at, ts)
    decreases |s|
  {
    hide RefusedAt, Faulty, ReadSpec;
    var e := Parse(s, seen).error;
    if s[0] != '<' && s[0] != '>' {
      at, ts := FirstFault(s[1..], seen);
      RefusedBehindLiteral(s, seen, e, at, ts);
      at, ts := at + 1, [Lit(s[0])] + ts;
      return;
    }
    FaultAtHead(s, seen, e);
    var end := Find(s, '>');
    if s[0] == '>' || end == |s| {
      MarkIsFault(s, seen);
      RefusedAtOnce(s, seen, e);
      return 0, [];
    }
    var (kind, name) := ReadSpec(s[1..end]);
    if Fault(kind, name, end + 1 == |s|, seen).Some? {
      RefusedAtOnce(s, seen, e);
      return 0, [];
    }
    at, ts := FirstFault(s[end + 1..], seen + {name});
    RefusedBehindParameter(s, end, seen, e, at, ts);
    at, ts := end + 1 + at, [Param(kind, name)] + ts;
  }

  lemma MarkIsFault(s: string, seen: set<string>)
    requires s != ""
    ensures s[0] == '>' ==> Faulty(s, seen, StrayTerminator)
    ensures s[0] == '<' && Find(s, '>') == |s| ==> Faulty(s, seen, Unterminated)
  {
  }

  lemma BehindParameter(s: string, end: nat, kind: Kind, name: string, k: nat, us: Pattern)
    requires 0 < end < |s| && s[0] == '<' && s[end] == '>' && ReadSpec(s[1..end]) == (kind, name) && !kind.NoKind?
    requires end + 1 + k <= |s| && Spells(us, s[end + 1..][..k])
    ensures Spells([Param(kind, name)] + us, s[..end + 1 + k]) && s[end + 1..][k..] == s[end + 1 + k..]
  {
    var ts, p := [Param(kind, name)] + us, s[..end + 1 + k];
    assert p[1..end] == s[1..end] && p[end + 1..] == s[end + 1..][..k] && ts[1..] == us;
    ReadSpecExact(s[1..end], kind, name);
    assert SpellsTo(ts, p, kind, name, end);
  }

  // A text is refused with an error exactly when, after a well-formed beginning, it goes on with
  // that fault.
  lemma RefusedExact(s: string, seen: set<string>, e: Rejection)
    ensures Parse(s, seen) == Err(e) <==> exists at: nat, ts :: RefusedAt(s, seen, e, at, ts)
  {
    if Parse(s, seen) == Err(e) {
      var at, ts := FirstFault(s, seen);
    }
    if at: nat, ts :| RefusedAt(s, seen, e, at, ts) {
      ParseBehind(ts, s[..at], s[at..], seen);
      assert s[..at] + s[at..] == s;
      FaultAtHead(s[at..], seen + Names(ts), e);
    }
  }

  lemma NothingParses(seen: set<string>)
    ensures Parse("", seen) == Ok([])
  {
  }

  lemma AloneInBrackets(s: string, end: nat, kind: Kind, name: string)
    requires end + 1 == |s| && 0 < end && s[0] == '<' && s[end] == '>' && Writes(s[1..end], kind, name)
    requires name != "" && NameOk(name)
    ensures Parse("/" + s, {}) == Ok([Lit('/'), Param(kind, name)])
  {
    hide Find, ReadSpec, Writes;
    NothingParses({} + {name});
    var all := "/" + s;
    assert all[1..] == s;
    ParseWritten(s, end, kind, name, "", {});
    assert s + "" == s && s[end + 1..] + "" == "";
    assert [Lit('/')] + ([Param(kind, name)] + []) == [Lit('/'), Param(kind, name)];
  }

  // The forms that the interface names.
  lemma DocumentedForms()
    ensures Parse("/<a>", {}) == Ok([Lit('/'), Param(StringKind, "a")])
    ensures Parse("/<int:a>", {}) == Ok([Lit('/'), Param(IntKind, "a")])
    ensures Parse("/<string:a>", {}) == Ok([Lit('/'), Param(StringKind, "a")])
    ensures Parse("/<path:a>", {}) == Ok([Lit('/'), Param(PathKind, "a")])
  {
    hide Parse;
    assert "/" + "<a>" == "/<a>" && "<a>"[1..2] == "a";
    assert "/" + "<int:a>" == "/<int:a>" && "<int:a>"[1..6] == "int:" + "a";
    assert "/" + "<string:a>" == "/<string:a>" && "<string:a>"[1..9] == "string:" + "a";
    assert "/" + "<path:a>" == "/<path:a>" && "<path:a>"[1..7] == "path:" + "a";
    AloneInBrackets("<a>", 2, StringKind, "a");
    AloneInBrackets("<int:a>", 6, IntKind, "a");
    AloneInBrackets("<string:a>", 9, StringKind, "a");
    AloneInBrackets("<path:a>", 7, PathKind, "a");
  }

  // ---------- what a parameter takes ----------

  lemma FitParameter(kind: Kind, name: string, rest: Pattern, s: string)
    ensures var k := Span(kind, s);
            Fit([Param(kind, name)] + rest, s) ==
            if k == 0 || Fit(rest, s[k..]).None? then None else Some(Fit(rest, s[k..]).value[name := s[..k]])
  {
    assert ([Param(kind, name)] + rest)[1..] == rest;
  }

  lemma FitSlash(s: string)
    ensures Fit([Lit('/')], s) == if s == "/" then Some(map[]) else None
  {
  }

  // How far a parameter reaches into a text with a slash behind it.
  lemma SpanToSlash(kind: Kind, d: string)
    requires kind.IntKind? || kind.StringKind?
    ensures Span(kind, d + "/") <= |d|
    ensures Span(kind, d + "/") == |d| <==> forall c :: c in d ==> Takes(kind, c)
  {
    var s := d + "/";
    assert s[|d|] == '/' && !Takes(kind, '/');
    if forall c :: c in d ==> Takes(kind, c) {
      SpanIs(kind, d, "/");
    } else {
      var i :| 0 <= i < |d| && !Takes(kind, d[i]);
      assert s[i] == d[i];
    }
  }

  // Up to the next slash, an int parameter takes exactly the nonempty runs of digits, and a string
  // parameter all nonempty texts without a slash.
  lemma UpToSlash(kind: Kind, name: string, d: string)
    requires kind.IntKind? || kind.StringKind?
    ensures Fit([Param(kind, name), Lit('/')], d + "/") ==
            if d != "" && (forall c :: c in d ==> if kind.IntKind? then c in "0123456789" else c != '/')
            then Some(map[name := d]) else None
  {
    hide Fit, Span, Digit;
    var s := d + "/";
    SpanToSlash(kind, d);
    forall c
      ensures Digit(c) <==> c in "0123456789"
    {
      DigitsAre(c);
    }
    var k := Span(kind, s);
    FitParameter(kind, name, [Lit('/')], s);
    FitSlash(s[k..]);
    assert s[|d|..] == "/" && s[..|d|] == d && [Param(kind, name)] + [Lit('/')] == [Param(kind, name), Lit('/')];
  }

  // At the end of a pattern, a path parameter takes every nonempty rest.
  lemma PathTakesAll(name: string, s: string)
    ensures Fit([Param(PathKind, name)], s) == if s != "" then Some(map[name := s]) else None
  {
    SpanIs(PathKind, s, "");
    assert s + "" == s && s[..|s|] == s;
    FitParameter(PathKind, name, [], s);
  }
}
