// The radix-tree router: registration splits shared nodes in place, lookup backtracks with a
// parameter map that it passes up and down.
module Routing {
  import opened Patterns
  import opened Texts
  import opened Wrappers

  class RadixNode<H> {
    var prefix: string
    var children: seq<RadixNode<H>>
    var handler: Option<H>
    var kind: Kind
    var name: string

    constructor (prefix: string, kind: Kind, name: string)
      ensures this.prefix == prefix && this.kind == kind && this.name == name
      ensures children == [] && handler == None
    {
      this.prefix, this.kind, this.name := prefix, kind, name;
      children, handler := [], None;
    }
  }

  // What a node adds to the pattern of its parent.
  ghost function LabelOf(prefix: string, kind: Kind, name: string): Pattern {
    if kind.NoKind? then Lits(prefix) else [Param(kind, name)]
  }

  // What a node holds, with the pattern that leads to it from the root.
  datatype Cell<H> = Cell(
    prefix: string, kids: seq<RadixNode<H>>, handler: Option<H>, kind: Kind, name: string, spell: Pattern)
  {
    ghost function Label(): Pattern {
      LabelOf(prefix, kind, name)
    }

    // A literal node adds some text, a parameter node adds a parameter and no text.
    ghost predicate Shaped() {
      kind.NoKind? <==> prefix != ""
    }
  }

  type Picture<!H> = map<RadixNode<H>, Cell<H>>

  ghost predicate Differ(a: Token, b: Token) {
    a != b && !Clash(a, b)
  }

  // Two parameters that may not follow the same beginning: one kind under two names, or one name
  // under two kinds.
  ghost predicate Clash(a: Token, b: Token) {
    a.Param? && b.Param? && a != b && (a.kind == b.kind || a.name == b.name)
  }

  ghost predicate KidsFit<H>(pic: Picture<H>) {
    forall n, i :: n in pic && 0 <= i < |pic[n].kids| ==>
      var kid := pic[n].kids[i];
      kid in pic && pic[kid].Shaped() && pic[kid].spell == pic[n].spell + pic[kid].Label()
  }

  ghost predicate KidsDiffer<H>(pic: Picture<H>, n: RadixNode<H>)
    requires n in pic && KidsFit(pic)
  {
    forall i, j :: 0 <= i < j < |pic[n].kids| ==>
      Differ(pic[pic[n].kids[i]].Label()[0], pic[pic[n].kids[j]].Label()[0])
  }

  ghost predicate SiblingsDiffer<H>(pic: Picture<H>)
    requires KidsFit(pic)
  {
    forall n {:trigger KidsDiffer(pic, n)} :: n in pic ==> KidsDiffer(pic, n)
  }

  ghost predicate Unique<H>(pic: Picture<H>) {
    forall n, m :: n in pic && m in pic && pic[n].spell == pic[m].spell ==> n == m
  }

  ghost predicate Leads<H>(pic: Picture<H>, n: RadixNode<H>, i: int, spell: Pattern)
    requires n in pic && KidsFit(pic)
  {
    0 <= i < |pic[n].kids| && pic[pic[n].kids[i]].spell <= spell
  }

  // Whatever starts with a node's pattern hangs below one of its children.
  ghost predicate Reach<H>(pic: Picture<H>, n: RadixNode<H>, spell: Pattern)
    requires n in pic && KidsFit(pic)
  {
    pic[n].spell < spell ==> exists i :: Leads(pic, n, i, spell)
  }

  ghost predicate Reaches<H>(pic: Picture<H>)
    requires KidsFit(pic)
  {
    forall n, d {:trigger Reach(pic, n, pic[d].spell)} :: n in pic && d in pic ==> Reach(pic, n, pic[d].spell)
  }

  ghost predicate CellOk<H>(cell: Cell<H>) {
    && DistinctNames(cell.spell) && |cell.prefix| <= |cell.spell|
    && cell.spell[|cell.spell| - |cell.prefix|..] == Lits(cell.prefix)
  }

  ghost predicate CellsOk<H>(pic: Picture<H>) {
    forall n {:trigger CellOk(pic[n])} :: n in pic ==> CellOk(pic[n])
  }

  ghost predicate Trie<H>(pic: Picture<H>, root: RadixNode<H>) {
    && root in pic && pic[root].prefix == "" && pic[root].kind.NoKind? && pic[root].spell == []
    && KidsFit(pic) && SiblingsDiffer(pic) && Unique(pic) && Reaches(pic) && CellsOk(pic)
  }

  // The registered patterns and their handlers, as a plain list.
  type Table<!H> = map<Pattern, H>

  ghost predicate HandlersRight<H>(pic: Picture<H>, table: Table<H>) {
    forall n :: n in pic ==>
      pic[n].handler == if pic[n].spell in table then Some(table[pic[n].spell]) else None
  }

  ghost predicate Spelt<H>(pic: Picture<H>, t: Pattern) {
    exists n :: n in pic && pic[n].spell == t
  }

  ghost predicate AllSpelt<H>(pic: Picture<H>, table: Table<H>) {
    forall t {:trigger Spelt(pic, t)} :: t in table ==> Spelt(pic, t)
  }

  ghost predicate OnTheWay<H>(table: Table<H>, spell: Pattern) {
    exists t :: t in table && spell <= t
  }

  // Every node is on the way to a registered pattern, except those on the way to tip.
  ghost predicate Fruitful<H>(pic: Picture<H>, table: Table<H>, tip: Pattern) {
    forall n {:trigger OnTheWay(table, pic[n].spell)} :: n in pic ==>
      pic[n].spell <= tip || OnTheWay(table, pic[n].spell)
  }

  ghost predicate Good<H>(pic: Picture<H>, root: RadixNode<H>, table: Table<H>, tip: Pattern) {
    && Trie(pic, root) && HandlersRight(pic, table) && AllSpelt(pic, table) && Fruitful(pic, table, tip)
  }

  // The place of the first accepted registration whose pattern starts with spell, or |history|.
  ghost function First(history: seq<Pattern>, spell: Pattern): (i: nat)
    ensures i <= |history| && (i < |history| ==> spell <= history[i])
    ensures forall j :: 0 <= j < i ==> !(spell <= history[j])
  {
    if history == [] || spell <= history[0] then 0 else 1 + First(history[1..], spell)
  }

  // When a parameter child was first registered; literal children have no age.
  ghost function Age<H>(pic: Picture<H>, history: seq<Pattern>, n: RadixNode<H>, i: int): int
    requires n in pic && KidsFit(pic) && 0 <= i < |pic[n].kids|
  {
    var kid := pic[pic[n].kids[i]];
    if kid.kind.NoKind? then -1 else First(history, kid.spell)
  }

  // The parameter children stand in the order of their first registrations.
  ghost predicate KidsAged<H>(pic: Picture<H>, history: seq<Pattern>, n: RadixNode<H>)
    requires n in pic && KidsFit(pic)
  {
    forall i, j {:trigger Age(pic, history, n, i), Age(pic, history, n, j)} ::
      0 <= i < j < |pic[n].kids| && Age(pic, history, n, i) >= 0 && Age(pic, history, n, j) >= 0 ==>
        Age(pic, history, n, i) < Age(pic, history, n, j)
  }

  ghost predicate AllAged<H>(pic: Picture<H>, history: seq<Pattern>)
    requires KidsFit(pic)
  {
    forall n {:trigger KidsAged(pic, history, n)} :: n in pic ==> KidsAged(pic, history, n)
  }

  ghost predicate SamePatterns<H>(table: Table<H>, history: seq<Pattern>) {
    forall t :: t in table <==> t in history
  }

  ghost predicate Aged<H>(pic: Picture<H>, table: Table<H>, history: seq<Pattern>)
    requires KidsFit(pic)
  {
    SamePatterns(table, history) && AllAged(pic, history)
  }

  // ---------- growing a trie ----------

  // A child of n that leads towards a pattern starts with the pattern's next token.
  lemma LeadsToken<H>(pic: Picture<H>, n: RadixNode<H>, i: int, spell: Pattern)
    requires n in pic && KidsFit(pic) && Leads(pic, n, i, spell)
    ensures pic[n].spell < spell && spell[|pic[n].spell|] == pic[pic[n].kids[i]].Label()[0]
  {
    var kid := pic[pic[n].kids[i]];
    assert kid.Label() != [];
    assert kid.spell[|pic[n].spell|] == kid.Label()[0];
  }

  ghost function WithKid<H>(pic: Picture<H>, n: RadixNode<H>, kid: RadixNode<H>, cell: Cell<H>): Picture<H>
    requires n in pic
  {
    pic[n := pic[n].(kids := pic[n].kids + [kid])][kid := cell]
  }

  ghost predicate NewKid<H>(pic: Picture<H>, n: RadixNode<H>, kid: RadixNode<H>, cell: Cell<H>)
    requires n in pic && KidsFit(pic)
  {
    && kid !in pic && cell.kids == [] && cell.handler == None && cell.Shaped()
    && cell.spell == pic[n].spell + cell.Label() && CellOk(cell)
    && forall i :: 0 <= i < |pic[n].kids| ==> Differ(pic[pic[n].kids[i]].Label()[0], cell.Label()[0])
  }

  // Nothing hangs where the new child goes.
  lemma NothingThere<H>(pic: Picture<H>, n: RadixNode<H>, kid: RadixNode<H>, cell: Cell<H>, d: RadixNode<H>)
    requires n in pic && KidsFit(pic) && Reaches(pic) && NewKid(pic, n, kid, cell)
    requires d in pic && pic[n].spell < pic[d].spell
    ensures pic[d].spell[|pic[n].spell|] != cell.spell[|pic[n].spell|]
  {
    assert Reach(pic, n, pic[d].spell);
    var i :| Leads(pic, n, i, pic[d].spell);
    LeadsToken(pic, n, i, pic[d].spell);
    assert cell.spell[|pic[n].spell|] == cell.Label()[0];
  }

  lemma WithKidIsTrie<H>(pic: Picture<H>, root: RadixNode<H>, n: RadixNode<H>, kid: RadixNode<H>, cell: Cell<H>)
    requires Trie(pic, root) && n in pic && NewKid(pic, n, kid, cell)
    ensures Trie(WithKid(pic, n, kid, cell), root)
  {
    var p := WithKid(pic, n, kid, cell);
    WithKidFits(pic, n, kid, cell);
    WithKidUnique(pic, n, kid, cell);
    WithKidCells(pic, n, kid, cell);
    forall m, d | m in p && d in p
      ensures Reach(p, m, p[d].spell)
    {
      if p[m].spell < p[d].spell {
        WithKidReaches(pic, root, n, kid, cell, m, d);
      }
    }
  }

  lemma WithKidUnique<H>(pic: Picture<H>, n: RadixNode<H>, kid: RadixNode<H>, cell: Cell<H>)
    requires n in pic && KidsFit(pic) && Reaches(pic) && Unique(pic) && NewKid(pic, n, kid, cell)
    ensures Unique(WithKid(pic, n, kid, cell))
  {
    forall d | d in pic
      ensures pic[d].spell != cell.spell
    {
      if pic[n].spell < pic[d].spell {
        NothingThere(pic, n, kid, cell, d);
      }
    }
  }

  lemma WithKidCells<H>(pic: Picture<H>, n: RadixNode<H>, kid: RadixNode<H>, cell: Cell<H>)
    requires n in pic && CellsOk(pic) && CellOk(cell)
    ensures CellsOk(WithKid(pic, n, kid, cell))
  {
    var p := WithKid(pic, n, kid, cell);
    forall m | m in p
      ensures CellOk(p[m])
    {
      assert m in pic ==> CellOk(pic[m]);
    }
  }

  lemma WithKidFits<H>(pic: Picture<H>, n: RadixNode<H>, kid: RadixNode<H>, cell: Cell<H>)
    requires KidsFit(pic) && SiblingsDiffer(pic) && n in pic && NewKid(pic, n, kid, cell)
    ensures KidsFit(WithKid(pic, n, kid, cell)) && SiblingsDiffer(WithKid(pic, n, kid, cell))
  {
    var p := WithKid(pic, n, kid, cell);
    WithKidFitsIn(pic, n, kid, cell);
    forall m | m in p
      ensures KidsDiffer(p, m)
    {
      if m == n {
        assert KidsDiffer(pic, n);
      } else if m != kid {
        SameHeads(pic, p, m, m);
      }
    }
  }

  lemma WithKidFitsIn<H>(pic: Picture<H>, n: RadixNode<H>, kid: RadixNode<H>, cell: Cell<H>)
    requires KidsFit(pic) && n in pic && NewKid(pic, n, kid, cell)
    ensures KidsFit(WithKid(pic, n, kid, cell))
  {
  }

  lemma WithKidReaches<H>(pic: Picture<H>, root: RadixNode<H>, n: RadixNode<H>, kid: RadixNode<H>, cell: Cell<H>,
                          m: RadixNode<H>, d: RadixNode<H>)
    requires Trie(pic, root) && n in pic && NewKid(pic, n, kid, cell)
    requires var p := WithKid(pic, n, kid, cell);
             KidsFit(p) && m in p && d in p && p[m].spell < p[d].spell
    ensures var p := WithKid(pic, n, kid, cell); exists i :: Leads(p, m, i, p[d].spell)
  {
    hide KidsFit, SiblingsDiffer, Unique, Reaches, CellsOk;
    if d == kid {
      WithKidReachesIt(pic, root, n, kid, cell, m);
    } else if m == kid {
      NothingThere(pic, n, kid, cell, d);
    } else {
      WithKidReachesOld(pic, n, kid, cell, m, d);
    }
  }

  lemma WithKidReachesOld<H>(pic: Picture<H>, n: RadixNode<H>, kid: RadixNode<H>, cell: Cell<H>,
                             m: RadixNode<H>, d: RadixNode<H>)
    requires KidsFit(pic) && Reaches(pic) && n in pic && NewKid(pic, n, kid, cell)
    requires KidsFit(WithKid(pic, n, kid, cell)) && m in pic && d in pic && pic[m].spell < pic[d].spell
    ensures exists i :: Leads(WithKid(pic, n, kid, cell), m, i, pic[d].spell)
  {
    var p := WithKid(pic, n, kid, cell);
    assert Reach(pic, m, pic[d].spell);
    var i :| Leads(pic, m, i, pic[d].spell);
    assert Leads(p, m, i, pic[d].spell);
  }

  lemma WithKidReachesIt<H>(pic: Picture<H>, root: RadixNode<H>, n: RadixNode<H>, kid: RadixNode<H>, cell: Cell<H>,
                            m: RadixNode<H>)
    requires Trie(pic, root) && n in pic && NewKid(pic, n, kid, cell) && m in pic
    requires var p := WithKid(pic, n, kid, cell); KidsFit(p) && pic[m].spell < cell.spell
    ensures var p := WithKid(pic, n, kid, cell); exists i :: Leads(p, m, i, cell.spell)
  {
    var p := WithKid(pic, n, kid, cell);
    if m == n {
      assert Leads(p, n, |pic[n].kids|, cell.spell);
    } else {
      if |pic[n].spell| < |pic[m].spell| {
        NothingThere(pic, n, kid, cell, m);
      }
      assert pic[m].spell <= pic[n].spell;
      assert Reach(pic, m, pic[n].spell);
      var i :| Leads(pic, m, i, pic[n].spell);
      assert Leads(p, m, i, cell.spell);
    }
  }

  // Cutting the text of the literal node m in two: m keeps the front, and a new node takes the
  // rest with m's children and handler.
  ghost function Cut<H>(pic: Picture<H>, m: RadixNode<H>, at: nat, branch: RadixNode<H>): Picture<H>
    requires m in pic && at <= |pic[m].prefix| <= |pic[m].spell|
  {
    var old' := pic[m];
    var front := old'.spell[..|old'.spell| - |old'.prefix| + at];
    pic[m := Cell(old'.prefix[..at], [branch], None, old'.kind, old'.name, front)]
       [branch := Cell(old'.prefix[at..], old'.kids, old'.handler, NoKind, "", old'.spell)]
  }

  ghost predicate CutHere<H>(pic: Picture<H>, n: RadixNode<H>, i: nat, at: nat, branch: RadixNode<H>)
    requires n in pic && KidsFit(pic)
  {
    && i < |pic[n].kids| && branch !in pic
    && var m := pic[pic[n].kids[i]]; m.kind.NoKind? && 0 < at < |m.prefix|
  }

  // What starts like the i-th child hangs below it.
  lemma OnlyThrough<H>(pic: Picture<H>, n: RadixNode<H>, i: nat, d: RadixNode<H>)
    requires n in pic && d in pic && KidsFit(pic) && SiblingsDiffer(pic) && Reaches(pic) && i < |pic[n].kids|
    requires pic[n].spell < pic[d].spell
    requires pic[d].spell[|pic[n].spell|] == pic[pic[n].kids[i]].Label()[0]
    ensures Leads(pic, n, i, pic[d].spell)
  {
    assert Reach(pic, n, pic[d].spell);
    var j :| Leads(pic, n, j, pic[d].spell);
    LeadsToken(pic, n, j, pic[d].spell);
    assert KidsDiffer(pic, n);
  }

  // The node to cut has one parent, and no node sits where it is cut.
  lemma CutPlace<H>(pic: Picture<H>, root: RadixNode<H>, n: RadixNode<H>, i: nat, at: nat, branch: RadixNode<H>)
    requires Trie(pic, root) && n in pic && CutHere(pic, n, i, at, branch)
    ensures var m := pic[n].kids[i]; var M := pic[m];
            && m != n && m != root && M.prefix != ""
            && M.spell == pic[n].spell + Lits(M.prefix)
            && Cut(pic, m, at, branch)[m].spell == pic[n].spell + Lits(M.prefix[..at])
            && (forall d :: d in pic && pic[n].spell + Lits(M.prefix[..at]) <= pic[d].spell ==> M.spell <= pic[d].spell)
            && (forall x, j :: x in pic && 0 <= j < |pic[x].kids| && pic[x].kids[j] == m ==> x == n)
  {
    var m := pic[n].kids[i];
    var M := pic[m];
    var front := pic[n].spell + Lits(M.prefix[..at]);
    assert M.spell[..|M.spell| - |M.prefix| + at] == front;
    forall d | d in pic && front <= pic[d].spell
      ensures M.spell <= pic[d].spell
    {
      assert pic[d].spell[|pic[n].spell|] == front[|pic[n].spell|] == Lit(M.prefix[0]);
      assert pic[n].spell < pic[d].spell;
      OnlyThrough(pic, n, i, d);
    }
    forall x, j | x in pic && 0 <= j < |pic[x].kids| && pic[x].kids[j] == m
      ensures x == n
    {
      assert M.spell[..|pic[x].spell|] == pic[x].spell;
      assert M.spell[..|pic[n].spell|] == pic[n].spell;
    }
  }

  lemma CutFits<H>(pic: Picture<H>, root: RadixNode<H>, n: RadixNode<H>, i: nat, at: nat, branch: RadixNode<H>)
    requires Trie(pic, root) && n in pic && CutHere(pic, n, i, at, branch)
    ensures KidsFit(Cut(pic, pic[n].kids[i], at, branch))
  {
    CutPlace(pic, root, n, i, at, branch);
    var m := pic[n].kids[i];
    var M := pic[m];
    var p := Cut(pic, m, at, branch);
    forall x, j | x in p && 0 <= j < |p[x].kids|
      ensures var kid := p[x].kids[j]; kid in p && p[kid].Shaped() && p[kid].spell == p[x].spell + p[kid].Label()
    {
      if x == m {
        assert M.spell == p[m].spell + Lits(M.prefix[at..]);
      } else if x == branch {
        var kid := pic[m].kids[j];
        assert pic[kid].spell == M.spell + pic[kid].Label();
        assert kid != m;
      } else if pic[x].kids[j] != m {
        assert pic[pic[x].kids[j]].spell == pic[x].spell + pic[pic[x].kids[j]].Label();
      }
    }
  }

  lemma CutDiffers<H>(pic: Picture<H>, root: RadixNode<H>, n: RadixNode<H>, i: nat, at: nat, branch: RadixNode<H>)
    requires Trie(pic, root) && n in pic && CutHere(pic, n, i, at, branch)
    requires KidsFit(Cut(pic, pic[n].kids[i], at, branch))
    ensures SiblingsDiffer(Cut(pic, pic[n].kids[i], at, branch))
  {
    var m := pic[n].kids[i];
    var p := Cut(pic, m, at, branch);
    assert p[m].Label()[0] == pic[m].Label()[0];
    forall x | x in p
      ensures KidsDiffer(p, x)
    {
      if x != m {
        SameHeads(pic, p, if x == branch then m else x, x);
      }
    }
  }

  lemma SameHeads<H>(pic: Picture<H>, p: Picture<H>, was: RadixNode<H>, x: RadixNode<H>)
    requires KidsFit(pic) && SiblingsDiffer(pic) && KidsFit(p)
    requires was in pic && x in p && pic[was].kids == p[x].kids
    requires forall k :: k in pic && k in p && pic[k].Shaped() && p[k].Shaped() ==>
               p[k].Label()[0] == pic[k].Label()[0]
    ensures KidsDiffer(p, x)
  {
    assert KidsDiffer(pic, was);
    forall i, j | 0 <= i < j < |p[x].kids|
      ensures Differ(p[p[x].kids[i]].Label()[0], p[p[x].kids[j]].Label()[0])
    {
      var a, b := pic[was].kids[i], pic[was].kids[j];
      assert Differ(pic[a].Label()[0], pic[b].Label()[0]);
    }
  }

  lemma CutReaches<H>(pic: Picture<H>, root: RadixNode<H>, n: RadixNode<H>, i: nat, at: nat, branch: RadixNode<H>,
                      x: RadixNode<H>, d: RadixNode<H>)
    requires Trie(pic, root) && n in pic && CutHere(pic, n, i, at, branch)
    requires var p := Cut(pic, pic[n].kids[i], at, branch);
             KidsFit(p) && x in p && d in p && p[x].spell < p[d].spell
    ensures var p := Cut(pic, pic[n].kids[i], at, branch); exists j :: Leads(p, x, j, p[d].spell)
  {
    CutPlace(pic, root, n, i, at, branch);
    hide KidsFit, Unique, Reaches, CellsOk, SiblingsDiffer;
    var m := pic[n].kids[i];
    var p := Cut(pic, m, at, branch);
    if x == m {
      assert Leads(p, m, 0, p[d].spell);
    } else {
      var was := if x == branch then m else x;
      if d == m {
        CutReachesFront(pic, root, n, i, at, branch, x, was);
      } else {
        CutReachesOther(pic, m, at, branch, x, was, d, if d == branch then m else d);
      }
    }
  }

  lemma CutReachesOther<H>(pic: Picture<H>, m: RadixNode<H>, at: nat, branch: RadixNode<H>,
                           x: RadixNode<H>, was: RadixNode<H>, d: RadixNode<H>, below: RadixNode<H>)
    requires KidsFit(pic) && Reaches(pic) && m in pic && at <= |pic[m].prefix| <= |pic[m].spell|
    requires var p := Cut(pic, m, at, branch);
             KidsFit(p) && x in p && d in p && x != m && d != m && branch !in pic
             && was == (if x == branch then m else x) && below == (if d == branch then m else d)
             && p[x].spell < p[d].spell
    ensures var p := Cut(pic, m, at, branch); exists j :: Leads(p, x, j, p[d].spell)
  {
    var p := Cut(pic, m, at, branch);
    assert Reach(pic, was, pic[below].spell);
    var j :| Leads(pic, was, j, pic[below].spell);
    assert p[pic[was].kids[j]].spell <= pic[pic[was].kids[j]].spell;
    assert Leads(p, x, j, p[d].spell);
  }

  lemma CutReachesFront<H>(pic: Picture<H>, root: RadixNode<H>, n: RadixNode<H>, i: nat, at: nat,
                           branch: RadixNode<H>, x: RadixNode<H>, was: RadixNode<H>)
    requires Trie(pic, root) && n in pic && CutHere(pic, n, i, at, branch)
    requires var m := pic[n].kids[i];
             var p := Cut(pic, m, at, branch);
             KidsFit(p) && x in p && x != m && was == (if x == branch then m else x) && p[x].spell < p[m].spell
    ensures var m := pic[n].kids[i];
            var p := Cut(pic, m, at, branch); exists j :: Leads(p, x, j, p[m].spell)
  {
    CutPlace(pic, root, n, i, at, branch);
    var m := pic[n].kids[i];
    var p := Cut(pic, m, at, branch);
    assert x != branch && p[m].spell < pic[m].spell;
    assert Reach(pic, x, pic[m].spell);
    var j :| Leads(pic, x, j, pic[m].spell);
    var kid := pic[x].kids[j];
    assert kid != m ==> !(p[m].spell <= pic[kid].spell);
    assert Leads(p, x, j, p[m].spell);
  }

  lemma CutText(spell: Pattern, prefix: string, at: nat)
    requires |prefix| <= |spell| && at <= |prefix| && spell[|spell| - |prefix|..] == Lits(prefix)
    requires DistinctNames(spell)
    ensures var front := spell[..|spell| - |prefix| + at];
            DistinctNames(front) && front[|front| - at..] == Lits(prefix[..at])
    ensures spell[|spell| - |prefix[at..]|..] == Lits(prefix[at..])
  {
    var front := spell[..|spell| - |prefix| + at];
    var start := |spell| - |prefix|;
    assert forall k :: 0 <= k < |prefix| ==> spell[start + k] == spell[start..][k];
  }

  lemma CutCells<H>(pic: Picture<H>, m: RadixNode<H>, at: nat, branch: RadixNode<H>)
    requires CellsOk(pic) && m in pic && CellOk(pic[m]) && at <= |pic[m].prefix|
    ensures CellsOk(Cut(pic, m, at, branch))
  {
    hide DistinctNames, Lits;
    var p := Cut(pic, m, at, branch);
    forall x | x in p
      ensures CellOk(p[x])
    {
      CutCell(pic, m, at, branch, x);
    }
  }

  lemma CutCell<H>(pic: Picture<H>, m: RadixNode<H>, at: nat, branch: RadixNode<H>, x: RadixNode<H>)
    requires CellsOk(pic) && m in pic && CellOk(pic[m]) && at <= |pic[m].prefix| && x in Cut(pic, m, at, branch)
    ensures CellOk(Cut(pic, m, at, branch)[x])
  {
    hide DistinctNames, Lits;
    CutText(pic[m].spell, pic[m].prefix, at);
    assert x != m && x != branch ==> CellOk(pic[x]);
  }

  lemma CutUnique<H>(pic: Picture<H>, root: RadixNode<H>, n: RadixNode<H>, i: nat, at: nat, branch: RadixNode<H>)
    requires Trie(pic, root) && n in pic && CutHere(pic, n, i, at, branch)
    ensures var p := Cut(pic, pic[n].kids[i], at, branch);
            Unique(p) && pic[n].kids[i] != root && p[root] == pic[root]
  {
    CutPlace(pic, root, n, i, at, branch);
    var m := pic[n].kids[i];
    var p := Cut(pic, m, at, branch);
    forall x | x in pic && x != m
      ensures p[x].spell == pic[x].spell != p[m].spell
    {
      assert p[m].spell <= pic[x].spell ==> pic[m].spell <= pic[x].spell;
    }
    assert p[branch].spell == pic[m].spell;
  }

  lemma CutIsTrie<H>(pic: Picture<H>, root: RadixNode<H>, n: RadixNode<H>, i: nat, at: nat, branch: RadixNode<H>)
    requires Trie(pic, root) && n in pic && CutHere(pic, n, i, at, branch)
    ensures Trie(Cut(pic, pic[n].kids[i], at, branch), root)
  {
    var p := Cut(pic, pic[n].kids[i], at, branch);
    CutFits(pic, root, n, i, at, branch);
    CutDiffers(pic, root, n, i, at, branch);
    CutUnique(pic, root, n, i, at, branch);
    assert CellOk(pic[pic[n].kids[i]]);
    CutCells(pic, pic[n].kids[i], at, branch);
    forall x, d | x in p && d in p
      ensures Reach(p, x, p[d].spell)
    {
      if p[x].spell < p[d].spell {
        CutReaches(pic, root, n, i, at, branch, x, d);
      }
    }
  }

  // ---------- the registered patterns ----------

  lemma WithKidIsGood<H>(pic: Picture<H>, root: RadixNode<H>, table: Table<H>, n: RadixNode<H>,
                         kid: RadixNode<H>, cell: Cell<H>)
    requires n in pic && Good(pic, root, table, pic[n].spell) && NewKid(pic, n, kid, cell)
    ensures Good(WithKid(pic, n, kid, cell), root, table, cell.spell)
  {
    var p := WithKid(pic, n, kid, cell);
    WithKidIsTrie(pic, root, n, kid, cell);
    assert cell.spell !in table by {
      assert cell.spell in table ==> Spelt(pic, cell.spell);
      assert forall d :: d in pic ==> p[d].spell != p[kid].spell;
    }
    forall t | t in table
      ensures Spelt(p, t)
    {
      assert Spelt(pic, t);
      var d: RadixNode<H> :| d in pic && pic[d].spell == t;
      assert p[d].spell == t;
    }
  }

  lemma CutIsGood<H>(pic: Picture<H>, root: RadixNode<H>, table: Table<H>, n: RadixNode<H>, i: nat, at: nat,
                     branch: RadixNode<H>)
    requires n in pic && Good(pic, root, table, pic[n].spell) && CutHere(pic, n, i, at, branch)
    ensures var p := Cut(pic, pic[n].kids[i], at, branch);
            Good(p, root, table, p[pic[n].kids[i]].spell)
  {
    var m := pic[n].kids[i];
    var p := Cut(pic, m, at, branch);
    CutIsTrie(pic, root, n, i, at, branch);
    CutPlace(pic, root, n, i, at, branch);
    assert p[m].spell !in table by {
      assert p[m].spell in table ==> Spelt(pic, p[m].spell);
    }
    forall t | t in table
      ensures Spelt(p, t)
    {
      assert Spelt(pic, t);
      var d: RadixNode<H> :| d in pic && pic[d].spell == t;
      assert p[if d == m then branch else d].spell == t;
    }
  }

  ghost function WithHandler<H>(pic: Picture<H>, n: RadixNode<H>, h: H): Picture<H>
    requires n in pic
  {
    pic[n := pic[n].(handler := Some(h))]
  }

  lemma WithHandlerIsTrie<H>(pic: Picture<H>, root: RadixNode<H>, n: RadixNode<H>, h: H)
    requires n in pic && Trie(pic, root)
    ensures Trie(WithHandler(pic, n, h), root)
  {
    var p := WithHandler(pic, n, h);
    WithHandlerFits(pic, n, h);
    forall m | m in p
      ensures KidsDiffer(p, m)
    {
      SameHeads(pic, p, m, m);
    }
    forall x, d | x in p && d in p
      ensures Reach(p, x, p[d].spell)
    {
      assert Reach(pic, x, pic[d].spell);
      if p[x].spell < p[d].spell {
        var j :| Leads(pic, x, j, pic[d].spell);
        assert Leads(p, x, j, p[d].spell);
      }
    }
  }

  lemma WithHandlerFits<H>(pic: Picture<H>, n: RadixNode<H>, h: H)
    requires n in pic && KidsFit(pic) && CellsOk(pic)
    ensures KidsFit(WithHandler(pic, n, h)) && CellsOk(WithHandler(pic, n, h))
  {
    var p := WithHandler(pic, n, h);
    forall m | m in p
      ensures CellOk(p[m])
    {
      assert CellOk(pic[m]);
    }
  }

  lemma WithHandlerIsGood<H>(pic: Picture<H>, root: RadixNode<H>, table: Table<H>, n: RadixNode<H>, h: H)
    requires n in pic && Good(pic, root, table, pic[n].spell)
    ensures Good(WithHandler(pic, n, h), root, table[pic[n].spell := h], [])
  {
    var p := WithHandler(pic, n, h);
    var grown := table[pic[n].spell := h];
    WithHandlerIsTrie(pic, root, n, h);
    WithHandlerIsFruitful(pic, table, n, h);
    forall t | t in grown
      ensures Spelt(p, t)
    {
      if t == pic[n].spell {
        assert p[n].spell == t;
      } else {
        assert Spelt(pic, t);
        var d: RadixNode<H> :| d in pic && pic[d].spell == t;
        assert p[d].spell == t;
      }
    }
  }

  lemma WithHandlerIsFruitful<H>(pic: Picture<H>, table: Table<H>, n: RadixNode<H>, h: H)
    requires n in pic && Fruitful(pic, table, pic[n].spell)
    ensures Fruitful(WithHandler(pic, n, h), table[pic[n].spell := h], [])
  {
    var p := WithHandler(pic, n, h);
    var grown := table[pic[n].spell := h];
    forall d | d in p
      ensures OnTheWay(grown, p[d].spell)
    {
      if pic[d].spell <= pic[n].spell {
        assert pic[n].spell in grown;
      } else {
        assert OnTheWay(table, pic[d].spell);
        var t :| t in table && pic[d].spell <= t;
        assert t in grown;
      }
    }
  }

  // ---------- the order of parameter children ----------

  lemma OldKidIsOlder<H>(pic: Picture<H>, root: RadixNode<H>, table: Table<H>, history: seq<Pattern>,
                         n: RadixNode<H>, i: nat)
    requires n in pic && Good(pic, root, table, pic[n].spell) && SamePatterns(table, history)
    requires i < |pic[n].kids|
    ensures First(history, pic[pic[n].kids[i]].spell) < |history|
  {
    var kid := pic[n].kids[i];
    assert pic[kid].spell == pic[n].spell + pic[kid].Label() && pic[kid].Label() != [];
    assert !(pic[kid].spell <= pic[n].spell);
    assert OnTheWay(table, pic[kid].spell);
    var t :| t in table && pic[kid].spell <= t;
    var j :| 0 <= j < |history| && history[j] == t;
  }

  lemma NewKidIsYoungest<H>(pic: Picture<H>, root: RadixNode<H>, table: Table<H>, history: seq<Pattern>,
                            n: RadixNode<H>, kid: RadixNode<H>, cell: Cell<H>)
    requires n in pic && Good(pic, root, table, pic[n].spell) && Aged(pic, table, history)
    requires NewKid(pic, n, kid, cell)
    ensures First(history, cell.spell) == |history|
  {
    hide First, Good, Aged;
    var j := First(history, cell.spell);
    assert |cell.spell| > |pic[n].spell|;
    if j < |history| {
      assert pic[n].spell < history[j] && history[j][|pic[n].spell|] == cell.Label()[0];
      var l := KidTowards(pic, root, table, n, history, j);
    }
  }

  // The children of x in p are as old as those of was in pic, or were younger than all history.
  lemma SameAges<H>(pic: Picture<H>, history: seq<Pattern>, was: RadixNode<H>,
                    p: Picture<H>, more: seq<Pattern>, x: RadixNode<H>)
    requires KidsFit(pic) && was in pic && KidsFit(p) && x in p && |pic[was].kids| == |p[x].kids|
    requires KidsAged(pic, history, was)
    requires forall i {:trigger Age(p, more, x, i)} :: 0 <= i < |p[x].kids| ==>
               var old', new' := Age(pic, history, was, i), Age(p, more, x, i);
               && (new' >= 0 ==> 0 <= old' <= |history| && old' <= new')
               && (old' < |history| ==> new' == old')
    ensures KidsAged(p, more, x)
  {
    hide Age, KidsFit;
  }

  lemma SameKidSameAge<H>(pic: Picture<H>, p: Picture<H>, history: seq<Pattern>, was: RadixNode<H>, x: RadixNode<H>,
                          i: int)
    requires KidsFit(pic) && was in pic && KidsFit(p) && x in p && 0 <= i < |pic[was].kids| && i < |p[x].kids|
    requires p[p[x].kids[i]].kind == pic[pic[was].kids[i]].kind
    requires pic[pic[was].kids[i]].kind != NoKind ==> p[p[x].kids[i]].spell == pic[pic[was].kids[i]].spell
    ensures Age(p, history, x, i) == Age(pic, history, was, i) <= |history|
  {
    hide First;
  }

  lemma WithKidIsAged<H>(pic: Picture<H>, root: RadixNode<H>, table: Table<H>, history: seq<Pattern>,
                         n: RadixNode<H>, kid: RadixNode<H>, cell: Cell<H>)
    requires n in pic && Good(pic, root, table, pic[n].spell) && Aged(pic, table, history)
    requires NewKid(pic, n, kid, cell) && KidsFit(WithKid(pic, n, kid, cell))
    ensures Aged(WithKid(pic, n, kid, cell), table, history)
  {
    var p := WithKid(pic, n, kid, cell);
    forall m | m in p
      ensures KidsAged(p, history, m)
    {
      if m == n {
        NewKidAged(pic, root, table, history, n, kid, cell);
      } else if m != kid {
        assert KidsAged(pic, history, m);
        forall i | 0 <= i < |p[m].kids|
          ensures Age(p, history, m, i) == Age(pic, history, m, i) <= |history|
        {
          SameKidSameAge(pic, p, history, m, m, i);
        }
        SameAges(pic, history, m, p, history, m);
      }
    }
  }

  lemma NewKidAged<H>(pic: Picture<H>, root: RadixNode<H>, table: Table<H>, history: seq<Pattern>,
                      n: RadixNode<H>, kid: RadixNode<H>, cell: Cell<H>)
    requires n in pic && Good(pic, root, table, pic[n].spell) && Aged(pic, table, history)
    requires NewKid(pic, n, kid, cell) && KidsFit(WithKid(pic, n, kid, cell))
    ensures KidsAged(WithKid(pic, n, kid, cell), history, n)
  {
    var p := WithKid(pic, n, kid, cell);
    var last := |pic[n].kids|;
    assert KidsAged(pic, history, n);
    forall i | 0 <= i < last
      ensures Age(p, history, n, i) == Age(pic, history, n, i) < |history|
    {
      OldKidIsOlder(pic, root, table, history, n, i);
      SameKidSameAge(pic, p, history, n, n, i);
    }
    NewKidIsYoungest(pic, root, table, history, n, kid, cell);
    assert Age(p, history, n, last) == if cell.kind.NoKind? then -1 else |history|;
    hide Age, KidsFit;
  }

  lemma CutIsAged<H>(pic: Picture<H>, root: RadixNode<H>, table: Table<H>, history: seq<Pattern>,
                     n: RadixNode<H>, i: nat, at: nat, branch: RadixNode<H>)
    requires Trie(pic, root) && n in pic && CutHere(pic, n, i, at, branch) && Aged(pic, table, history)
    requires at <= |pic[pic[n].kids[i]].prefix| <= |pic[pic[n].kids[i]].spell|
    requires KidsFit(Cut(pic, pic[n].kids[i], at, branch))
    ensures Aged(Cut(pic, pic[n].kids[i], at, branch), table, history)
  {
    hide First;
    var m := pic[n].kids[i];
    var p := Cut(pic, m, at, branch);
    forall x | x in p
      ensures KidsAged(p, history, x)
    {
      if x != m {
        var was := if x == branch then m else x;
        assert KidsAged(pic, history, was);
        forall j | 0 <= j < |p[x].kids|
          ensures Age(p, history, x, j) == Age(pic, history, was, j) <= |history|
        {
          SameKidSameAge(pic, p, history, was, x, j);
        }
        SameAges(pic, history, was, p, history, x);
      }
    }
  }

  lemma OneMoreRegistration(history: seq<Pattern>, full: Pattern, spell: Pattern)
    ensures First(history + [full], spell) >= First(history, spell)
    ensures First(history, spell) < |history| ==> First(history + [full], spell) == First(history, spell)
  {
    var more := history + [full];
    assert forall j :: 0 <= j < |history| ==> more[j] == history[j];
  }

  lemma WithHandlerIsAged<H>(pic: Picture<H>, table: Table<H>, history: seq<Pattern>, n: RadixNode<H>, h: H)
    requires n in pic && KidsFit(pic) && Aged(pic, table, history) && KidsFit(WithHandler(pic, n, h))
    ensures Aged(WithHandler(pic, n, h), table[pic[n].spell := h], history + [pic[n].spell])
  {
    hide First;
    var p, more := WithHandler(pic, n, h), history + [pic[n].spell];
    forall m | m in p
      ensures KidsAged(p, more, m)
    {
      assert KidsAged(pic, history, m);
      forall i | 0 <= i < |p[m].kids|
        ensures var old', new' := Age(pic, history, m, i), Age(p, more, m, i);
                && (new' >= 0 ==> 0 <= old' <= |history| && old' <= new')
                && (old' < |history| ==> new' == old')
      {
        OneMoreRegistration(history, pic[n].spell, pic[pic[m].kids[i]].spell);
      }
      SameAges(pic, history, m, p, more, m);
    }
  }

  // ---------- conflicts ----------

  ghost predicate ClashesAt(t: Pattern, full: Pattern, k: int) {
    0 <= k < |t| && k < |full| && t[..k] == full[..k] && Clash(t[k], full[k])
  }

  // Up to position at, the pattern clashes with no registered pattern that starts like it.
  ghost predicate Clear<H>(table: Table<H>, full: Pattern, at: nat)
    requires at <= |full|
  {
    forall t, k {:trigger ClashesAt(t, full, k)} :: t in table && k < at ==> !ClashesAt(t, full, k)
  }

  ghost predicate Conflicts<H>(table: Table<H>, full: Pattern) {
    !Clear(table, full, |full|)
  }

  lemma ClearStep<H>(pic: Picture<H>, root: RadixNode<H>, table: Table<H>, n: RadixNode<H>, full: Pattern)
    requires n in pic && Good(pic, root, table, pic[n].spell)
    requires pic[n].spell < full && Clear(table, full, |pic[n].spell|)
    requires forall i :: 0 <= i < |pic[n].kids| ==>
               !Clash(pic[pic[n].kids[i]].Label()[0], full[|pic[n].spell|])
    ensures Clear(table, full, |pic[n].spell| + 1)
  {
    var at := |pic[n].spell|;
    forall t | t in table && at < |t| && t[..at] == full[..at]
      ensures !ClashesAt(t, full, at)
    {
      assert Spelt(pic, t);
      var d: RadixNode<H> :| d in pic && pic[d].spell == t;
      assert pic[n].spell < t;
      assert Reach(pic, n, pic[d].spell);
      var i :| Leads(pic, n, i, t);
      LeadsToken(pic, n, i, t);
    }
  }

  lemma ClashIsConflict<H>(pic: Picture<H>, root: RadixNode<H>, table: Table<H>, n: RadixNode<H>, full: Pattern, i: nat)
    requires n in pic && Good(pic, root, table, pic[n].spell)
    requires pic[n].spell < full && i < |pic[n].kids|
    requires Clash(pic[pic[n].kids[i]].Label()[0], full[|pic[n].spell|])
    ensures Conflicts(table, full)
  {
    var at := |pic[n].spell|;
    var kid := pic[n].kids[i];
    assert pic[kid].spell == pic[n].spell + pic[kid].Label();
    assert OnTheWay(table, pic[kid].spell);
    var t :| t in table && pic[kid].spell <= t;
    assert t[at] == pic[kid].Label()[0];
    assert t[..at] == full[..at];
    assert ClashesAt(t, full, at);
  }

  // At the first place where any registered pattern clashes, the i-th was the first to do so.
  ghost predicate FirstClash(history: seq<Pattern>, full: Pattern, i: int, k: int) {
    && 0 <= i < |history| && ClashesAt(history[i], full, k)
    && forall j, m {:trigger ClashesAt(history[j], full, m)} ::
         0 <= j < |history| && ClashesAt(history[j], full, m) ==> k < m || (k == m && i <= j)
  }

  // That pattern tells what the conflict is: one name for two types, or two names for one type.
  ghost predicate ConflictIs(history: seq<Pattern>, full: Pattern, why: Rejection) {
    exists i, k ::
      FirstClash(history, full, i, k)
      && why == if history[i][k].name == full[k].name then ConflictingTypes else ConflictingNames
  }

  // The first child that clashes leads to the first registered pattern that does.
  lemma ClashingKid<H>(pic: Picture<H>, root: RadixNode<H>, table: Table<H>, history: seq<Pattern>,
                       n: RadixNode<H>, full: Pattern, i: nat)
    requires n in pic && Good(pic, root, table, pic[n].spell) && Aged(pic, table, history)
    requires pic[n].spell < full && Clear(table, full, |pic[n].spell|) && i < |pic[n].kids|
    requires Clash(pic[pic[n].kids[i]].Label()[0], full[|pic[n].spell|])
    requires forall j :: 0 <= j < i ==> Differ(pic[pic[n].kids[j]].Label()[0], full[|pic[n].spell|])
    ensures var kid := pic[pic[n].kids[i]];
            FirstClash(history, full, First(history, kid.spell), |pic[n].spell|)
            && history[First(history, kid.spell)][|pic[n].spell|] == kid.Label()[0]
  {
    hide First, HandlersRight, AllSpelt, AllAged, SiblingsDiffer, Unique, Reaches, CellsOk, Fruitful;
    var at := |pic[n].spell|;
    var kid := pic[pic[n].kids[i]];
    KidIsRegistered(pic, root, table, history, n, i);
    var first := First(history, kid.spell);
    assert history[first][at] == kid.Label()[0] && history[first][..at] == full[..at];
    forall j, m | 0 <= j < |history| && ClashesAt(history[j], full, m)
      ensures at < m || (at == m && first <= j)
    {
      if m == at {
        assert pic[n].spell < history[j];
        ClashesLater(pic, root, table, history, n, full, i, j);
      }
    }
  }

  lemma KidConflicts<H>(pic: Picture<H>, root: RadixNode<H>, table: Table<H>, history: seq<Pattern>,
                        n: RadixNode<H>, full: Pattern, i: nat)
    requires n in pic && Good(pic, root, table, pic[n].spell) && Aged(pic, table, history)
    requires pic[n].spell < full && Clear(table, full, |pic[n].spell|) && i < |pic[n].kids|
    requires Clash(pic[pic[n].kids[i]].Label()[0], full[|pic[n].spell|])
    requires forall j :: 0 <= j < i ==> Differ(pic[pic[n].kids[j]].Label()[0], full[|pic[n].spell|])
    ensures Conflicts(table, full)
    ensures var same := pic[pic[n].kids[i]].name == full[|pic[n].spell|].name;
            ConflictIs(history, full, if same then ConflictingTypes else ConflictingNames)
  {
    ClashIsConflict(pic, root, table, n, full, i);
    ClashingKid(pic, root, table, history, n, full, i);
  }

  // Some registered pattern starts like a parameter child.
  lemma KidIsRegistered<H>(pic: Picture<H>, root: RadixNode<H>, table: Table<H>, history: seq<Pattern>,
                           n: RadixNode<H>, i: nat)
    requires n in pic && Good(pic, root, table, pic[n].spell) && Aged(pic, table, history)
    requires i < |pic[n].kids| && !pic[pic[n].kids[i]].kind.NoKind?
    ensures var kid := pic[pic[n].kids[i]];
            && kid.spell == pic[n].spell + [kid.Label()[0]] && First(history, kid.spell) < |history|
  {
    hide AllAged;
    var kid := pic[pic[n].kids[i]];
    assert kid.spell == pic[n].spell + kid.Label();
    assert OnTheWay(table, kid.spell);
  }

  // A registered pattern that clashes here hangs below the i-th child or a later one.
  lemma ClashesLater<H>(pic: Picture<H>, root: RadixNode<H>, table: Table<H>, history: seq<Pattern>,
                        n: RadixNode<H>, full: Pattern, i: nat, j: nat)
    requires n in pic && Good(pic, root, table, pic[n].spell) && Aged(pic, table, history)
    requires pic[n].spell < full && i < |pic[n].kids| && j < |history|
    requires Clash(pic[pic[n].kids[i]].Label()[0], full[|pic[n].spell|])
    requires ClashesAt(history[j], full, |pic[n].spell|)
    requires forall l :: 0 <= l < i ==> Differ(pic[pic[n].kids[l]].Label()[0], full[|pic[n].spell|])
    requires pic[n].spell < history[j] && KidsFit(pic)
    ensures First(history, pic[pic[n].kids[i]].spell) <= j
  {
    hide First, Good, Aged;
    var l := KidTowards(pic, root, table, n, history, j);
    var kid := pic[pic[n].kids[l]];
    assert i <= l;
    FirstIsEarlier(history, kid.spell, j);
    if i < l {
      KidsInOrder(pic, table, history, n, i, l);
    }
  }

  lemma FirstIsEarlier(history: seq<Pattern>, spell: Pattern, j: nat)
    requires j < |history| && spell <= history[j]
    ensures First(history, spell) <= j
  {
  }

  lemma KidsInOrder<H>(pic: Picture<H>, table: Table<H>, history: seq<Pattern>, n: RadixNode<H>, i: nat, l: nat)
    requires n in pic && KidsFit(pic) && Aged(pic, table, history) && i < l < |pic[n].kids|
    requires !pic[pic[n].kids[i]].kind.NoKind? && !pic[pic[n].kids[l]].kind.NoKind?
    ensures First(history, pic[pic[n].kids[i]].spell) < First(history, pic[pic[n].kids[l]].spell)
  {
    hide First, KidsFit;
    assert KidsAged(pic, history, n);
    assert Age(pic, history, n, i) >= 0 && Age(pic, history, n, l) >= 0;
  }

  // The child below which the j-th registered pattern hangs.
  lemma KidTowards<H>(pic: Picture<H>, root: RadixNode<H>, table: Table<H>, n: RadixNode<H>,
                      history: seq<Pattern>, j: nat) returns (l: nat)
    requires n in pic && Good(pic, root, table, pic[n].spell) && Aged(pic, table, history)
    requires j < |history| && pic[n].spell < history[j]
    ensures l < |pic[n].kids|
    ensures var kid := pic[pic[n].kids[l]];
            kid.spell <= history[j] && kid.Label() != [] && kid.Label()[0] == history[j][|pic[n].spell|]
  {
    hide First, AllAged;
    var u := history[j];
    assert u in table && Spelt(pic, u);
    var d: RadixNode<H> :| d in pic && pic[d].spell == u;
    assert Reach(pic, n, pic[d].spell);
    l :| Leads(pic, n, l, u);
    LeadsToken(pic, n, l, u);
  }

  lemma ClearLits<H>(table: Table<H>, full: Pattern, at: nat, to: nat)
    requires at <= to <= |full| && Clear(table, full, at)
    requires forall k :: at <= k < to ==> full[k].Lit?
    ensures Clear(table, full, to)
  {
  }

  // ---------- searching a trie ----------

  // Where a and b first part, a goes on with a literal and b with a parameter, or both with a
  // parameter and a's was registered first.
  ghost predicate PreferredAt(history: seq<Pattern>, a: Pattern, b: Pattern, k: int) {
    && PartAt(a, b, k) && b[k].Param?
    && (a[k].Lit? || First(history, a[..k + 1]) < First(history, b[..k + 1]))
  }

  ghost predicate Preferred(history: seq<Pattern>, a: Pattern, b: Pattern) {
    exists k :: PreferredAt(history, a, b, k)
  }

  // d has a handler, hangs below front, and the part of its pattern from position at fits s.
  ghost predicate Candidate<H>(pic: Picture<H>, d: RadixNode<H>, front: Pattern, at: nat, s: string) {
    && d in pic && pic[d].handler.Some? && front <= pic[d].spell && at <= |front|
    && Fit(pic[d].spell[at..], s).Some?
  }

  ghost predicate NoCandidate<H>(pic: Picture<H>, front: Pattern, at: nat, s: string) {
    forall d {:trigger Candidate(pic, d, front, at, s)} :: d in pic ==> !Candidate(pic, d, front, at, s)
  }

  ghost predicate Best<H>(pic: Picture<H>, history: seq<Pattern>, found: RadixNode<H>, front: Pattern, at: nat,
                          s: string) {
    && Candidate(pic, found, front, at, s)
    && forall d {:trigger Candidate(pic, d, front, at, s)} ::
         d in pic && d != found && Candidate(pic, d, front, at, s) ==>
           Preferred(history, pic[found].spell, pic[d].spell)
  }

  // The outcome of a search: the best candidate and its captures, or none.
  ghost predicate Outcome<H>(pic: Picture<H>, history: seq<Pattern>, found: RadixNode?<H>,
                             captures: map<string, string>, front: Pattern, at: nat, s: string) {
    if found == null then NoCandidate(pic, front, at, s) && captures == map[]
    else Best(pic, history, found, front, at, s) && Fit(pic[found].spell[at..], s) == Some(captures)
  }

  // Matching the text of a literal node first, and then what hangs below.
  lemma TextStep<H>(pic: Picture<H>, n: RadixNode<H>, d: RadixNode<H>, s: string)
    requires n in pic && CellsOk(pic) && d in pic && pic[n].spell <= pic[d].spell
    ensures var at := |pic[n].spell| - |pic[n].prefix|;
            CellOk(pic[n]) &&
            Fit(pic[d].spell[at..], s) ==
              if pic[n].prefix <= s then Fit(pic[d].spell[|pic[n].spell|..], s[|pic[n].prefix|..]) else None
  {
    assert CellOk(pic[n]);
    var at, end := |pic[n].spell| - |pic[n].prefix|, |pic[n].spell|;
    var whole, below := pic[d].spell[at..], pic[d].spell[end..];
    assert pic[d].spell[at..end] == pic[n].spell[at..];
    assert whole == Lits(pic[n].prefix) + below;
    FitLits(pic[n].prefix, below, s);
  }

  lemma TextOutcome<H>(pic: Picture<H>, history: seq<Pattern>, n: RadixNode<H>, s: string, found: RadixNode?<H>,
                       captures: map<string, string>)
    requires n in pic && CellsOk(pic) && CellOk(pic[n]) && pic[n].prefix <= s
    requires Outcome(pic, history, found, captures, pic[n].spell, |pic[n].spell|, s[|pic[n].prefix|..])
    ensures Outcome(pic, history, found, captures, pic[n].spell, |pic[n].spell| - |pic[n].prefix|, s)
  {
    var at, rest := |pic[n].spell| - |pic[n].prefix|, s[|pic[n].prefix|..];
    forall d | d in pic && pic[n].spell <= pic[d].spell
      ensures Fit(pic[d].spell[at..], s) == Fit(pic[d].spell[|pic[n].spell|..], rest)
      ensures Candidate(pic, d, pic[n].spell, at, s) <==> Candidate(pic, d, pic[n].spell, |pic[n].spell|, rest)
    {
      TextStep(pic, n, d, s);
    }
  }

  lemma TextMismatch<H>(pic: Picture<H>, n: RadixNode<H>, s: string)
    requires n in pic && CellsOk(pic) && CellOk(pic[n]) && !(pic[n].prefix <= s)
    ensures NoCandidate(pic, pic[n].spell, |pic[n].spell| - |pic[n].prefix|, s)
  {
    forall d | d in pic && pic[n].spell <= pic[d].spell
      ensures !Candidate(pic, d, pic[n].spell, |pic[n].spell| - |pic[n].prefix|, s)
    {
      TextStep(pic, n, d, s);
    }
  }

  // At the end of the path only the node itself fits.
  lemma EndOutcome<H>(pic: Picture<H>, history: seq<Pattern>, n: RadixNode<H>)
    requires n in pic && Unique(pic)
    ensures Outcome(pic, history, if pic[n].handler.Some? then n else null, map[], pic[n].spell, |pic[n].spell|, "")
  {
    var at := |pic[n].spell|;
    forall d | d in pic && Candidate(pic, d, pic[n].spell, at, "")
      ensures d == n
    {
      assert pic[d].spell[at..] == [];
      assert pic[d].spell == pic[n].spell;
    }
    assert pic[n].spell[at..] == [];
  }

  // Before the end of the path only what hangs below a child fits.
  lemma NotItself<H>(pic: Picture<H>, n: RadixNode<H>, d: RadixNode<H>, s: string)
    requires n in pic && KidsFit(pic) && Reaches(pic) && s != ""
    requires d in pic && Candidate(pic, d, pic[n].spell, |pic[n].spell|, s)
    ensures pic[n].spell < pic[d].spell && exists i :: Leads(pic, n, i, pic[d].spell)
  {
    assert Fit([], s).None?;
    assert Reach(pic, n, pic[d].spell);
  }

  ghost predicate KidFails<H>(pic: Picture<H>, n: RadixNode<H>, i: int, s: string)
    requires n in pic && KidsFit(pic)
  {
    0 <= i < |pic[n].kids| ==> NoCandidate(pic, pic[pic[n].kids[i]].spell, |pic[n].spell|, s)
  }

  lemma NoKidOutcome<H>(pic: Picture<H>, n: RadixNode<H>, s: string)
    requires n in pic && KidsFit(pic) && Reaches(pic) && s != ""
    requires forall i {:trigger KidFails(pic, n, i, s)} :: 0 <= i < |pic[n].kids| ==> KidFails(pic, n, i, s)
    ensures NoCandidate(pic, pic[n].spell, |pic[n].spell|, s)
  {
    forall d | d in pic && Candidate(pic, d, pic[n].spell, |pic[n].spell|, s)
      ensures false
    {
      NotItself(pic, n, d, s);
      var i :| Leads(pic, n, i, pic[d].spell);
      assert KidFails(pic, n, i, s);
      assert Candidate(pic, d, pic[pic[n].kids[i]].spell, |pic[n].spell|, s);
    }
  }

  // Every child that goes before the j-th fails: the literals, and the earlier parameters.
  ghost predicate EarlierFail<H>(pic: Picture<H>, n: RadixNode<H>, j: int, s: string)
    requires n in pic && KidsFit(pic)
  {
    forall i {:trigger KidFails(pic, n, i, s)} ::
      0 <= i < |pic[n].kids| && (i < j || pic[pic[n].kids[i]].kind.NoKind?) ==> KidFails(pic, n, i, s)
  }

  // The best below a child is the best below its parent, if the child is a literal or all that go
  // before it fail.
  lemma KidIsBest<H>(pic: Picture<H>, history: seq<Pattern>, n: RadixNode<H>, j: nat, s: string, found: RadixNode<H>)
    requires n in pic && KidsFit(pic) && SiblingsDiffer(pic) && Reaches(pic) && KidsAged(pic, history, n)
    requires s != "" && j < |pic[n].kids|
    requires Best(pic, history, found, pic[pic[n].kids[j]].spell, |pic[n].spell|, s)
    requires pic[pic[n].kids[j]].kind.NoKind? || EarlierFail(pic, n, j, s)
    ensures Best(pic, history, found, pic[n].spell, |pic[n].spell|, s)
  {
    var at, kid := |pic[n].spell|, pic[n].kids[j];
    forall d | d in pic && d != found && Candidate(pic, d, pic[n].spell, at, s)
      ensures Preferred(history, pic[found].spell, pic[d].spell)
    {
      NotItself(pic, n, d, s);
      var i :| Leads(pic, n, i, pic[d].spell);
      if i == j {
        assert Candidate(pic, d, pic[kid].spell, at, s);
      } else {
        OtherKidLoses(pic, history, n, j, i, s, found, d);
      }
    }
  }

  lemma OtherKidLoses<H>(pic: Picture<H>, history: seq<Pattern>, n: RadixNode<H>, j: nat, i: nat, s: string,
                         found: RadixNode<H>, d: RadixNode<H>)
    requires n in pic && KidsFit(pic) && SiblingsDiffer(pic) && KidsAged(pic, history, n)
    requires j < |pic[n].kids| && i != j && found in pic && pic[pic[n].kids[j]].spell <= pic[found].spell
    requires Fit(pic[found].spell[|pic[n].spell|..], s).Some?
    requires d in pic && Candidate(pic, d, pic[n].spell, |pic[n].spell|, s) && Leads(pic, n, i, pic[d].spell)
    requires pic[pic[n].kids[j]].kind.NoKind? || EarlierFail(pic, n, j, s)
    ensures Preferred(history, pic[found].spell, pic[d].spell)
  {
    var at := |pic[n].spell|;
    var other, kid := pic[pic[n].kids[i]], pic[pic[n].kids[j]];
    var a, b := pic[found].spell, pic[d].spell;
    LeadsToken(pic, n, i, b);
    LeadsToken(pic, n, j, a);
    assert KidsDiffer(pic, n);
    assert PartAt(a, b, at);
    assert a[at..][0] == a[at] && b[at..][0] == b[at];
    if !kid.kind.NoKind? {
      if other.kind.NoKind? || i < j {
        assert KidFails(pic, n, i, s);
        assert Candidate(pic, d, other.spell, at, s);
      }
      assert Age(pic, history, n, j) < Age(pic, history, n, i);
      assert a[..at + 1] == kid.spell && b[..at + 1] == other.spell;
    }
    assert PreferredAt(history, a, b, at);
  }

  // Matching a parameter child: its capture first, and then what hangs below.
  lemma CaptureStep<H>(pic: Picture<H>, n: RadixNode<H>, j: nat, d: RadixNode<H>, s: string)
    requires n in pic && KidsFit(pic) && j < |pic[n].kids| && pic[pic[n].kids[j]].kind != NoKind
    requires d in pic && pic[pic[n].kids[j]].spell <= pic[d].spell
    ensures var kid := pic[pic[n].kids[j]];
            var k := Span(kid.kind, s);
            var below := Fit(pic[d].spell[|pic[n].spell| + 1..], s[k..]);
            Fit(pic[d].spell[|pic[n].spell|..], s) ==
              if k == 0 || below.None? then None else Some(below.value[kid.name := s[..k]])
  {
    var at := |pic[n].spell|;
    LeadsToken(pic, n, j, pic[d].spell);
    var ts := pic[d].spell[at..];
    assert ts[1..] == pic[d].spell[at + 1..];
  }

  lemma NoCapture<H>(pic: Picture<H>, n: RadixNode<H>, j: nat, s: string)
    requires n in pic && KidsFit(pic) && j < |pic[n].kids| && pic[pic[n].kids[j]].kind != NoKind
    requires Span(pic[pic[n].kids[j]].kind, s) == 0
    ensures KidFails(pic, n, j, s)
  {
    forall d | d in pic && pic[pic[n].kids[j]].spell <= pic[d].spell
      ensures !Candidate(pic, d, pic[pic[n].kids[j]].spell, |pic[n].spell|, s)
    {
      CaptureStep(pic, n, j, d, s);
    }
  }

  lemma CaptureOutcome<H>(pic: Picture<H>, history: seq<Pattern>, n: RadixNode<H>, j: nat, s: string,
                          found: RadixNode?<H>, captures: map<string, string>)
    requires n in pic && KidsFit(pic) && j < |pic[n].kids| && pic[pic[n].kids[j]].kind != NoKind
    requires var kid := pic[pic[n].kids[j]];
             Span(kid.kind, s) > 0 &&
             Outcome(pic, history, found, captures, kid.spell, |pic[n].spell| + 1, s[Span(kid.kind, s)..])
    ensures var kid := pic[pic[n].kids[j]];
            if found == null then KidFails(pic, n, j, s)
            else Best(pic, history, found, kid.spell, |pic[n].spell|, s) &&
                 Fit(pic[found].spell[|pic[n].spell|..], s) == Some(captures[kid.name := s[..Span(kid.kind, s)]])
  {
    var kid := pic[pic[n].kids[j]];
    var at, rest := |pic[n].spell|, s[Span(kid.kind, s)..];
    assert |kid.spell| == at + 1;
    forall d | d in pic && kid.spell <= pic[d].spell
      ensures Candidate(pic, d, kid.spell, at, s) <==> Candidate(pic, d, kid.spell, at + 1, rest)
    {
      CaptureStep(pic, n, j, d, s);
    }
    if found != null {
      CaptureStep(pic, n, j, found, s);
    }
  }

  // ---------- the tree ----------

  datatype RouteMatch<H> = RouteMatch(handler: H, params: map<string, string>)

  // What a plain list of registered patterns answers for a path: nothing if no pattern fits it,
  // and otherwise the handler and the captures of the one that is preferred to all others that fit.
  ghost predicate Answers<H>(table: Table<H>, history: seq<Pattern>, path: string, answer: Option<RouteMatch<H>>) {
    match answer
    case None => forall t :: t in table ==> Fit(t, path).None?
    case Some(found) => exists t :: Winner(table, history, t, path) && found == RouteMatch(table[t], Fit(t, path).value)
  }

  ghost predicate Winner<H>(table: Table<H>, history: seq<Pattern>, t: Pattern, path: string) {
    && t in table && Fit(t, path).Some?
    && forall u :: u in table && u != t && Fit(u, path).Some? ==> Preferred(history, t, u)
  }

  // Of two patterns at most one is preferred to the other, so there is one winner.
  lemma OnePreferred(history: seq<Pattern>, a: Pattern, b: Pattern)
    requires Preferred(history, a, b)
    ensures !Preferred(history, b, a)
  {
    var k :| PreferredAt(history, a, b, k);
    forall j | PartAt(b, a, j)
      ensures j == k
    {
    }
  }

  lemma OneWinner<H>(table: Table<H>, history: seq<Pattern>, t: Pattern, u: Pattern, path: string)
    requires Winner(table, history, t, path) && Winner(table, history, u, path)
    ensures t == u
  {
    if t != u {
      OnePreferred(history, t, u);
    }
  }

  // A path that is itself registered, as a pattern without parameters, is always answered by it.
  lemma ExactPathWins<H>(table: Table<H>, history: seq<Pattern>, path: string, answer: Option<RouteMatch<H>>)
    requires Answers(table, history, path, answer) && Lits(path) in table
    ensures answer == Some(RouteMatch(table[Lits(path)], map[]))
  {
    FitLits(path, [], path);
    assert Lits(path) + [] == Lits(path);
    if answer.Some? {
      var t :| Winner(table, history, t, path) && answer.value == RouteMatch(table[t], Fit(t, path).value);
      assert t != Lits(path) ==> Preferred(history, t, Lits(path));
    }
  }

  // A pattern does not answer where another one that fits goes on with a literal instead of its
  // parameter, or with a parameter that was registered before.
  lemma OthersLose<H>(table: Table<H>, history: seq<Pattern>, path: string, t: Pattern, u: Pattern, k: int)
    requires t in table && Fit(t, path).Some? && PartAt(t, u, k) && u[k].Param?
    requires t[k].Lit? || First(history, t[..k + 1]) < First(history, u[..k + 1])
    ensures !Winner(table, history, u, path)
  {
    forall j | PartAt(u, t, j)
      ensures j == k
    {
    }
  }

  // A plain list of registered patterns: their handlers, and the accepted registrations in order.
  datatype Book<!H> = Book(table: Table<H>, history: seq<Pattern>)

  // Why a registration is refused, or None.
  ghost predicate Refuses<H>(book: Book<H>, path: string, h: Option<H>, why: Option<Rejection>) {
    if path == "" || path[0] != '/' then why == Some(NotAbsolute)
    else if h.None? then why == Some(NoHandler)
    else match Parse(path, {})
      case Err(e) => why == Some(e)
      case Ok(full) =>
        if Conflicts(book.table, full) then why.Some? && ConflictIs(book.history, full, why.value)
        else why == None
  }

  // A registration needs an absolute path first and then a handler, and only after that the pattern
  // counts.
  lemma RefusalsInOrder<H>(book: Book<H>, path: string, h: Option<H>, why: Option<Rejection>)
    requires Refuses(book, path, h, why)
    ensures why == Some(NotAbsolute) <==> !("/" <= path)
    ensures why == Some(NoHandler) <==> "/" <= path && h.None?
    ensures why.None? <==> "/" <= path && h.Some? && Parse(path, {}).Ok? && !Conflicts(book.table, Parse(path, {}).value)
    ensures why != Some(Frozen)
  {
    if "/" <= path && Parse(path, {}).Err? {
      var at, ts := FirstFault(path, {});
    }
  }

  // No child of n can clash with, or share text with, what comes next.
  ghost predicate Bare<H>(pic: Picture<H>, n: RadixNode<H>, next: string)
    requires n in pic && KidsFit(pic)
  {
    forall i :: 0 <= i < |pic[n].kids| ==>
      var kid := pic[pic[n].kids[i]];
      kid.kind.NoKind? && (next != "" && next[0] != '<' ==> kid.prefix[0] != next[0])
  }

  class RadixTree<H> {
    const root: RadixNode<H>
    ghost var pic: Picture<H>
    ghost var table: Table<H>
    ghost var history: seq<Pattern> // the patterns of the accepted registrations, in their order

    ghost predicate Holds(n: RadixNode<H>, cell: Cell<H>)
      reads n
    {
      && n.prefix == cell.prefix && n.children == cell.kids && n.handler == cell.handler
      && n.kind == cell.kind && n.name == cell.name
    }

    ghost predicate Mirrors()
      reads this, pic.Keys
    {
      forall n {:trigger Holds(n, pic[n])} :: n in pic ==> Holds(n, pic[n])
    }

    ghost predicate At(tip: Pattern)
      reads this, pic.Keys
    {
      Good(pic, root, table, tip) && Aged(pic, table, history) && Mirrors()
    }

    ghost predicate Valid()
      reads this, pic.Keys
    {
      At([])
    }

    ghost function Record(): Book<H>
      reads this
    {
      Book(table, history)
    }

    constructor ()
      ensures Valid() && table == map[] && history == [] && fresh(pic.Keys)
    {
      var node := new RadixNode<H>("", NoKind, "");
      root := node;
      pic := map[node := Cell("", [], None, NoKind, "", [])];
      table, history := map[], [];
    }

    // Appends a new child to a node.
    method AddKid(n: RadixNode<H>, prefix: string, kind: Kind, name: string)
      returns (kid: RadixNode<H>)
      requires n in pic && At(pic[n].spell)
      requires kind.NoKind? <==> prefix != ""
      requires DistinctNames(pic[n].spell + LabelOf(prefix, kind, name))
      requires forall i :: 0 <= i < |pic[n].kids| ==>
                 Differ(pic[pic[n].kids[i]].Label()[0], LabelOf(prefix, kind, name)[0])
      modifies this`pic, n`children
      ensures kid in pic && At(pic[kid].spell) && fresh(kid) && pic.Keys == old(pic.Keys) + {kid}
      ensures pic[kid].kids == []
      ensures pic[kid].spell == old(pic[n].spell) + LabelOf(prefix, kind, name)
    {
      kid := new RadixNode<H>(prefix, kind, name);
      ghost var cell := Cell(prefix, [], None, kind, name, pic[n].spell + LabelOf(prefix, kind, name));
      assert NewKid(pic, n, kid, cell);
      WithKidIsGood(pic, root, table, n, kid, cell);
      WithKidIsAged(pic, root, table, history, n, kid, cell);
      assert Holds(n, pic[n]);
      n.children := n.children + [kid];
      pic := WithKid(pic, n, kid, cell);
    }

    // Cuts the text of n's i-th child in two.
    method Split(n: RadixNode<H>, i: nat, at: nat)
      returns (front: RadixNode<H>)
      requires n in pic && At(pic[n].spell) && i < |pic[n].kids|
      requires var m := pic[pic[n].kids[i]]; m.kind.NoKind? && 0 < at < |m.prefix|
      modifies this`pic, pic.Keys
      ensures front == old(pic[n].kids[i]) && front in pic && At(pic[front].spell)
      ensures pic.Keys > old(pic.Keys) && fresh(pic.Keys - old(pic.Keys))
      ensures var was := old(pic)[front];
              && pic[front].spell == old(pic[n].spell) + Lits(was.prefix[..at])
              && |pic[front].kids| == 1
              && var kid := pic[pic[front].kids[0]]; kid.kind.NoKind? && kid.prefix == was.prefix[at..]
    {
      hide HandlersRight, AllSpelt, Fruitful, AllAged, SiblingsDiffer, Unique, Reaches, First;
      assert Holds(n, pic[n]);
      front := n.children[i];
      assert Holds(front, pic[front]);
      var branch := new RadixNode<H>(front.prefix[at..], NoKind, "");
      assert CutHere(pic, n, i, at, branch);
      CutPlace(pic, root, n, i, at, branch);
      CutIsGood(pic, root, table, n, i, at, branch);
      CutIsAged(pic, root, table, history, n, i, at, branch);
      branch.children, branch.handler := front.children, front.handler;
      front.prefix, front.children, front.handler := front.prefix[..at], [branch], None;
      pic := Cut(pic, front, at, branch);
      assert Holds(branch, pic[branch]) && Holds(front, pic[front]);
    }

    // One parameter of a pattern: the child that stands for it, found or appended, or why it
    // cannot be.
    method StepParameter(n: RadixNode<H>, kind: Kind, name: string, ghost full: Pattern)
      returns (next: RadixNode<H>, why: Option<Rejection>)
      requires n in pic && At(pic[n].spell) && pic[n].spell < full && DistinctNames(full)
      requires full[|pic[n].spell|] == Param(kind, name) && kind != NoKind
      requires Clear(table, full, |pic[n].spell|)
      modifies this`pic, n`children
      ensures why.None? ==>
                && next in pic && At(pic[next].spell)
                && pic[next].spell == full[..|old(pic[n].spell)| + 1]
                && Clear(table, full, |pic[next].spell|)
                && (pic == old(pic) || pic[next].kids == [])
      ensures why.Some? ==> pic == old(pic) && n.children == old(n.children) && Conflicts(table, full)
      ensures why.Some? ==> ConflictIs(history, full, why.value)
      ensures (forall i :: 0 <= i < |old(pic)[n].kids| ==> old(pic)[old(pic)[n].kids[i]].kind.NoKind?) ==>
                why.None? && pic[next].kids == []
      ensures pic.Keys >= old(pic.Keys) && fresh(pic.Keys - old(pic.Keys))
    {
      var j := 0;
      ghost var at := |pic[n].spell|;
      assert Holds(n, pic[n]);
      while j < |n.children|
        invariant 0 <= j <= |n.children|
        invariant forall i :: 0 <= i < j ==> Differ(pic[pic[n].kids[i]].Label()[0], full[at])
      {
        var child := n.children[j];
        assert Holds(child, pic[child]);
        if child.kind != NoKind && child.name == name && child.kind != kind {
          KidConflicts(pic, root, table, history, n, full, j);
          return n, Some(ConflictingTypes);
        }
        if child.kind != NoKind && child.kind == kind {
          if child.name != name {
            KidConflicts(pic, root, table, history, n, full, j);
            return n, Some(ConflictingNames);
          }
          FoundParameter(pic, root, table, n, full, j);
          return child, None;
        }
        j := j + 1;
      }
      ClearStep(pic, root, table, n, full);
      NamesPrefix(full, at + 1);
      assert full[..at + 1] == pic[n].spell + LabelOf("", kind, name);
      next := AddKid(n, "", kind, name);
      why := None;
    }

    // How much of the segment the child's text shares.
    method CommonLength(prefix: string, segment: string) returns (c: nat)
      ensures c <= |prefix| && c <= |segment| && prefix[..c] == segment[..c]
      ensures c < |prefix| && c < |segment| ==> prefix[c] != segment[c]
    {
      c := 0;
      while c < |prefix| && c < |segment| && prefix[c] == segment[c]
        invariant 0 <= c <= |prefix| && c <= |segment| && prefix[..c] == segment[..c]
      {
        c := c + 1;
      }
    }

    // The literal child that shares text with the segment, and how much.
    method SharingChild(n: RadixNode<H>, segment: string) returns (j: nat, common: nat)
      requires n in pic && At(pic[n].spell) && segment != ""
      ensures common > 0 ==>
                && j < |pic[n].kids|
                && var kid := pic[pic[n].kids[j]];
                && kid.kind.NoKind? && common <= |kid.prefix| && common <= |segment|
                && kid.prefix[..common] == segment[..common] && kid.prefix[0] == segment[0]
                && (common < |kid.prefix| && common < |segment| ==> kid.prefix[common] != segment[common])
      ensures common == 0 ==> forall i :: 0 <= i < |pic[n].kids| && pic[pic[n].kids[i]].kind.NoKind? ==>
                pic[pic[n].kids[i]].prefix[0] != segment[0]
    {
      j := 0;
      assert Holds(n, pic[n]);
      while j < |n.children|
        invariant 0 <= j <= |n.children|
        invariant forall i :: 0 <= i < j && pic[pic[n].kids[i]].kind.NoKind? ==>
                    pic[pic[n].kids[i]].prefix[0] != segment[0]
      {
        var child := n.children[j];
        assert Holds(child, pic[child]);
        if child.kind == NoKind {
          common := CommonLength(child.prefix, segment);
          if common > 0 {
            assert child.prefix[0] == child.prefix[..common][0] == segment[..common][0];
            return;
          }
        }
        j := j + 1;
      }
      common := 0;
    }

    // Down the literal child that shares some of the segment, cutting it when it shares only its
    // beginning.
    method Descend(n: RadixNode<H>, j: nat, segment: string, common: nat)
      returns (next: RadixNode<H>)
      requires n in pic && At(pic[n].spell) && j < |pic[n].kids| && 0 < common <= |segment|
      requires var kid := pic[pic[n].kids[j]];
               && kid.kind.NoKind? && common <= |kid.prefix| && kid.prefix[..common] == segment[..common]
               && (common < |kid.prefix| && common < |segment| ==> kid.prefix[common] != segment[common])
      modifies this`pic, pic.Keys
      ensures next in pic && At(pic[next].spell)
      ensures pic[next].spell == old(pic[n].spell) + Lits(segment[..common])
      ensures pic == old(pic) || Bare(pic, next, segment[common..])
      ensures pic.Keys >= old(pic.Keys) && fresh(pic.Keys - old(pic.Keys))
    {
      assert Holds(n, pic[n]);
      next := n.children[j];
      assert Holds(next, pic[next]);
      if common < |next.prefix| {
        next := Split(n, j, common);
      } else {
        assert next.prefix == segment[..common];
        LongerTip(pic, table, pic[n].spell, pic[next].spell);
      }
    }

    // The next piece of literal text of a pattern, along an old child or into a new one.
    method StepLiteral(n: RadixNode<H>, segment: string)
      returns (next: RadixNode<H>, taken: nat)
      requires n in pic && At(pic[n].spell) && segment != "" && DistinctNames(pic[n].spell + Lits(segment))
      modifies this`pic, pic.Keys
      ensures 0 < taken <= |segment| && next in pic && At(pic[next].spell)
      ensures pic[next].spell == old(pic[n].spell) + Lits(segment[..taken])
      ensures pic == old(pic) || Bare(pic, next, segment[taken..])
      ensures (forall i :: 0 <= i < |old(pic)[n].kids| && old(pic)[old(pic)[n].kids[i]].kind.NoKind? ==>
                 old(pic)[old(pic)[n].kids[i]].prefix[0] != segment[0]) ==> pic[next].kids == []
      ensures pic.Keys >= old(pic.Keys) && fresh(pic.Keys - old(pic.Keys))
    {
      var j, common := SharingChild(n, segment);
      if common > 0 {
        taken := common;
        next := Descend(n, j, segment, common);
      } else {
        taken := |segment|;
        assert segment[..taken] == segment;
        NewTextDiffers(pic, n, segment);
        next := AddKid(n, segment, NoKind, "");
      }
    }

    // Checks the whole pattern text before the tree is touched.
    method Validate(path: string) returns (why: Option<Rejection>)
      ensures match Parse(path, {}) case Ok(_) => why == None case Err(e) => why == Some(e)
    {
      hide ReadSpec, Find, Fault;
      var position, names := 0, {};
      assert path[0..] == path;
      while position < |path|
        invariant 0 <= position <= |path|
        invariant match Parse(path[position..], names)
                  case Ok(_) => Parse(path, {}).Ok?
                  case Err(e) => Parse(path, {}) == Err(e)
        decreases |path| - position
      {
        ghost var rest := path[position..];
        if path[position] != '<' {
          if path[position] == '>' {
            return Some(StrayTerminator);
          }
          assert rest[1..] == path[position + 1..];
          position := position + 1;
        } else {
          ParseTail(path, position, names);
          var end := position + Find(path[position..], '>');
          if end == |path| {
            return Some(Unterminated);
          }
          var (kind, name) := ReadSpec(path[position + 1..end]);
          why := Fault(kind, name, end + 1 == |path|, names);
          if why.Some? {
            return;
          }
          names := names + {name};
          position := end + 1;
        }
      }
      why := None;
    }

    method Insert(path: string, h: Option<H>) returns (why: Option<Rejection>)
      requires Valid()
      modifies this, pic.Keys
      ensures Valid() && pic.Keys >= old(pic.Keys) && fresh(pic.Keys - old(pic.Keys))
      ensures Refuses(old(Record()), path, h, why)
      ensures why.Some? ==> pic == old(pic) && table == old(table) && history == old(history)
      ensures why.None? ==>
                && table == old(table)[Parse(path, {}).value := h.value]
                && history == old(history) + [Parse(path, {}).value]
    {
      hide HandlersRight, AllSpelt, Fruitful, AllAged, SamePatterns, First, SiblingsDiffer, Unique, Reaches, CellsOk;
      if path == "" || path[0] != '/' {
        return Some(NotAbsolute);
      }
      if h.None? {
        return Some(NoHandler);
      }
      why := Validate(path);
      if why.Some? {
        return;
      }
      ghost var full := Parse(path, {}).value;
      ParseIsWellFormed(path, {});
      var node;
      node, why := Walk(path, full);
      if why.Some? {
        return;
      }
      assert Holds(node, pic[node]);
      WithHandlerIsGood(pic, root, table, node, h.value);
      WithHandlerIsAged(pic, table, history, node, h.value);
      node.handler := h;
      pic := WithHandler(pic, node, h.value);
      table, history := table[full := h.value], history + [full];
    }

    // Registers one request after the other in a new tree.
    static method InsertAll(rs: seq<Request<H>>) returns (tree: RadixTree<H>)
      ensures tree.Valid() && tree.Record() == RegisterAll(rs)
    {
      tree := new RadixTree<H>();
      for i := 0 to |rs|
        invariant tree.Valid() && fresh(tree) && fresh(tree.pic.Keys) && tree.Record() == RegisterAll(rs[..i])
      {
        var why := tree.Insert(rs[i].path, rs[i].handler);
        assert rs[..i + 1][..i] == rs[..i];
      }
      assert rs[..|rs|] == rs;
    }

    // Builds the path to the pattern full, or finds the conflict that forbids it.
    method Walk(path: string, ghost full: Pattern) returns (node: RadixNode<H>, why: Option<Rejection>)
      requires Valid() && Parse(path, {}) == Ok(full) && WellFormed(full)
      modifies this`pic, pic.Keys
      ensures pic.Keys >= old(pic.Keys) && fresh(pic.Keys - old(pic.Keys))
      ensures why.None? ==>
                node in pic && At(full) && pic[node].spell == full && Clear(table, full, |full|)
      ensures why.Some? ==>
                && pic == old(pic) && Valid() && Conflicts(table, full)
                && ConflictIs(history, full, why.value)
    {
      var i := 0;
      node, why := root, None;
      ghost var seen: set<string> := {};
      assert path[0..] == path;
      while i < |path|
        invariant 0 <= i <= |path| && Standing(node, path[i..], full, seen) && why.None?
        invariant pic == old(pic) || Bare(pic, node, path[i..])
        invariant pic.Keys >= old(pic.Keys) && fresh(pic.Keys - old(pic.Keys))
        decreases |path| - i
      {
        if path[i] == '<' {
          node, i, why, seen := ParameterRound(node, path, i, full, seen);
          if why.Some? {
            return;
          }
        } else {
          node, i := LiteralRound(node, path, i, full, seen);
        }
      }
      assert full[|pic[node].spell|..] == [];
      assert pic[node].spell == full;
    }

    // The walk that builds the path to the pattern full has reached n, with this text left to read.
    ghost predicate Standing(n: RadixNode<H>, rest: string, full: Pattern, seen: set<string>)
      reads this, pic.Keys
    {
      && n in pic && At(pic[n].spell)
      && pic[n].spell <= full && Clear(table, full, |pic[n].spell|)
      && Parse(rest, seen) == Ok(full[|pic[n].spell|..])
    }

    // A round of the walk over a parameter.
    method ParameterRound(n: RadixNode<H>, path: string, i: nat, ghost full: Pattern, ghost seen: set<string>)
      returns (next: RadixNode<H>, i': nat, why: Option<Rejection>, ghost seen': set<string>)
      requires i < |path| && Standing(n, path[i..], full, seen) && WellFormed(full)
      requires path[i] == '<'
      modifies this`pic, pic.Keys
      ensures why.None? ==>
                && i < i' <= |path| && Standing(next, path[i'..], full, seen')
                && (pic == old(pic) || Bare(pic, next, path[i'..]))
                && (Bare(old(pic), n, path[i..]) ==> Bare(pic, next, path[i'..]))
      ensures why.Some? ==>
                && pic == old(pic) && Mirrors() && Conflicts(table, full) && !Bare(pic, n, path[i..])
                && ConflictIs(history, full, why.value)
      ensures pic.Keys >= old(pic.Keys) && fresh(pic.Keys - old(pic.Keys))
    {
      hide SiblingsDiffer, Unique, Reaches, CellsOk, HandlersRight, AllSpelt, Fruitful, Find, Parse, Clear, AllAged,
        SamePatterns;
      ghost var at := |pic[n].spell|;
      var end := i + Find(path[i..], '>');
      var (kind, name) := ReadSpec(path[i + 1..end]);
      ParameterPiece(path, i, end, full, at, seen);
      seen' := seen + {name};
      next, why := StepParameter(n, kind, name, full);
      i' := end + 1;
    }

    // A round of the walk over literal text.
    method LiteralRound(n: RadixNode<H>, path: string, i: nat, ghost full: Pattern, ghost seen: set<string>)
      returns (next: RadixNode<H>, i': nat)
      requires i < |path| && Standing(n, path[i..], full, seen) && WellFormed(full)
      requires path[i] != '<'
      modifies this`pic, pic.Keys
      ensures i < i' <= |path| && Standing(next, path[i'..], full, seen)
                && (pic == old(pic) || Bare(pic, next, path[i'..]))
                && (Bare(old(pic), n, path[i..]) ==> Bare(pic, next, path[i'..]))
      ensures pic.Keys >= old(pic.Keys) && fresh(pic.Keys - old(pic.Keys))
    {
      hide SiblingsDiffer, Unique, Reaches, CellsOk, HandlersRight, AllSpelt, Fruitful, Find, Parse, Clear, AllAged,
        SamePatterns;
      ghost var at := |pic[n].spell|;
      var segment := path[i..i + Find(path[i..], '<')];
      LiteralPiece(path, i, segment, full, at, seen);
      assert pic[n].spell == full[..at];
      var taken;
      next, taken := StepLiteral(n, segment);
      i' := i + taken;
      RestOfPiece(path, i, segment, taken, full, at, seen);
      ClearLits(table, full, at, at + taken);
    }

    // What a parameter captures from a position on: the rest of the path, or a run without '/'
    // of digits or of anything.
    method Capture(kind: Kind, path: string, pos: nat) returns (value: string, end: nat)
      requires pos < |path| && kind != NoKind
      ensures end == pos + Span(kind, path[pos..]) && value == path[pos..end]
    {
      end := pos;
      if kind == PathKind {
        value, end := path[pos..], |path|;
      } else {
        value := "";
        while end < |path| && path[end] != '/'
          invariant pos <= end <= |path| && value == path[pos..end]
          invariant forall k :: pos <= k < end ==> Takes(kind, path[k])
        {
          if kind == IntKind && !Digit(path[end]) {
            break;
          }
          value := value + [path[end]];
          end := end + 1;
        }
      }
      assert path[pos..] == path[pos..end] + path[end..];
      SpanIs(kind, path[pos..end], path[end..]);
    }

    // Matches the path from pos on against n and what hangs below it; params holds the captures
    // made on the way to n, and comes back as it was if nothing matches.
    method SearchNode(n: RadixNode<H>, path: string, pos: nat, params: map<string, string>)
      returns (found: RadixNode?<H>, out: map<string, string>, ghost captures: map<string, string>)
      requires Valid() && n in pic && pos <= |path| && params.Keys == Names(pic[n].spell)
      ensures CellOk(pic[n]) && Outcome(pic, history, found, captures, pic[n].spell, |pic[n].spell| - |pic[n].prefix|,
              path[pos..])
      ensures out == params + captures && params.Keys !! captures.Keys
      decreases |path| - pos, if pic[n].prefix == "" then 1 else 0, 1
    {
      hide SiblingsDiffer, Reaches, HandlersRight, AllSpelt, Fruitful, AllAged, SamePatterns;
      assert Holds(n, pic[n]) && CellOk(pic[n]);
      var next := pos;
      if n.prefix != "" {
        if pos + |n.prefix| > |path| || path[pos..pos + |n.prefix|] != n.prefix {
          TextMismatch(pic, n, path[pos..]);
          return null, params, map[];
        }
        next := pos + |n.prefix|;
      }
      assert n.prefix <= path[pos..] && path[pos..][|n.prefix|..] == path[next..];
      found, out, captures := SearchBelow(n, path, next, params);
      TextOutcome(pic, history, n, path[pos..], found, captures);
    }

    // The second half of SearchNode, after n's own text: the end of the path, then the literal
    // children, then the parameter children.
    method SearchBelow(n: RadixNode<H>, path: string, pos: nat, params: map<string, string>)
      returns (found: RadixNode?<H>, out: map<string, string>, ghost captures: map<string, string>)
      requires Valid() && n in pic && pos <= |path| && params.Keys == Names(pic[n].spell)
      ensures Outcome(pic, history, found, captures, pic[n].spell, |pic[n].spell|, path[pos..])
      ensures out == params + captures && params.Keys !! captures.Keys
      decreases |path| - pos, 1, 0
    {
      assert Holds(n, pic[n]);
      if pos >= |path| {
        EndOutcome(pic, history, n);
        return if n.handler.Some? then n else null, params, map[];
      }
      ghost var s := path[pos..];
      found, out, captures := SearchLiterals(n, path, pos, params);
      if found != null {
        return;
      }
      found, out, captures := SearchParameters(n, path, pos, params);
    }

    method SearchLiterals(n: RadixNode<H>, path: string, pos: nat, params: map<string, string>)
      returns (found: RadixNode?<H>, out: map<string, string>, ghost captures: map<string, string>)
      requires Valid() && n in pic && pos < |path| && params.Keys == Names(pic[n].spell)
      ensures found != null ==> Outcome(pic, history, found, captures, pic[n].spell, |pic[n].spell|, path[pos..])
      ensures found == null ==> captures == map[]
      ensures found == null ==>
                forall i {:trigger KidFails(pic, n, i, path[pos..])} ::
                  0 <= i < |pic[n].kids| && pic[pic[n].kids[i]].kind.NoKind? ==> KidFails(pic, n, i, path[pos..])
      ensures out == params + captures && params.Keys !! captures.Keys
      decreases |path| - pos, 0, 2
    {
      assert Holds(n, pic[n]);
      var j := 0;
      while j < |n.children|
        invariant 0 <= j <= |n.children|
        invariant forall i {:trigger KidFails(pic, n, i, path[pos..])} ::
                    0 <= i < j && pic[pic[n].kids[i]].kind.NoKind? ==> KidFails(pic, n, i, path[pos..])
      {
        var child := n.children[j];
        assert Holds(child, pic[child]);
        if child.kind == NoKind {
          NamesOfKid(pic, n, j);
          found, out, captures := SearchNode(child, path, pos, params);
          if found != null {
            KidIsBest(pic, history, n, j, path[pos..], found);
            return;
          }
          assert KidFails(pic, n, j, path[pos..]);
        }
        j := j + 1;
      }
      found, out, captures := null, params, map[];
    }

    method SearchParameters(n: RadixNode<H>, path: string, pos: nat, params: map<string, string>)
      returns (found: RadixNode?<H>, out: map<string, string>, ghost captures: map<string, string>)
      requires Valid() && n in pic && pos < |path| && params.Keys == Names(pic[n].spell)
      requires forall i {:trigger KidFails(pic, n, i, path[pos..])} ::
                 0 <= i < |pic[n].kids| && pic[pic[n].kids[i]].kind.NoKind? ==> KidFails(pic, n, i, path[pos..])
      ensures Outcome(pic, history, found, captures, pic[n].spell, |pic[n].spell|, path[pos..])
      ensures out == params + captures && params.Keys !! captures.Keys
      decreases |path| - pos, 0, 2
    {
      assert Holds(n, pic[n]);
      out := params;
      var j := 0;
      while j < |n.children|
        invariant 0 <= j <= |n.children| && out == params
        invariant forall i {:trigger KidFails(pic, n, i, path[pos..])} :: 0 <= i < j ==>
                  KidFails(pic, n, i, path[pos..])
      {
        var child := n.children[j];
        assert Holds(child, pic[child]);
        if child.kind != NoKind {
          found, out, captures := TryParameter(n, j, path, pos, params);
          if found != null {
            KidIsBest(pic, history, n, j, path[pos..], found);
            return;
          }
        }
        j := j + 1;
      }
      NoKidOutcome(pic, n, path[pos..]);
      found, captures := null, map[];
    }

    // One parameter child: its capture goes into the map, and out again if nothing matches below.
    method TryParameter(n: RadixNode<H>, j: nat, path: string, pos: nat, params: map<string, string>)
      returns (found: RadixNode?<H>, out: map<string, string>, ghost captures: map<string, string>)
      requires Valid() && n in pic && pos < |path| && params.Keys == Names(pic[n].spell)
      requires j < |pic[n].kids| && pic[pic[n].kids[j]].kind != NoKind
      ensures found == null ==> KidFails(pic, n, j, path[pos..]) && captures == map[]
      ensures found != null ==>
                && Best(pic, history, found, pic[pic[n].kids[j]].spell, |pic[n].spell|, path[pos..])
                && Fit(pic[found].spell[|pic[n].spell|..], path[pos..]) == Some(captures)
      ensures out == params + captures && params.Keys !! captures.Keys
      decreases |path| - pos, 0, 1
    {
      hide SiblingsDiffer, Unique, Reaches, HandlersRight, AllSpelt, Fruitful, Candidate, Fit, Span, Takes, Best,
        AllAged, SamePatterns;
      assert Holds(n, pic[n]);
      var child := n.children[j];
      assert Holds(child, pic[child]);
      found, out, captures := null, params, map[];
      var value, end := Capture(child.kind, path, pos);
      if value == "" {
        NoCapture(pic, n, j, path[pos..]);
        return;
      }
      NamesOfKid(pic, n, j);
      assert path[pos..][end - pos..] == path[end..] && path[pos..][..end - pos] == value;
      ghost var inner;
      found, out, inner := SearchNode(child, path, end, out[child.name := value]);
      CaptureOutcome(pic, history, n, j, path[pos..], found, inner);
      if found != null {
        captures := inner[child.name := value];
      } else {
        out := out - {child.name};
      }
    }

    method Search(path: string) returns (answer: Option<RouteMatch<H>>)
      requires Valid()
      ensures Answers(table, history, path, answer)
    {
      assert path[0..] == path;
      assert CellOk(pic[root]);
      var found, out, captures := SearchNode(root, path, 0, map[]);
      SearchAnswers(pic, root, table, history, path, found, captures);
      if found == null {
        return None;
      }
      assert Holds(found, pic[found]);
      assert out == captures;
      answer := Some(RouteMatch(found.handler.value, out));
    }
  }

  // What a kid adds to the parameter names on the way to it.
  lemma NamesOfKid<H>(pic: Picture<H>, n: RadixNode<H>, j: nat)
    requires n in pic && KidsFit(pic) && CellsOk(pic) && j < |pic[n].kids|
    ensures var kid := pic[pic[n].kids[j]];
            if kid.kind.NoKind? then Names(kid.spell) == Names(pic[n].spell)
            else Names(kid.spell) == Names(pic[n].spell) + {kid.name} && kid.name !in Names(pic[n].spell)
  {
    var kid := pic[pic[n].kids[j]];
    assert CellOk(kid);
    NamesOfSum(pic[n].spell, kid.Label());
    assert kid.kind.NoKind? ==> Names(kid.Label()) == {};
    if !kid.kind.NoKind? {
      NamesOfOne(kid.kind, kid.name);
      assert kid.spell[|pic[n].spell|] == Param(kid.kind, kid.name);
      forall x | x in Names(pic[n].spell)
        ensures x != kid.name
      {
        var i :| 0 <= i < |pic[n].spell| && pic[n].spell[i].Param? && pic[n].spell[i].name == x;
        assert kid.spell[i] == pic[n].spell[i];
      }
    }
  }

  lemma NamesOfOne(kind: Kind, name: string)
    ensures Names([Param(kind, name)]) == {name}
  {
    assert [Param(kind, name)][0].name in Names([Param(kind, name)]);
  }

  lemma NamesOfSum(a: Pattern, b: Pattern)
    ensures Names(a + b) == Names(a) + Names(b)
  {
    forall x | x in Names(a)
      ensures x in Names(a + b)
    {
      var i :| 0 <= i < |a| && a[i].Param? && a[i].name == x;
      assert (a + b)[i] == a[i];
    }
    forall x | x in Names(b)
      ensures x in Names(a + b)
    {
      var i :| 0 <= i < |b| && b[i].Param? && b[i].name == x;
      assert (a + b)[|a| + i] == b[i];
    }
  }

  lemma SearchAnswers<H>(pic: Picture<H>, root: RadixNode<H>, table: Table<H>, history: seq<Pattern>, path: string,
                         found: RadixNode?<H>, captures: map<string, string>)
    requires Good(pic, root, table, []) && Outcome(pic, history, found, captures, [], 0, path)
    ensures found == null ==> Answers(table, history, path, None)
    ensures found != null ==>
              && found in pic && pic[found].handler.Some?
              && Answers(table, history, path, Some(RouteMatch(pic[found].handler.value, captures)))
  {
    forall t | t in table
      ensures exists d :: d in pic && pic[d].spell == t && (Candidate(pic, d, [], 0, path) <==> Fit(t, path).Some?)
    {
      assert Spelt(pic, t);
      var d: RadixNode<H> :| d in pic && pic[d].spell == t;
      assert t[0..] == t;
      assert Candidate(pic, d, [], 0, path) <==> Fit(t, path).Some?;
    }
    if found != null {
      var t := pic[found].spell;
      assert t[0..] == t;
      assert Winner(table, history, t, path);
    }
  }

  lemma ParameterPiece(path: string, i: nat, end: nat, full: Pattern, at: nat, seen: set<string>)
    requires i < |path| && path[i] == '<' && end == i + Find(path[i..], '>')
    requires at <= |full| && Parse(path[i..], seen) == Ok(full[at..])
    ensures i < end < |path| && at < |full|
    ensures var (kind, name) := ReadSpec(path[i + 1..end]);
            && full[at] == Param(kind, name) && kind != NoKind
            && Parse(path[end + 1..], seen + {name}) == Ok(full[at + 1..])
  {
    hide Parse, ReadSpec;
    ParseTail(path, i, seen);
    var (kind, name) := ReadSpec(path[i + 1..end]);
    assert full[at..] == [Param(kind, name)] + Parse(path[end + 1..], seen + {name}).value;
    assert |full[at..]| > 0 && |full[at..]| == |full| - at;
    assert full[at] == full[at..][0];
    assert full[at..][1..] == full[at + 1..];
  }

  // A piece of literal text stands for as many literal tokens.
  lemma LiteralPiece(path: string, i: nat, segment: string, full: Pattern, at: nat, seen: set<string>)
    requires i < |path| && path[i] != '<' && segment == path[i..i + Find(path[i..], '<')]
    requires at <= |full| && Parse(path[i..], seen) == Ok(full[at..]) && DistinctNames(full)
    ensures segment != "" && DistinctNames(full[..at] + Lits(segment))
  {
    RestOfPiece(path, i, segment, |segment|, full, at, seen);
    assert segment[..|segment|] == segment;
    NamesPrefix(full, at + |segment|);
  }

  lemma RestOfPiece(path: string, i: nat, segment: string, taken: nat, full: Pattern, at: nat, seen: set<string>)
    requires i < |path| && segment == path[i..i + Find(path[i..], '<')] && taken <= |segment|
    requires at <= |full| && Parse(path[i..], seen) == Ok(full[at..])
    ensures at + taken <= |full| && full[..at + taken] == full[..at] + Lits(segment[..taken])
    ensures Parse(path[i + taken..], seen) == Ok(full[at + taken..])
    ensures forall k :: at <= k < at + taken ==> full[k].Lit?
    ensures taken == |segment| ==> path[i + taken..] == "" || path[i + taken] == '<'
    ensures taken < |segment| ==> path[i + taken] == segment[taken]
  {
    var rest := path[i..];
    ParseRun(rest, taken, seen);
    assert rest[taken..] == path[i + taken..] && rest[..taken] == segment[..taken];
    var below := Parse(path[i + taken..], seen).value;
    assert full == full[..at] + (Lits(segment[..taken]) + below);
    assert full[at + taken..] == below;
  }

  lemma NewTextDiffers<H>(pic: Picture<H>, n: RadixNode<H>, segment: string)
    requires n in pic && KidsFit(pic) && segment != ""
    requires forall i :: 0 <= i < |pic[n].kids| && pic[pic[n].kids[i]].kind.NoKind? ==>
               pic[pic[n].kids[i]].prefix[0] != segment[0]
    ensures forall i :: 0 <= i < |pic[n].kids| ==>
              Differ(pic[pic[n].kids[i]].Label()[0], LabelOf(segment, NoKind, "")[0])
  {
  }

  lemma NamesPrefix(full: Pattern, at: nat)
    requires at <= |full| && DistinctNames(full)
    ensures DistinctNames(full[..at])
  {
  }

  lemma FoundParameter<H>(pic: Picture<H>, root: RadixNode<H>, table: Table<H>, n: RadixNode<H>, full: Pattern, j: nat)
    requires n in pic && Good(pic, root, table, pic[n].spell) && j < |pic[n].kids|
    requires pic[n].spell < full && Clear(table, full, |pic[n].spell|)
    requires var kid := pic[pic[n].kids[j]]; kid.kind != NoKind && kid.Label()[0] == full[|pic[n].spell|]
    ensures var kid := pic[pic[n].kids[j]];
            && kid.spell == full[..|pic[n].spell| + 1] && Good(pic, root, table, kid.spell)
            && Clear(table, full, |kid.spell|)
  {
    var at := |pic[n].spell|;
    var kid := pic[pic[n].kids[j]];
    assert kid.spell == full[..at + 1];
    forall i | 0 <= i < |pic[n].kids|
      ensures !Clash(pic[pic[n].kids[i]].Label()[0], full[at])
    {
      assert KidsDiffer(pic, n);
    }
    ClearStep(pic, root, table, n, full);
    LongerTip(pic, table, pic[n].spell, kid.spell);
  }

  lemma LongerTip<H>(pic: Picture<H>, table: Table<H>, tip: Pattern, longer: Pattern)
    requires Fruitful(pic, table, tip) && tip <= longer
    ensures Fruitful(pic, table, longer)
  {
    forall n | n in pic
      ensures pic[n].spell <= longer || OnTheWay(table, pic[n].spell)
    {
      assert pic[n].spell <= tip || OnTheWay(table, pic[n].spell);
    }
  }

  // ---------- the router ----------

  datatype Verb = Get | Post | Put | Delete | Patch | OtherVerb

  function WithoutQuery(target: string): string {
    target[..Find(target, '?')]
  }

  // What follows the first question mark is not looked at, and nothing else is cut off.
  lemma QueryIsCut(path: string, query: string)
    requires '?' !in path
    ensures WithoutQuery(path) == path && WithoutQuery(path + "?" + query) == path
  {
    FindIs(path, '?', |path|);
    var target := path + "?" + query;
    assert forall j :: 0 <= j < |path| ==> target[j] == path[j];
    FindIs(target, '?', |path|);
    assert path[..|path|] == path && target[..|path|] == path;
  }

  ghost function BookOf<H>(books: map<Verb, Book<H>>, verb: Verb): Book<H> {
    if verb in books then books[verb] else Book(map[], [])
  }

  ghost function Recorded<H>(book: Book<H>, full: Pattern, h: H): Book<H> {
    Book(book.table[full := h], book.history + [full])
  }

  // The plain lists after one more accepted registration.
  ghost function Routed<H>(books: map<Verb, Book<H>>, verb: Verb, pattern: string, h: Option<H>): map<Verb, Book<H>>
    requires Parse(pattern, {}).Ok? && h.Some?
  {
    books[verb := Recorded(BookOf(books, verb), Parse(pattern, {}).value, h.value)]
  }

  class Router<H> {
    var trees: map<Verb, RadixTree<H>>
    var frozen: bool

    ghost function Nodes(): set<object>
      reads this, trees.Values
    {
      set v, n | v in trees && n in trees[v].pic.Keys :: n
    }

    ghost predicate Valid()
      reads this, trees.Values, Nodes()
    {
      AllValid(trees) && AllApart(trees)
    }

    ghost predicate AllValid(ts: map<Verb, RadixTree<H>>)
      reads ts.Values, set v, n | v in ts && n in ts[v].pic.Keys :: n
    {
      forall v :: v in ts ==> ts[v].Valid()
    }

    ghost predicate AllApart(ts: map<Verb, RadixTree<H>>)
      reads ts.Values
    {
      forall v, w :: v in ts && w in ts && v != w ==> ts[v] != ts[w] && ts[v].pic.Keys !! ts[w].pic.Keys
    }

    // The plain list of patterns of every verb that has a route.
    ghost function Books(): map<Verb, Book<H>>
      reads this, trees.Values
    {
      map v | v in trees :: trees[v].Record()
    }

    constructor ()
      ensures Valid() && !frozen && trees == map[] && Books() == map[]
    {
      trees, frozen := map[], false;
    }

    method Freeze()
      requires Valid()
      modifies this`frozen
      ensures Valid() && frozen && Books() == old(Books())
    {
      frozen := true;
    }

    method AddRoute(verb: Verb, pattern: string, h: Option<H>) returns (why: Option<Rejection>)
      requires Valid()
      modifies this`trees, trees.Values, Nodes()
      ensures Valid()
      ensures fresh(trees.Values - old(trees.Values)) && fresh(Nodes() - old(Nodes()))
      ensures if frozen then why == Some(Frozen) else Refuses(BookOf(old(Books()), verb), pattern, h, why)
      ensures Books() == if why.None? then Routed(old(Books()), verb, pattern, h) else old(Books())
    {
      if frozen {
        return Some(Frozen);
      }
      if verb !in trees {
        why := AddTree(verb, pattern, h);
      } else {
        why := AddToTree(verb, pattern, h);
      }
    }

    // The first route of a verb goes into a new tree, which is kept if the route is accepted.
    method AddTree(verb: Verb, pattern: string, h: Option<H>) returns (why: Option<Rejection>)
      requires Valid() && verb !in trees
      modifies this`trees
      ensures Valid() && Refuses(Book(map[], []), pattern, h, why)
      ensures fresh(trees.Values - old(trees.Values)) && fresh(Nodes() - old(Nodes()))
      ensures Books() == if why.None? then Routed(old(Books()), verb, pattern, h) else old(Books())
    {
      hide Refuses, Parse, Recorded, RadixTree<H>.Valid, RadixTree<H>.Record;
      ghost var was, before := trees, Books();
      assert AllApart(was) && AllValid(was);
      var tree;
      tree, why := NewTree(pattern, h);
      assert AllValid(was) && AllApart(was) && Books() == before;
      if why.None? {
        trees := trees[verb := tree];
        assert Books() == before[verb := tree.Record()];
        assert AllValid(trees);
        assert AllApart(trees);
      }
    }

    static method NewTree(pattern: string, h: Option<H>) returns (tree: RadixTree<H>, why: Option<Rejection>)
      ensures fresh(tree) && tree.Valid() && fresh(tree.pic.Keys) && Refuses(Book(map[], []), pattern, h, why)
      ensures why.None? ==> tree.Record() == Recorded(Book(map[], []), Parse(pattern, {}).value, h.value)
    {
      tree := new RadixTree<H>();
      why := tree.Insert(pattern, h);
    }

    method AddToTree(verb: Verb, pattern: string, h: Option<H>) returns (why: Option<Rejection>)
      requires Valid() && verb in trees
      modifies trees.Values, Nodes()
      ensures Valid() && Refuses(old(trees[verb].Record()), pattern, h, why)
      ensures fresh(Nodes() - old(Nodes()))
      ensures Books() == if why.None? then Routed(old(Books()), verb, pattern, h) else old(Books())
    {
      hide Refuses, Parse, Recorded, RadixTree<H>.Valid, Router<H>.AllApart, Router<H>.AllValid, RadixTree<H>.Record;
      ghost var before := Books();
      why := InsertIn(verb, pattern, h);
      assert Books() == before[verb := trees[verb].Record()];
    }

    method InsertIn(verb: Verb, pattern: string, h: Option<H>) returns (why: Option<Rejection>)
      requires Valid() && verb in trees
      modifies trees.Values, Nodes()
      ensures Valid() && Refuses(old(trees[verb].Record()), pattern, h, why)
      ensures fresh(Nodes() - old(Nodes()))
      ensures forall v :: v in trees && v != verb ==> trees[v].Record() == old(trees[v].Record())
      ensures trees[verb].Record() ==
              if why.None? then Recorded(old(trees[verb].Record()), Parse(pattern, {}).value, h.value)
              else old(trees[verb].Record())
    {
      hide Good, Refuses, Parse, RadixTree<H>.Mirrors;
      var tree := trees[verb];
      ghost var ts := trees;
      assert AllApart(ts) && AllValid(ts);
      why := tree.Insert(pattern, h);
      forall v | v in ts && v != verb
        ensures ts[v].Valid() && ts[v].pic == old(ts[v].pic) && ts[v].Record() == old(ts[v].Record())
      {
        assert old(ts[v].Valid());
        assert unchanged(ts[v]);
      }
      assert AllValid(ts);
      assert AllApart(ts);
    }

    // One call that reaches a router before it serves.
    method Take(call: Call<H>)
      requires Valid()
      modifies this, trees.Values, Nodes()
      ensures Valid() && (frozen <==> old(frozen) || call.FreezeCall?)
      ensures fresh(trees.Values - old(trees.Values)) && fresh(Nodes() - old(Nodes()))
      ensures forall v :: BookOf(Books(), v) ==
                          if call.RouteCall? && call.verb == v && !old(frozen)
                          then Register(BookOf(old(Books()), v), call.request) else BookOf(old(Books()), v)
    {
      hide Refuses, Parse, Accepted, Recorded, RadixTree<H>.Valid, Router<H>.AllApart, RadixTree<H>.Record;
      ghost var before, open := Books(), !frozen;
      if call.FreezeCall? {
        Freeze();
      } else {
        var why := AddRoute(call.verb, call.request.path, call.request.handler);
        if open {
          RefusesOrAccepts(BookOf(before, call.verb), call.request, why);
        }
      }
    }

    // The whole of a router's set-up: registrations, and at some point the freeze.
    method Configure(calls: seq<Call<H>>)
      requires Valid() && !frozen && trees == map[]
      modifies this
      ensures Valid() && (frozen <==> FreezeCall in calls)
      ensures forall v :: BookOf(Books(), v) == RegisterAll(RequestsFor(calls, v))
    {
      hide RegisterAll, RequestsFor, Register, BookOf, RadixTree<H>.Valid, Router<H>.AllApart, RadixTree<H>.Record;
      NoRequests<H>(calls[..0]);
      for i := 0 to |calls|
        invariant Valid() && (frozen <==> FreezeCall in calls[..i])
        invariant fresh(trees.Values) && fresh(Nodes())
        invariant forall v {:trigger BookOf(Books(), v)} ::
                    BookOf(Books(), v) == RegisterAll(RequestsFor(calls[..i], v))
      {
        Take(calls[i]);
        NextRequest(calls, i);
      }
      assert calls[..|calls|] == calls;
    }

    method Match(verb: Verb, target: string) returns (answer: Option<RouteMatch<H>>)
      requires Valid()
      ensures Answers(BookOf(Books(), verb).table, BookOf(Books(), verb).history, WithoutQuery(target), answer)
    {
      if verb !in trees {
        return None;
      }
      answer := trees[verb].Search(WithoutQuery(target));
    }
  }

  // ---------- whole runs of registrations ----------

  datatype Request<H> = Request(path: string, handler: Option<H>)

  ghost predicate Accepted<H>(book: Book<H>, r: Request<H>)
    ensures Accepted(book, r) ==> r.handler.Some? && Parse(r.path, {}).Ok?
  {
    Refuses(book, r.path, r.handler, None)
  }

  ghost function Register<H>(book: Book<H>, r: Request<H>): Book<H> {
    if Accepted(book, r) then Recorded(book, Parse(r.path, {}).value, r.handler.value) else book
  }

  ghost function RegisterAll<H>(rs: seq<Request<H>>): Book<H> {
    if rs == [] then Book(map[], []) else Register(RegisterAll(rs[..|rs| - 1]), rs[|rs| - 1])
  }

  datatype Call<H> = RouteCall(verb: Verb, request: Request<H>) | FreezeCall

  // The i-th call is a request for the verb, and comes before the freeze.
  ghost predicate IsRequest<H>(calls: seq<Call<H>>, i: nat, verb: Verb)
    requires i < |calls|
  {
    calls[i].RouteCall? && calls[i].verb == verb && FreezeCall !in calls[..i]
  }

  // The requests for a verb that come before the freeze.
  ghost function RequestsFor<H>(calls: seq<Call<H>>, verb: Verb): seq<Request<H>> {
    if calls == [] then []
    else
      var last := |calls| - 1;
      RequestsFor(calls[..last], verb) + if IsRequest(calls, last, verb) then [calls[last].request] else []
  }

  lemma RefusesOrAccepts<H>(book: Book<H>, r: Request<H>, why: Option<Rejection>)
    requires Refuses(book, r.path, r.handler, why)
    ensures why.None? <==> Accepted(book, r)
  {
  }

  lemma NoRequests<H>(calls: seq<Call<H>>)
    requires calls == []
    ensures forall v {:trigger RequestsFor(calls, v)} :: RegisterAll(RequestsFor(calls, v)) == BookOf<H>(map[], v)
  {
  }

  lemma NextRequest<H>(calls: seq<Call<H>>, i: nat)
    requires i < |calls|
    ensures calls[..i + 1] == calls[..i] + [calls[i]]
    ensures forall v {:trigger RequestsFor(calls[..i + 1], v)} ::
              RegisterAll(RequestsFor(calls[..i + 1], v)) ==
              if IsRequest(calls, i, v)
              then Register(RegisterAll(RequestsFor(calls[..i], v)), calls[i].request)
              else RegisterAll(RequestsFor(calls[..i], v))
  {
    assert calls[..i + 1][..i] == calls[..i];
    forall v
      ensures RegisterAll(RequestsFor(calls[..i + 1], v)) ==
              if IsRequest(calls, i, v) then Register(RegisterAll(RequestsFor(calls[..i], v)), calls[i].request)
              else RegisterAll(RequestsFor(calls[..i], v))
    {
      var rs, more := RequestsFor(calls[..i], v), if IsRequest(calls, i, v) then [calls[i].request] else [];
      assert RequestsFor(calls[..i + 1], v) == rs + more;
      assert (rs + more)[..|rs|] == rs && (more == [] ==> rs + more == rs);
    }
  }

  // The i-th request was accepted, for the pattern t.
  ghost predicate Registers<H>(rs: seq<Request<H>>, i: int, t: Pattern) {
    0 <= i < |rs| && Accepted(RegisterAll(rs[..i]), rs[i]) && Parse(rs[i].path, {}) == Ok(t)
  }

  // It was the last one accepted for t.
  ghost predicate LastOf<H>(rs: seq<Request<H>>, i: int, t: Pattern) {
    Registers(rs, i, t) && forall j :: i < j < |rs| ==> !Registers(rs, j, t)
  }

  // A pattern is registered exactly when some request for it was accepted, and then with the
  // handler of the last such request.
  lemma {:induction false} LastOneWins<H>(rs: seq<Request<H>>, t: Pattern)
    ensures t in RegisterAll(rs).table <==> exists i :: Registers(rs, i, t)
    ensures forall i {:trigger LastOf(rs, i, t)} :: LastOf(rs, i, t) ==> rs[i].handler == Some(RegisterAll(rs).table[t])
  {
    hide Accepted, Parse;
    if rs != [] {
      var k := |rs| - 1;
      var earlier := rs[..k];
      LastOneWins(earlier, t);
      forall i | 0 <= i < k
        ensures Registers(rs, i, t) <==> Registers(earlier, i, t)
      {
        assert earlier[..i] == rs[..i];
      }
      assert Registers(rs, k, t) <==> Accepted(RegisterAll(earlier), rs[k]) && Parse(rs[k].path, {}) == Ok(t);
      forall i | LastOf(rs, i, t)
        ensures rs[i].handler == Some(RegisterAll(rs).table[t])
      {
        if i < k {
          assert LastOf(earlier, i, t);
        }
      }
    }
  }

  ghost predicate Peaceful<H>(table: Table<H>) {
    forall t, u, k {:trigger ClashesAt(t, u, k)} :: t in table && u in table ==> !ClashesAt(t, u, k)
  }

  // Registered patterns never clash, so a pattern that is registered can always be registered
  // again.
  lemma {:induction false} RegisteredAreAtPeace<H>(rs: seq<Request<H>>)
    ensures Peaceful(RegisterAll(rs).table)
    ensures forall t :: t in RegisterAll(rs).table ==> !Conflicts(RegisterAll(rs).table, t)
  {
    if rs != [] {
      var r, earlier := rs[|rs| - 1], RegisterAll(rs[..|rs| - 1]).table;
      RegisteredAreAtPeace(rs[..|rs| - 1]);
      if Accepted(RegisterAll(rs[..|rs| - 1]), r) {
        var full := Parse(r.path, {}).value;
        forall t, k | t in earlier && k < |full|
          ensures !ClashesAt(t, full, k) && !ClashesAt(full, t, k)
        {
          assert ClashesAt(full, t, k) ==> ClashesAt(t, full, k);
        }
      }
    }
  }

  lemma {:induction false} SomeLast<H>(rs: seq<Request<H>>, t: Pattern, i: int) returns (last: int)
    requires Registers(rs, i, t)
    ensures LastOf(rs, last, t)
    decreases |rs| - i
  {
    if j :| i < j < |rs| && Registers(rs, j, t) {
      last := SomeLast(rs, t, j);
    } else {
      last := i;
    }
  }

  lemma {:induction false} RegisteredAreWellFormed<H>(rs: seq<Request<H>>, t: Pattern)
    requires t in RegisterAll(rs).table
    ensures WellFormed(t)
  {
    LastOneWins(rs, t);
    var i :| Registers(rs, i, t);
    ParseIsWellFormed(rs[i].path, {});
  }

  // After any run of registrations: a search that answers does so with the last handler accepted
  // for the pattern that is preferred to all others that fit, and its captures are that pattern's
  // parameters and fill it in to give back the path; a search that does not answer means that no
  // accepted pattern fits.
  lemma AnswersAfterRun<H>(rs: seq<Request<H>>, path: string, answer: Option<RouteMatch<H>>)
    requires Answers(RegisterAll(rs).table, RegisterAll(rs).history, path, answer)
    ensures answer.None? ==> forall i, t :: Registers(rs, i, t) ==> Fit(t, path).None?
    ensures answer.Some? ==>
              exists i, t ::
                && LastOf(rs, i, t) && rs[i].handler == Some(answer.value.handler)
                && WellFormed(t) && answer.value.params.Keys == Names(t)
                && Fill(t, answer.value.params) == path && Greedy(t, answer.value.params)
                && (forall j, u :: Registers(rs, j, u) && u != t && Fit(u, path).Some? ==>
                      Preferred(RegisterAll(rs).history, t, u))
  {
    forall i, u | Registers(rs, i, u)
      ensures u in RegisterAll(rs).table
    {
      LastOneWins(rs, u);
    }
    if answer.Some? {
      var book := RegisterAll(rs);
      var t :| Winner(book.table, book.history, t, path) &&
               answer.value == RouteMatch(book.table[t], Fit(t, path).value);
      LastOneWins(rs, t);
      var i :| Registers(rs, i, t);
      var last := SomeLast(rs, t, i);
      RegisteredAreWellFormed(rs, t);
      FitExact(t, path, answer.value.params);
      assert LastOf(rs, last, t);
    }
  }
}
