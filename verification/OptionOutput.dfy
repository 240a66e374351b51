/** The strongswan.conf snippet that ConfFormatter of format-options.py prints: it depends on what is
    known about each name, not on the order in which the names were described. */
module OptionOutput {
  import opened Bytes
  import opened Lists
  import opened FormatOptions

  /** A printed line with the first paragraph of the description above it, if there is one */
  datatype Line =
    | Assign(indent: nat, comment: bool, name: string, default: Option<string>, about: seq<string>)
    | Inclusion(indent: nat, name: string, pattern: Option<string>, about: seq<string>)
    | Open(indent: nat, comment: bool, name: string, about: seq<string>)
    | Close(indent: nat, comment: bool)

  function About(info: Info): seq<string> {
    if info.desc == [] then [] else [info.desc[0]]
  }

  /** __print_option and __print_section */
  function Printed(x: Node, indent: nat, commented: bool): seq<Line>
    decreases x
  {
    var comment := commented || x.info.commented;
    match x.info.kind
    case Plain => [Assign(indent, comment, x.name, x.info.default, About(x.info))]
    case Include => [Inclusion(indent, x.name, x.info.default, About(x.info))]
    case Section =>
      [Open(indent, comment, x.name, About(x.info))]
      + PrintedKind(x.options, Plain, indent + 1, comment)
      + PrintedKind(x.options, Section, indent + 1, comment)
      + PrintedKind(x.options, Include, indent + 1, comment)
      + [Close(indent, comment)]
  }

  /** The siblings of one kind, in their order */
  function PrintedKind(l: seq<Node>, kind: Kind, indent: nat, commented: bool): seq<Line>
    decreases l
  {
    if l == [] then []
    else
      var x := l[|l| - 1];
      PrintedKind(l[..|l| - 1], kind, indent, commented)
      + if x.info.kind == kind then Printed(x, indent, commented) else []
  }

  /** format */
  function Format(l: seq<Node>): seq<Line> {
    PrintedKind(l, Plain, 0, false) + PrintedKind(l, Section, 0, false) + PrintedKind(l, Include, 0, false)
  }

  // ---------------------------------------------------------------- sorting with cmp

  function PrintedAll(l: seq<Node>, indent: nat, commented: bool): seq<Line> {
    if l == [] then [] else PrintedAll(l[..|l| - 1], indent, commented) + Printed(l[|l| - 1], indent, commented)
  }

  function Select(l: seq<Node>, kind: Kind): (r: seq<Node>)
    ensures forall x | x in r :: x in l && x.info.kind == kind
  {
    if l == [] then []
    else Select(l[..|l| - 1], kind) + If(l[|l| - 1].info.kind == kind, l[|l| - 1])
  }

  lemma {:induction false} InsertBetween(front: seq<Node>, back: seq<Node>, x: Node)
    requires front == [] || !Less(ByKind, x, front[|front| - 1])
    requires forall y | y in back :: Less(ByKind, x, y)
    ensures Insert(ByKind, front + back, x) == front + [x] + back
    decreases |back|
  {
    if back == [] {
      assert front + back == front;
    } else {
      var n := |back| - 1;
      var l, k := front + back, |front| + n;
      assert l[..k] == front + back[..n] && l[k] == back[n] && back[n] in back;
      InsertBetween(front, back[..n], x);
      assert Insert(ByKind, l, x) == Insert(ByKind, l[..k], x) + [l[k]];
      assert front + [x] + back[..n] + [back[n]] == front + [x] + back;
    }
  }

  ghost predicate AllOf(l: seq<Node>, kind: Kind) { forall x | x in l :: x.info.kind == kind }

  function If(c: bool, x: Node): seq<Node> { if c then [x] else [] }

  lemma InsertPlain(a: seq<Node>, b: seq<Node>, c: seq<Node>, x: Node)
    requires AllOf(a, Plain) && AllOf(b, Section) && AllOf(c, Include) && x.info.kind == Plain
    ensures Insert(ByKind, a + b + c, x) == (a + [x]) + b + c
  {
    InsertBetween(a, b + c, x);
    assert a + b + c == a + (b + c) && a + [x] + (b + c) == (a + [x]) + b + c;
  }

  lemma InsertSection(a: seq<Node>, b: seq<Node>, c: seq<Node>, x: Node)
    requires AllOf(a, Plain) && AllOf(b, Section) && AllOf(c, Include) && x.info.kind == Section
    ensures Insert(ByKind, a + b + c, x) == a + (b + [x]) + c
  {
    assert a + b != [] ==> (a + b)[|a + b| - 1] in a || (a + b)[|a + b| - 1] in b;
    InsertBetween(a + b, c, x);
    assert a + b + [x] == a + (b + [x]);
  }

  lemma InsertInclude(a: seq<Node>, b: seq<Node>, c: seq<Node>, x: Node)
    requires x.info.kind == Include
    ensures Insert(ByKind, a + b + c, x) == a + b + (c + [x])
  {
    assert a + b + c + [x] == a + b + (c + [x]);
  }

  lemma InsertByKind(a: seq<Node>, b: seq<Node>, c: seq<Node>, x: Node)
    requires AllOf(a, Plain) && AllOf(b, Section) && AllOf(c, Include)
    ensures Insert(ByKind, a + b + c, x)
            == (a + If(x.info.kind == Plain, x)) + (b + If(x.info.kind == Section, x))
               + (c + If(x.info.kind == Include, x))
  {
    assert a + [] == a && b + [] == b && c + [] == c;
    match x.info.kind
    case Plain => InsertPlain(a, b, c, x);
    case Section => InsertSection(a, b, c, x);
    case Include => InsertInclude(a, b, c, x);
  }

  /** A stable sort with cmp is: plain options, then sections, then includes, each in their order. */
  lemma {:induction false} SortedByKind(l: seq<Node>)
    ensures StableSort(ByKind, l) == Select(l, Plain) + Select(l, Section) + Select(l, Include)
  {
    if l != [] {
      var n := |l| - 1;
      SortedByKind(l[..n]);
      InsertByKind(Select(l[..n], Plain), Select(l[..n], Section), Select(l[..n], Include), l[n]);
    }
  }

  lemma PrintedAllLast(l: seq<Node>, x: Node, indent: nat, commented: bool)
    ensures PrintedAll(l + [x], indent, commented) == PrintedAll(l, indent, commented) + Printed(x, indent, commented)
  {
    assert (l + [x])[..|l|] == l;
  }

  lemma {:induction false} PrintedAllAppend(l: seq<Node>, m: seq<Node>, indent: nat, commented: bool)
    ensures PrintedAll(l + m, indent, commented) == PrintedAll(l, indent, commented) + PrintedAll(m, indent, commented)
    decreases |m|
  {
    if m == [] {
      assert l + m == l;
    } else {
      assert (l + m)[..|l| + |m| - 1] == l + m[..|m| - 1];
      PrintedAllAppend(l, m[..|m| - 1], indent, commented);
    }
  }

  lemma {:induction false} PrintedKindIsSelect(l: seq<Node>, kind: Kind, indent: nat, commented: bool)
    ensures PrintedKind(l, kind, indent, commented) == PrintedAll(Select(l, kind), indent, commented)
  {
    if l != [] {
      var n := |l| - 1;
      PrintedKindIsSelect(l[..n], kind, indent, commented);
      PrintedAllLast(Select(l[..n], kind), l[n], indent, commented);
      assert Select(l[..n], kind) + [] == Select(l[..n], kind);
    }
  }

  /** Siblings are printed one after the other, sorted with cmp. */
  lemma PrintsSorted(l: seq<Node>, indent: nat, commented: bool)
    ensures PrintedKind(l, Plain, indent, commented) + PrintedKind(l, Section, indent, commented)
            + PrintedKind(l, Include, indent, commented)
            == PrintedAll(StableSort(ByKind, l), indent, commented)
  {
    SortedByKind(l);
    var a, b, c := Select(l, Plain), Select(l, Section), Select(l, Include);
    PrintedKindIsSelect(l, Plain, indent, commented);
    PrintedKindIsSelect(l, Section, indent, commented);
    PrintedKindIsSelect(l, Include, indent, commented);
    PrintedAllAppend(a + b, c, indent, commented);
    PrintedAllAppend(a, b, indent, commented);
  }

  /** At every depth: a section is its opening line, its options sorted with cmp and one level
      deeper, and its closing line, all commented out if it or one above it is. */
  lemma SectionPrintsSorted(x: Node, indent: nat, commented: bool)
    requires IsSection(x)
    ensures var comment := commented || x.info.commented;
            Printed(x, indent, commented)
            == [Open(indent, comment, x.name, About(x.info))]
               + PrintedAll(StableSort(ByKind, x.options), indent + 1, comment)
               + [Close(indent, comment)]
  {
    var comment := commented || x.info.commented;
    PrintsSorted(x.options, indent + 1, comment);
    var open := [Open(indent, comment, x.name, About(x.info))];
    var a := PrintedKind(x.options, Plain, indent + 1, comment);
    var b := PrintedKind(x.options, Section, indent + 1, comment);
    var c := PrintedKind(x.options, Include, indent + 1, comment);
    Assoc(open, a, b);
    Assoc(open, a + b, c);
  }

  /** The top level */
  lemma FormatPrintsSorted(l: seq<Node>)
    ensures Format(l) == PrintedAll(StableSort(ByKind, l), 0, false)
  {
    PrintsSorted(l, 0, false);
  }

  // ---------------------------------------------------------------- the output is canonical

  /** The same is known about every name. */
  ghost predicate Agree(l: seq<Node>, m: seq<Node>) {
    forall p: seq<string>, section: bool | p != [] :: Lookup(l, p, section) == Lookup(m, p, section)
  }

  lemma ChildrenAgree(l: seq<Node>, m: seq<Node>, name: string, section: bool)
    requires Agree(l, m)
    ensures var x, y := Child(l, name, section), Child(m, name, section);
            && (x.Some? <==> y.Some?)
            && (x.Some? ==> x.value.info == y.value.info && (section ==> Agree(x.value.options, y.value.options)))
  {
    var x, y := Child(l, name, section), Child(m, name, section);
    assert Lookup(l, [name], section) == Lookup(m, [name], section);
    if x.Some? && section {
      forall p: seq<string>, s: bool | p != []
        ensures Lookup(x.value.options, p, s) == Lookup(y.value.options, p, s)
      {
        assert ([name] + p)[1..] == p;
        assert Lookup(l, [name] + p, s) == Lookup(m, [name] + p, s);
      }
    }
  }

  ghost predicate Increasing(names: seq<string>) { forall i, j | 0 <= i < j < |names| :: NameLess(names[i], names[j]) }

  function Names(l: seq<Node>): (r: seq<string>)
    ensures |r| == |l| && forall i | 0 <= i < |l| :: r[i] == l[i].name
  {
    seq(|l|, i requires 0 <= i < |l| => l[i].name)
  }

  lemma NameBefore(l: seq<Node>, x: Node)
    requires Sorted(l) && Unique(l) && l != [] && x in l[..|l| - 1] && x.info.kind == l[|l| - 1].info.kind
    ensures NameLess(x.name, l[|l| - 1].name)
  {
    var n := |l| - 1;
    var j :| 0 <= j < n && l[j] == x;
    assert NotAfter(l[j], l[n]) && !SameKey(l[j], l[n]);
    NameTotal(x.name, l[n].name);
  }

  lemma {:induction false} SelectIncreases(l: seq<Node>, kind: Kind)
    requires Sorted(l) && Unique(l)
    ensures Increasing(Names(Select(l, kind)))
  {
    if l != [] {
      var n := |l| - 1;
      SelectIncreases(l[..n], kind);
      var f := Select(l[..n], kind);
      if l[n].info.kind == kind {
        forall x | x in f ensures NameLess(x.name, l[n].name) {
          NameBefore(l, x);
        }
        IncreasingLast(f, l[n]);
      } else {
        assert Select(l, kind) == f;
      }
    }
  }

  lemma IncreasingLast(f: seq<Node>, x: Node)
    requires Increasing(Names(f)) && forall y | y in f :: NameLess(y.name, x.name)
    ensures Increasing(Names(f + [x]))
  {
    forall i, j | 0 <= i < j <= |f| ensures NameLess(Names(f + [x])[i], Names(f + [x])[j]) {
      assert f[i] in f && Names(f)[i] == f[i].name;
      assert j < |f| ==> Names(f)[j] == f[j].name;
    }
  }

  lemma GreatestIsLast(a: seq<string>, b: seq<string>)
    requires Increasing(a) && Increasing(b) && a != [] && b != [] && forall x :: x in a <==> x in b
    ensures a[|a| - 1] == b[|b| - 1]
  {
    var x, y := a[|a| - 1], b[|b| - 1];
    assert x in b && y in a;
    if x != y {
      var i :| 0 <= i < |a| && a[i] == y;
      var j :| 0 <= j < |b| && b[j] == x;
      assert NameLess(a[i], x) && NameLess(b[j], y);
      NameAsym(x, y);
    }
  }

  /** An increasing sequence is determined by its elements. */
  lemma {:induction false} SameNames(a: seq<string>, b: seq<string>)
    requires Increasing(a) && Increasing(b) && forall x :: x in a <==> x in b
    ensures a == b
    decreases |a|
  {
    if a == [] {
      if b != [] {
        HasSome(b);
      }
    } else {
      var n, m := |a| - 1, |b| - 1;
      assert a[n] in a;
      GreatestIsLast(a, b);
      forall x ensures x in a[..n] <==> x in b[..m] {
        FrontWithoutLast(a, x);
        FrontWithoutLast(b, x);
      }
      SameNames(a[..n], b[..m]);
      assert a == a[..n] + [a[n]] && b == b[..m] + [b[m]];
    }
  }

  lemma HasSome(b: seq<string>)
    requires b != []
    ensures exists x :: x in b
  {
    assert b[0] in b;
  }

  lemma FrontWithoutLast(a: seq<string>, x: string)
    requires Increasing(a) && a != []
    ensures x in a[..|a| - 1] <==> x in a && x != a[|a| - 1]
  {
    var n := |a| - 1;
    if x in a[..n] {
      var i :| 0 <= i < n && a[i] == x;
      NameAsym(a[i], a[n]);
    }
  }

  lemma {:induction false} PointwiseOutput(f: seq<Node>, g: seq<Node>, indent: nat, commented: bool)
    requires |f| == |g|
            && forall i | 0 <= i < |f| :: Printed(f[i], indent, commented) == Printed(g[i], indent, commented)
    ensures PrintedAll(f, indent, commented) == PrintedAll(g, indent, commented)
  {
    if f != [] {
      var n := |f| - 1;
      PointwiseOutput(f[..n], g[..n], indent, commented);
    }
  }

  lemma SelectHas(l: seq<Node>, kind: Kind, x: Node)
    requires x in l && x.info.kind == kind
    ensures x in Select(l, kind)
  {
    if l[|l| - 1] != x {
      SelectHas(l[..|l| - 1], kind, x);
    }
  }

  /** The names of each kind are the same on both sides. */
  lemma NamesAgree(l: seq<Node>, m: seq<Node>, kind: Kind, name: string)
    requires Unique(l) && Unique(m) && Agree(l, m) && name in Names(Select(l, kind))
    ensures name in Names(Select(m, kind))
  {
    var f := Select(l, kind);
    var i :| 0 <= i < |f| && f[i].name == name;
    var j :| 0 <= j < |l| && l[j] == f[i];
    ChildIs(l, j);
    ChildrenAgree(l, m, name, kind == Section);
    var y := Child(m, name, kind == Section).value;
    SelectHas(m, kind, y);
    var k :| 0 <= k < |Select(m, kind)| && Select(m, kind)[k] == y;
    assert Names(Select(m, kind))[k] == name;
  }

  /** Siblings of one kind about which the same is known print the same. */
  lemma KindAgrees(l: seq<Node>, m: seq<Node>, kind: Kind, indent: nat, commented: bool)
    requires Ordered(l) && Ordered(m) && Agree(l, m)
    requires forall i | 0 <= i < |l| :: Alike(l[i], m, indent, commented)
    ensures PrintedKind(l, kind, indent, commented) == PrintedKind(m, kind, indent, commented)
  {
    var f, g := Select(l, kind), Select(m, kind);
    SelectIncreases(l, kind);
    SelectIncreases(m, kind);
    forall x ensures x in Names(f) <==> x in Names(g) {
      if x in Names(f) {
        NamesAgree(l, m, kind, x);
      }
      if x in Names(g) {
        NamesAgree(m, l, kind, x);
      }
    }
    SameNames(Names(f), Names(g));
    forall i | 0 <= i < |f| ensures Printed(f[i], indent, commented) == Printed(g[i], indent, commented) {
      assert f[i] in l && g[i] in m && f[i].name == Names(f)[i] == Names(g)[i] == g[i].name;
      var j :| 0 <= j < |l| && l[j] == f[i];
      var k :| 0 <= k < |m| && m[k] == g[i];
      ChildIs(m, k);
      assert Alike(l[j], m, indent, commented);
    }
    PointwiseOutput(f, g, indent, commented);
    PrintedKindIsSelect(l, kind, indent, commented);
    PrintedKindIsSelect(m, kind, indent, commented);
  }

  /** The node prints as its namesake. */
  ghost predicate Alike(x: Node, m: seq<Node>, indent: nat, commented: bool) {
    var y := Child(m, x.name, IsSection(x));
    y.Some? && Printed(x, indent, commented) == Printed(y.value, indent, commented)
  }

  /** Two stores in which the same is known about every name print the same. */
  lemma {:induction false} Canonical(l: seq<Node>, m: seq<Node>, kind: Kind, indent: nat, commented: bool)
    requires Ordered(l) && Ordered(m) && Agree(l, m)
    ensures PrintedKind(l, kind, indent, commented) == PrintedKind(m, kind, indent, commented)
    decreases l
  {
    forall i | 0 <= i < |l| ensures Alike(l[i], m, indent, commented) {
      var x := l[i];
      ChildIs(l, i);
      ChildrenAgree(l, m, x.name, IsSection(x));
      var y := Child(m, x.name, IsSection(x)).value;
      if IsSection(x) {
        var j :| 0 <= j < |m| && m[j] == y;
        var comment := commented || x.info.commented;
        Canonical(x.options, y.options, Plain, indent + 1, comment);
        Canonical(x.options, y.options, Section, indent + 1, comment);
        Canonical(x.options, y.options, Include, indent + 1, comment);
      }
    }
    KindAgrees(l, m, kind, indent, commented);
  }

  // ---------------------------------------------------------------- whole files

  /** What is printed depends only on what is finally known about each name. */
  lemma OutputIsFinal(defs: seq<Def>, others: seq<Def>)
    requires Named(defs) && Named(others)
    requires forall p: seq<string>, section: bool :: Final(defs, p, section) == Final(others, p, section)
    ensures Format(Build(defs)) == Format(Build(others))
  {
    var l, m := Build(defs), Build(others);
    forall p: seq<string>, section: bool | p != [] ensures Lookup(l, p, section) == Lookup(m, p, section) {
      BuildHoldsFinal(defs, p, section);
      BuildHoldsFinal(others, p, section);
    }
    Canonical(l, m, Plain, 0, false);
    Canonical(l, m, Section, 0, false);
    Canonical(l, m, Include, 0, false);
  }

  /** Describing the same names in another order, or several times alike, prints the same. */
  lemma OutputIgnoresOrder(defs: seq<Def>, others: seq<Def>)
    requires Named(defs) && Consistent(defs) && forall d :: d in defs <==> d in others
    ensures Named(others) && Format(Build(defs)) == Format(Build(others))
  {
    forall p: seq<string>, section: bool ensures Final(defs, p, section) == Final(others, p, section) {
      FinalIgnoresOrder(defs, others, p, section);
    }
    OutputIsFinal(defs, others);
  }
}
