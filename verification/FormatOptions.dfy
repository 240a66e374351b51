/** The option store of format-options.py and the order in which a configuration is printed.
    Nodes are values here; parents hold their children in a sequence. */
module FormatOptions {
  import opened Bytes

  datatype Kind = Plain | Section | Include

  /** What a definition says about an option or section */
  datatype Info = Info(kind: Kind, default: Option<string>, commented: bool, desc: seq<string>)

  datatype Node = Node(name: string, info: Info, options: seq<Node>)

  /** One parsed definition */
  datatype Def = Def(path: seq<string>, info: Info)

  const BLANK := Info(Section, None, false, [])

  predicate IsSection(x: Node) { x.info.kind == Section }

  // ---------------------------------------------------------------- order of names

  predicate NameLess(a: string, b: string) {
    b != [] && (a == [] || a[0] < b[0] || (a[0] == b[0] && NameLess(a[1..], b[1..])))
  }

  /** The names agree up to `k`; there one ends first, or has the smaller character. */
  ghost predicate LessAt(a: string, b: string, k: nat) {
    && k <= |a| && k < |b| && (forall i | 0 <= i < k :: a[i] == b[i])
    && (k == |a| || a[k] < b[k])
  }

  /** The order of Python strings */
  lemma {:induction false} NameLessExactly(a: string, b: string)
    ensures NameLess(a, b) <==> exists k: nat :: LessAt(a, b, k)
    decreases |a|
  {
    if a == [] || b == [] {
      assert b != [] ==> LessAt(a, b, 0);
    } else if a[0] == b[0] {
      NameLessExactly(a[1..], b[1..]);
      if k: nat :| LessAt(a[1..], b[1..], k) {
        assert forall i | 1 <= i < k + 1 :: a[i] == a[1..][i - 1] && b[i] == b[1..][i - 1];
        assert LessAt(a, b, k + 1);
      }
      if k: nat :| LessAt(a, b, k) {
        assert LessAt(a[1..], b[1..], k - 1);
      }
    } else {
      assert a[0] < b[0] ==> LessAt(a, b, 0);
    }
  }

  lemma {:induction false} NameTotal(a: string, b: string)
    ensures a == b || NameLess(a, b) || NameLess(b, a)
  {
    if a != [] && b != [] && a[0] == b[0] {
      NameTotal(a[1..], b[1..]);
      assert a == [a[0]] + a[1..] && b == [b[0]] + b[1..];
    }
  }

  lemma {:induction false} NameAsym(a: string, b: string)
    requires NameLess(a, b)
    ensures !NameLess(b, a) && a != b
  {
    if a != [] && a[0] == b[0] {
      NameAsym(a[1..], b[1..]);
    }
  }

  lemma {:induction false} NameTrans(a: string, b: string, c: string)
    requires NameLess(a, b) && NameLess(b, c)
    ensures NameLess(a, c)
  {
    if a != [] && a[0] == b[0] == c[0] {
      NameTrans(a[1..], b[1..], c[1..]);
    }
  }

  // ---------------------------------------------------------------- stable sorting

  /** The two orders: __lt__ of nodes, and cmp of the formatter */
  datatype Order = ByName | ByKind

  predicate Less(o: Order, a: Node, b: Node) {
    match o
    case ByName => NameLess(a.name, b.name)
    case ByKind => KindLess(a.info.kind, b.info.kind)
  }

  /** cmp(a, b) < 0: includes last, options before sections */
  predicate KindLess(a: Kind, b: Kind) {
    if a == Include || b == Include then a != Include else a != Section && b == Section
  }

  /** From the right: behind everything that is not greater */
  function Insert(o: Order, l: seq<Node>, x: Node): (r: seq<Node>)
    ensures |r| == |l| + 1
  {
    var n := |l| - 1;
    if l == [] || !Less(o, x, l[n]) then l + [x] else Insert(o, l[..n], x) + [l[n]]
  }

  /** list.sort and sorted */
  function StableSort(o: Order, l: seq<Node>): (r: seq<Node>)
    ensures |r| == |l|
  {
    if l == [] then [] else Insert(o, StableSort(o, l[..|l| - 1]), l[|l| - 1])
  }

  // ---------------------------------------------------------------- the store

  /** The first sibling with this name that is a section or is none */
  function Find(l: seq<Node>, name: string, section: bool): (r: Option<nat>)
    ensures r.Some? ==> r.value < |l| && l[r.value].name == name && IsSection(l[r.value]) == section
    ensures r.Some? ==> forall i | 0 <= i < r.value :: !(l[i].name == name && IsSection(l[i]) == section)
    ensures r.None? ==> forall i | 0 <= i < |l| :: !(l[i].name == name && IsSection(l[i]) == section)
  {
    if l == [] then None
    else if l[0].name == name && IsSection(l[0]) == section then Some(0)
    else
      var r := Find(l[1..], name, section);
      assert forall i | 0 < i < |l| :: l[i] == l[1..][i - 1];
      if r.None? then None else Some(r.value + 1)
  }

  /** append, then sort */
  function Place(l: seq<Node>, x: Node): (r: seq<Node>)
    ensures |r| == |l| + 1
  {
    StableSort(ByName, l + [x])
  }

  /** adopt: everything but whether it is an include */
  function Adopt(info: Info, newer: Info): Info { newer.(kind := info.kind) }

  /** __add_option and __get_option with create set, below the sections already passed */
  function Add(l: seq<Node>, path: seq<string>, info: Info): (r: seq<Node>)
    requires path != []
    decreases |path|
  {
    if |path| == 1 then
      var i := Find(l, path[0], info.kind == Section);
      if i.None? then Place(l, Node(path[0], info, []))
      else var x := l[i.value]; l[i.value := Node(x.name, Adopt(x.info, info), x.options)]
    else
      var i := Find(l, path[0], true);
      if i.None? then Place(l, Node(path[0], BLANK, Add([], path[1..], info)))
      else var x := l[i.value]; l[i.value := Node(x.name, x.info, Add(x.options, path[1..], info))]
  }

  // ---------------------------------------------------------------- siblings stay unique and sorted

  ghost predicate Sorted(l: seq<Node>) { forall i, j | 0 <= i < j < |l| :: NotAfter(l[i], l[j]) }

  predicate NotAfter(a: Node, b: Node) { !NameLess(b.name, a.name) }

  predicate SameKey(a: Node, b: Node) { a.name == b.name && IsSection(a) == IsSection(b) }

  ghost predicate Unique(l: seq<Node>) { forall i, j | 0 <= i < j < |l| :: !SameKey(l[i], l[j]) }

  ghost predicate Ordered(l: seq<Node>) {
    Sorted(l) && Unique(l) && forall i | 0 <= i < |l| :: Ordered(l[i].options)
  }

  lemma {:induction false} SortedIsFixed(l: seq<Node>)
    requires Sorted(l)
    ensures StableSort(ByName, l) == l
  {
    if l != [] {
      var n := |l| - 1;
      var front := l[..n];
      SortedIsFixed(front);
      assert front != [] ==> NotAfter(front[n - 1], l[n]);
      assert Insert(ByName, front, l[n]) == front + [l[n]] == l;
    }
  }

  /** Appending to a sorted list and sorting it is an insertion. */
  lemma PlaceInserts(l: seq<Node>, x: Node)
    requires Sorted(l)
    ensures Place(l, x) == Insert(ByName, l, x)
  {
    SortedIsFixed(l);
    assert (l + [x])[..|l|] == l;
  }

  /** Where an insertion puts the new node: the others keep their order around it. */
  lemma {:induction false} InsertAt(l: seq<Node>, x: Node) returns (k: nat)
    requires Sorted(l)
    ensures k <= |l| && Insert(ByName, l, x) == Splice(l, k, x)
    ensures forall i | 0 <= i < k :: NotAfter(l[i], x)
    ensures forall i | k <= i < |l| :: NameLess(x.name, l[i].name)
  {
    var n := |l| - 1;
    if l == [] {
      k := 0;
    } else if NotAfter(l[n], x) {
      k := |l|;
      forall i | 0 <= i < k ensures NotAfter(l[i], x) {
        if i < n {
          NotLessTrans(l[i].name, l[n].name, x.name);
        }
      }
    } else {
      k := InsertAt(l[..n], x);
      assert l[..n][..k] == l[..k] && l[..n][k..] + [l[n]] == l[k..];
    }
  }

  /** Not greater is transitive. */
  lemma NotLessTrans(a: string, b: string, c: string)
    requires !NameLess(b, a) && !NameLess(c, b)
    ensures !NameLess(c, a)
  {
    if NameLess(c, a) {
      NameTotal(a, b);
      if NameLess(a, b) {
        NameTrans(c, a, b);
      }
    }
  }

  function Splice(l: seq<Node>, k: nat, x: Node): (r: seq<Node>)
    requires k <= |l|
    ensures |r| == |l| + 1 && r[k] == x
    ensures forall i | 0 <= i < k :: r[i] == l[i]
    ensures forall i | k < i < |r| :: r[i] == l[i - 1]
  {
    l[..k] + [x] + l[k..]
  }

  lemma SplicePair(l: seq<Node>, k: nat, x: Node, i: nat, j: nat)
    requires Sorted(l) && Unique(l) && k <= |l| && i < j <= |l| && Find(l, x.name, IsSection(x)).None?
    requires forall i | 0 <= i < k :: NotAfter(l[i], x)
    requires forall i | k <= i < |l| :: NameLess(x.name, l[i].name)
    ensures NotAfter(Splice(l, k, x)[i], Splice(l, k, x)[j]) && !SameKey(Splice(l, k, x)[i], Splice(l, k, x)[j])
  {
    var r := Splice(l, k, x);
    assert r[i] == if i < k then l[i] else if i == k then x else l[i - 1];
    assert r[j] == if j < k then l[j] else if j == k then x else l[j - 1];
    if i == k {
      NameAsym(x.name, l[j - 1].name);
    }
  }

  lemma InsertKeepsOrder(l: seq<Node>, x: Node)
    requires Ordered(l) && Ordered(x.options) && Find(l, x.name, IsSection(x)).None?
    ensures Ordered(Insert(ByName, l, x))
  {
    var k := InsertAt(l, x);
    var r := Splice(l, k, x);
    forall i, j | 0 <= i < j < |r| ensures NotAfter(r[i], r[j]) && !SameKey(r[i], r[j]) {
      SplicePair(l, k, x, i, j);
    }
    assert Sorted(r) && Unique(r);
  }

  lemma UpdateKeepsOrder(l: seq<Node>, i: nat, y: Node)
    requires Ordered(l) && i < |l| && SameKey(l[i], y) && Ordered(y.options)
    ensures Ordered(l[i := y])
  {
    var r := l[i := y];
    assert forall j | 0 <= j < |r| :: r[j].name == l[j].name && IsSection(r[j]) == IsSection(l[j]);
    forall j, k | 0 <= j < k < |r| ensures NotAfter(r[j], r[k]) && !SameKey(r[j], r[k]) {
      assert NotAfter(l[j], l[k]) && !SameKey(l[j], l[k]);
    }
  }

  /** Whatever is defined: at every depth siblings are unique by name and kind, and sorted by name. */
  lemma {:induction false} AddKeepsOrder(l: seq<Node>, path: seq<string>, info: Info)
    requires Ordered(l) && path != []
    ensures Ordered(Add(l, path, info))
    decreases |path|
  {
    if |path| == 1 {
      var i := Find(l, path[0], info.kind == Section);
      if i.None? {
        var x := Node(path[0], info, []);
        PlaceInserts(l, x);
        InsertKeepsOrder(l, x);
      } else {
        var x := l[i.value];
        UpdateKeepsOrder(l, i.value, Node(x.name, Adopt(x.info, info), x.options));
      }
    } else {
      var i := Find(l, path[0], true);
      if i.None? {
        AddKeepsOrder([], path[1..], info);
        var x := Node(path[0], BLANK, Add([], path[1..], info));
        PlaceInserts(l, x);
        InsertKeepsOrder(l, x);
      } else {
        var x := l[i.value];
        AddKeepsOrder(x.options, path[1..], info);
        UpdateKeepsOrder(l, i.value, Node(x.name, x.info, Add(x.options, path[1..], info)));
      }
    }
  }

  // ---------------------------------------------------------------- what the store holds

  function Child(l: seq<Node>, name: string, section: bool): (r: Option<Node>)
    ensures r.Some? ==> r.value in l && r.value.name == name && IsSection(r.value) == section
  {
    var i := Find(l, name, section);
    if i.None? then None else Some(l[i.value])
  }

  /** The option or section with this full name */
  function Lookup(l: seq<Node>, p: seq<string>, section: bool): Option<Info>
    requires p != []
    decreases |p|
  {
    var x := Child(l, p[0], section || |p| > 1);
    if x.None? then None else if |p| == 1 then Some(x.value.info) else Lookup(x.value.options, p[1..], section)
  }

  /** What one definition makes of what was found under a name: itself is set or changed, missing
      sections above it appear, and nothing else happens. */
  function After(found: Option<Info>, path: seq<string>, info: Info, p: seq<string>, section: bool): Option<Info> {
    if p == path && section == (info.kind == Section) then Some(if found.None? then info else Adopt(found.value, info))
    else if section && found.None? && |p| < |path| && p == path[..|p|] then Some(BLANK)
    else found
  }

  /** Among unique siblings the one with the name is the one found. */
  lemma ChildIs(l: seq<Node>, i: nat)
    requires Unique(l) && i < |l|
    ensures Child(l, l[i].name, IsSection(l[i])) == Some(l[i])
  {
    var j := Find(l, l[i].name, IsSection(l[i]));
    assert j.Some?;
    assert SameKey(l[j.value], l[i]);
  }

  lemma SplicedChild(l: seq<Node>, k: nat, x: Node, name: string, section: bool)
    requires k <= |l| && Unique(Splice(l, k, x))
    ensures Child(Splice(l, k, x), name, section)
            == if name == x.name && section == IsSection(x) then Some(x) else Child(l, name, section)
  {
    var r := Splice(l, k, x);
    ChildIs(r, k);
    var c := Find(l, name, section);
    if c.Some? {
      var i := if c.value < k then c.value else c.value + 1;
      assert l[c.value] == r[i];
      ChildIs(r, i);
    } else if !(name == x.name && section == IsSection(x)) {
      forall i | 0 <= i < |r| ensures !(r[i].name == name && IsSection(r[i]) == section) {
        assert i == k || r[i] == l[if i < k then i else i - 1];
      }
    }
  }

  /** Placing a new sibling or replacing one changes what is found under its own name only. */
  lemma PlacedChild(l: seq<Node>, x: Node, name: string, section: bool)
    requires Ordered(l) && Ordered(x.options) && Find(l, x.name, IsSection(x)).None?
    ensures Child(Place(l, x), name, section) ==
            if name == x.name && section == IsSection(x) then Some(x) else Child(l, name, section)
  {
    PlaceInserts(l, x);
    InsertKeepsOrder(l, x);
    var k := InsertAt(l, x);
    SplicedChild(l, k, x, name, section);
  }

  lemma UpdatedChild(l: seq<Node>, i: nat, y: Node, name: string, section: bool)
    requires Unique(l) && i < |l| && SameKey(l[i], y)
    ensures Child(l[i := y], name, section) ==
            if name == y.name && section == IsSection(y) then Some(y) else Child(l, name, section)
  {
    var r := l[i := y];
    assert Unique(r) by {
      forall j, k | 0 <= j < k < |r| ensures !SameKey(r[j], r[k]) {
        assert !SameKey(l[j], l[k]);
      }
    }
    ChildIs(r, i);
    var c := Find(l, name, section);
    if c.Some? {
      assert c.value != i ==> r[c.value] == l[c.value];
      ChildIs(r, c.value);
    }
  }

  /** The node that a definition puts under the first name of its path, in place of `x` if there
      was one */
  function Changed(x: Option<Node>, path: seq<string>, info: Info): Node
    requires path != []
  {
    if |path| == 1 then
      if x.None? then Node(path[0], info, []) else Node(path[0], Adopt(x.value.info, info), x.value.options)
    else
      if x.None? then Node(path[0], BLANK, Add([], path[1..], info))
      else Node(path[0], x.value.info, Add(x.value.options, path[1..], info))
  }

  lemma AddedChild(l: seq<Node>, path: seq<string>, info: Info, name: string, section: bool)
    requires Ordered(l) && path != []
    ensures var s := |path| > 1 || info.kind == Section;
            Child(Add(l, path, info), name, section)
            == if name == path[0] && section == s then Some(Changed(Child(l, name, s), path, info))
               else Child(l, name, section)
  {
    var s := |path| > 1 || info.kind == Section;
    var i := Find(l, path[0], s);
    var y := Changed(Child(l, path[0], s), path, info);
    if i.None? {
      if |path| > 1 {
        AddKeepsOrder([], path[1..], info);
      }
      PlacedChild(l, y, name, section);
    } else {
      UpdatedChild(l, i.value, y, name, section);
    }
  }

  /** Below a section that both names share, its name has no part in it. */
  lemma AfterBelow(found: Option<Info>, path: seq<string>, info: Info, p: seq<string>, section: bool)
    requires |path| > 1 && |p| > 1 && p[0] == path[0]
    ensures After(found, path, info, p, section) == After(found, path[1..], info, p[1..], section)
  {
    assert p == [p[0]] + p[1..] && path == [path[0]] + path[1..];
    if |p| < |path| {
      assert path[..|p|] == [path[0]] + path[1..][..|p| - 1];
    }
  }

  /** The names of a definition's own siblings and of what is next to them */
  lemma LookupNextTo(l: seq<Node>, path: seq<string>, info: Info, p: seq<string>, section: bool)
    requires Ordered(l) && path != [] && p != [] && (|p| == 1 || |path| == 1 || p[0] != path[0])
    ensures Lookup(Add(l, path, info), p, section) == After(Lookup(l, p, section), path, info, p, section)
  {
    AddedChild(l, path, info, p[0], section || |p| > 1);
    if |p| == 1 {
      assert p == [p[0]] && (|path| == 1 ==> path == [path[0]]) && path[..1] == [path[0]];
    } else if |path| == 1 && p[0] == path[0] {
      var x := Child(l, p[0], true);
      assert x.None? ==> Lookup([], p[1..], section).None?;
    }
  }

  lemma {:induction false} LookupAfterAdd(l: seq<Node>, path: seq<string>, info: Info, p: seq<string>, section: bool)
    requires Ordered(l) && path != [] && p != []
    ensures Lookup(Add(l, path, info), p, section) == After(Lookup(l, p, section), path, info, p, section)
    decreases |path|
  {
    if |p| == 1 || |path| == 1 || p[0] != path[0] {
      LookupNextTo(l, path, info, p, section);
    } else {
      var x := Child(l, p[0], true);
      AddedChild(l, path, info, p[0], true);
      var below := if x.None? then [] else x.value.options;
      LookupAfterAdd(below, path[1..], info, p[1..], section);
      assert Lookup(l, p, section) == Lookup(below, p[1..], section);
      AfterBelow(Lookup(l, p, section), path, info, p, section);
    }
  }

  // ---------------------------------------------------------------- whole files

  ghost predicate Named(defs: seq<Def>) { forall d | d in defs :: d.path != [] }

  function Build(defs: seq<Def>): (l: seq<Node>)
    requires Named(defs)
    ensures Ordered(l)
  {
    if defs == [] then []
    else
      var d := defs[|defs| - 1];
      var l := Build(defs[..|defs| - 1]);
      AddKeepsOrder(l, d.path, d.info);
      Add(l, d.path, d.info)
  }

  /** What is known about a name after all the definitions */
  ghost function Final(defs: seq<Def>, p: seq<string>, section: bool): Option<Info> {
    if defs == [] then None
    else
      var d := defs[|defs| - 1];
      After(Final(defs[..|defs| - 1], p, section), d.path, d.info, p, section)
  }

  lemma {:induction false} BuildHoldsFinal(defs: seq<Def>, p: seq<string>, section: bool)
    requires Named(defs) && p != []
    ensures Lookup(Build(defs), p, section) == Final(defs, p, section)
  {
    if defs != [] {
      var d := defs[|defs| - 1];
      BuildHoldsFinal(defs[..|defs| - 1], p, section);
      LookupAfterAdd(Build(defs[..|defs| - 1]), d.path, d.info, p, section);
    }
  }

  predicate Defines(d: Def, p: seq<string>, section: bool) { d.path == p && (d.info.kind == Section) == section }

  predicate Below(d: Def, p: seq<string>) { |p| < |d.path| && p == d.path[..|p|] }

  /** Without a definition of its own, a name is an undescribed section above a defined one, or
      nothing. */
  lemma {:induction false} Undefined(defs: seq<Def>, p: seq<string>, section: bool)
    requires forall d | d in defs :: !Defines(d, p, section)
    ensures Final(defs, p, section) == if section && exists d | d in defs :: Below(d, p) then Some(BLANK) else None
  {
    if defs != [] {
      var n := |defs| - 1;
      var front, d := defs[..n], defs[n];
      Undefined(front, p, section);
      assert d in defs && forall e | e in defs :: e in front || e == d;
      assert (exists e | e in defs :: Below(e, p)) <==> Below(d, p) || exists e | e in front :: Below(e, p);
    }
  }

  /** The first and the last definition of a name, by position */
  ghost predicate FirstAndLast(defs: seq<Def>, p: seq<string>, section: bool, first: nat, last: nat) {
    && first <= last < |defs| && Defines(defs[first], p, section) && Defines(defs[last], p, section)
    && (forall i | 0 <= i < first :: !Defines(defs[i], p, section))
    && forall i | last < i < |defs| :: !Defines(defs[i], p, section)
  }

  /** Each node carries the last definition of its name, except that the first one decides whether
      it is an include: the last definition is carried whole if and only if both agree on that. */
  lemma {:induction false} LastDefinitionExactly(defs: seq<Def>, p: seq<string>, section: bool, first: nat, last: nat)
    requires FirstAndLast(defs, p, section, first, last)
    ensures Final(defs, p, section) == Some(Adopt(defs[first].info, defs[last].info))
    ensures Final(defs, p, section) == Some(defs[last].info) <==>
            (defs[first].info.kind == Include <==> defs[last].info.kind == Include)
    decreases |defs|
  {
    var n := |defs| - 1;
    var front := defs[..n];
    if last < n {
      LastDefinitionExactly(front, p, section, first, last);
    } else if first == last {
      Undefined(front, p, section);
    } else {
      var before := LastBefore(front, p, section, first);
      LastDefinitionExactly(front, p, section, first, before);
    }
  }

  /** An option named include that is later defined as an include statement stays an option. */
  lemma RedefinedInclude()
    ensures var option, statement := Info(Plain, Some("a"), false, []), Info(Include, Some("b"), false, []);
            var defs := [Def(["include"], option), Def(["include"], statement)];
            Final(defs, ["include"], false) == Some(Info(Plain, Some("b"), false, []))
  {
    var option, statement := Info(Plain, Some("a"), false, []), Info(Include, Some("b"), false, []);
    LastDefinitionExactly([Def(["include"], option), Def(["include"], statement)], ["include"], false, 0, 1);
  }

  lemma {:induction false} LastBefore(defs: seq<Def>, p: seq<string>, section: bool, first: nat) returns (last: nat)
    requires first < |defs| && Defines(defs[first], p, section)
            && forall i | 0 <= i < first :: !Defines(defs[i], p, section)
    ensures FirstAndLast(defs, p, section, first, last)
    decreases |defs|
  {
    var n := |defs| - 1;
    if Defines(defs[n], p, section) {
      last := n;
    } else {
      last := LastBefore(defs[..n], p, section, first);
    }
  }

  /** Definitions of one name do not contradict each other. */
  ghost predicate Consistent(defs: seq<Def>) {
    forall d, e | d in defs && e in defs && d.path == e.path && (d.info.kind == Section <==> e.info.kind == Section)
      :: d == e
  }

  /** What is finally known about a name does then not depend on the order of the definitions, nor
      on repetitions. */
  lemma FinalIgnoresOrder(defs: seq<Def>, others: seq<Def>, p: seq<string>, section: bool)
    requires Consistent(defs) && forall d :: d in defs <==> d in others
    ensures Final(defs, p, section) == Final(others, p, section)
  {
    if d :| d in defs && Defines(d, p, section) {
      FinalOfConsistent(defs, p, section, d);
      FinalOfConsistent(others, p, section, d);
    } else {
      assert forall e | e in others :: e in defs;
      Undefined(defs, p, section);
      Undefined(others, p, section);
    }
  }

  lemma FinalOfConsistent(defs: seq<Def>, p: seq<string>, section: bool, d: Def)
    requires Consistent(defs) && d in defs && Defines(d, p, section)
    ensures Final(defs, p, section) == Some(d.info)
  {
    var first := FirstDefinition(defs, p, section, d);
    var last := LastBefore(defs, p, section, first);
    LastDefinitionExactly(defs, p, section, first, last);
    assert defs[first] == d && defs[last] == d;
  }

  lemma {:induction false} FirstDefinition(defs: seq<Def>, p: seq<string>, section: bool, d: Def) returns (first: nat)
    requires d in defs && Defines(d, p, section)
    ensures first < |defs| && Defines(defs[first], p, section)
            && forall i | 0 <= i < first :: !Defines(defs[i], p, section)
    decreases |defs|
  {
    if Defines(defs[0], p, section) {
      first := 0;
    } else {
      var rest := FirstDefinition(defs[1..], p, section, d);
      first := rest + 1;
      assert forall i | 0 < i <= first :: defs[i] == defs[1..][i - 1];
    }
  }

  // ---------------------------------------------------------------- implementation

  /** The paragraphs of a description that are not empty */
  function Paragraphs(desc: seq<string>): (r: seq<string>)
    ensures forall d :: d in r <==> d in desc && d != []
  {
    if desc == [] then []
    else
      assert forall d :: d in desc <==> d == desc[0] || d in desc[1..];
      (if desc[0] == [] then [] else [desc[0]]) + Paragraphs(desc[1..])
  }

  class Parser {
    var options: seq<Node>
    ghost var defs: seq<Def>

    /** The store is what the definitions so far make it. */
    ghost predicate Valid()
      reads this
    {
      Named(defs) && options == Build(defs) && Ordered(options)
    }

    constructor ()
      ensures Valid() && defs == []
    {
      options, defs := [], [];
    }

    /** __add_option */
    method AddOption(path: seq<string>, info: Info)
      requires Valid() && path != []
      modifies this
      ensures Valid() && defs == old(defs) + [Def(path, info.(desc := Paragraphs(info.desc)))]
    {
      var cleaned := info.(desc := Paragraphs(info.desc));
      AddKeepsOrder(options, path, cleaned);
      options := Add(options, path, cleaned);
      defs := defs + [Def(path, cleaned)];
      assert defs[..|defs| - 1] == old(defs);
    }

    /** get_option: the section with this name or, where the path breaks off, nothing */
    method GetOption(path: seq<string>) returns (found: Option<Node>)
      requires Valid()
      ensures found.Some? <==> path != [] && Final(defs, path, true).Some?
      ensures found.Some? ==> IsSection(found.value) && found.value.name == path[|path| - 1]
                              && Final(defs, path, true) == Some(found.value.info)
    {
      found := None;
      var level, i := options, 0;
      if path != [] {
        BuildHoldsFinal(defs, path, true);
      }
      while i < |path|
        invariant 0 <= i <= |path|
        invariant i < |path| ==> Lookup(options, path, true) == Lookup(level, path[i..], true)
        invariant i == 0 ==> found.None?
        invariant i > 0 ==> found.Some? && IsSection(found.value) && found.value.name == path[i - 1]
        invariant 0 < i == |path| ==> Lookup(options, path, true) == Some(found.value.info)
      {
        found := Child(level, path[i], true);
        if found.None? {
          return;
        }
        assert path[i..][0] == path[i] && path[i..][1..] == path[i + 1..];
        level, i := found.value.options, i + 1;
      }
    }
  }
}
