/** The value mutator of generate_testcases.py: finding a field by name in a testcase and making one
    testcase per wrong value of it.  Testcases are values here, so a copy is always deep. */
module Testcases {
  import opened Bytes
  import Decimals

  datatype Value = Number(n: int) | Text(s: string)

  /** The "op" member: missing, a string or a list of strings */
  datatype Op = NoOp | Single(s: string) | Several(ops: seq<string>)

  /** A message or field; `rest` are the members nothing here looks at */
  datatype Node = Node(name: string, id: Option<string>, op: Op, value: Option<Value>,
                       rest: map<string, string>, sub: Sub)

  datatype Sub = NoSub | Fields(nodes: seq<Node>)

  /** Where a node is: the position at each level */
  type Path = seq<nat>

  // ---------------------------------------------------------------- finding a node

  predicate ValidPath(l: seq<Node>, p: Path)
    decreases |p|
  {
    p != [] && p[0] < |l| && (|p| > 1 ==> l[p[0]].sub.Fields? && ValidPath(l[p[0]].sub.nodes, p[1..]))
  }

  function NodeAt(l: seq<Node>, p: Path): Node
    requires ValidPath(l, p)
    decreases |p|
  {
    if |p| == 1 then l[p[0]] else NodeAt(l[p[0]].sub.nodes, p[1..])
  }

  /** _find_target, from position `i` of the list on */
  function FindTarget(l: seq<Node>, i: nat, target: string): Option<Path>
    requires i <= |l|
    decreases l, |l| - i
  {
    if i == |l| then None
    else
      var inner := if l[i].sub.Fields? then FindTarget(l[i].sub.nodes, 0, target) else None;
      if inner.Some? then Some([i] + inner.value)
      else if l[i].name == target then Some([i])
      else FindTarget(l, i + 1, target)
  }

  /** Post-order: what is below a node comes before it, siblings in their order. */
  predicate Earlier(p: Path, q: Path) {
    p != [] && (q == [] || p[0] < q[0] || (p[0] == q[0] && Earlier(p[1..], q[1..])))
  }

  ghost predicate Matches(l: seq<Node>, p: Path, target: string) { ValidPath(l, p) && NodeAt(l, p).name == target }

  ghost predicate FirstMatch(l: seq<Node>, i: nat, target: string, p: Path) {
    && Matches(l, p, target) && p[0] >= i
    && forall q | Matches(l, q, target) && q[0] >= i && q != p :: Earlier(p, q)
  }

  /** Positions below the i-th node, and what they name */
  lemma BelowNode(l: seq<Node>, q: Path, target: string)
    requires Matches(l, q, target) && |q| > 1
    ensures l[q[0]].sub.Fields? && Matches(l[q[0]].sub.nodes, q[1..], target)
  {
  }

  lemma AboveNode(l: seq<Node>, i: nat, p: Path, target: string)
    requires i < |l| && l[i].sub.Fields? && Matches(l[i].sub.nodes, p, target)
    ensures Matches(l, [i] + p, target)
  {
    assert ([i] + p)[1..] == p;
  }

  /** The first node of that name in post-order, at any depth, is the one found. */
  lemma {:induction false} FindsFirst(l: seq<Node>, i: nat, target: string)
    requires i <= |l|
    ensures var r := FindTarget(l, i, target);
            && (r.Some? ==> FirstMatch(l, i, target, r.value))
            && (r.None? ==> forall q | Matches(l, q, target) :: q[0] < i)
    decreases l, |l| - i
  {
    if i < |l| {
      var inner := if l[i].sub.Fields? then FindTarget(l[i].sub.nodes, 0, target) else None;
      if l[i].sub.Fields? {
        FindsFirst(l[i].sub.nodes, 0, target);
      }
      if inner.Some? {
        FoundBelow(l, i, target, inner.value);
      } else if l[i].name == target {
        FoundHere(l, i, target);
      } else {
        FindsFirst(l, i + 1, target);
        forall q | Matches(l, q, target) && q[0] >= i ensures q[0] >= i + 1 {
          NothingBelow(l, i, target, q);
        }
      }
    }
  }

  lemma FoundBelow(l: seq<Node>, i: nat, target: string, p: Path)
    requires i < |l| && l[i].sub.Fields? && FirstMatch(l[i].sub.nodes, 0, target, p)
    ensures FirstMatch(l, i, target, [i] + p)
  {
    AboveNode(l, i, p, target);
    forall q | Matches(l, q, target) && q[0] >= i && q != [i] + p ensures Earlier([i] + p, q) {
      assert ([i] + p)[1..] == p && q == [q[0]] + q[1..];
      if q[0] == i && |q| > 1 {
        BelowNode(l, q, target);
      }
    }
  }

  lemma NothingBelow(l: seq<Node>, i: nat, target: string, q: Path)
    requires i < |l| && Matches(l, q, target) && q[0] >= i
    requires l[i].sub.Fields? ==> forall p :: !Matches(l[i].sub.nodes, p, target)
    ensures (q == [i] && l[i].name == target) || q[0] > i
  {
    if q[0] == i && |q| > 1 {
      BelowNode(l, q, target);
    } else if q[0] == i {
      assert q == [i];
    }
  }

  lemma FoundHere(l: seq<Node>, i: nat, target: string)
    requires i < |l| && l[i].name == target
    requires l[i].sub.Fields? ==> forall p :: !Matches(l[i].sub.nodes, p, target)
    ensures FirstMatch(l, i, target, [i])
  {
    assert Matches(l, [i], target);
    forall q | Matches(l, q, target) && q[0] >= i && q != [i] ensures Earlier([i], q) {
      NothingBelow(l, i, target, q);
    }
  }

  // ---------------------------------------------------------------- changing a copy

  function SetHeadId(l: seq<Node>, id: string): seq<Node>
    requires l != []
  {
    l[0 := l[0].(id := Some(id))]
  }

  /** The node at `p` gets the value, and its op becomes "update". */
  function SetValue(l: seq<Node>, p: Path, val: Value): (r: seq<Node>)
    requires ValidPath(l, p)
    ensures |r| == |l|
    decreases |p|
  {
    var x := l[p[0]];
    l[p[0] := if |p| == 1 then x.(value := Some(val), op := Single("update"))
              else x.(sub := Fields(SetValue(x.sub.nodes, p[1..], val)))]
  }

  /** A node without what is below it */
  function Shell(x: Node): Node { x.(sub := NoSub) }

  lemma {:induction false} SetValueDiffers(l: seq<Node>, p: Path, val: Value, q: Path)
    requires ValidPath(l, p)
    ensures ValidPath(SetValue(l, p, val), q) <==> ValidPath(l, q)
    ensures ValidPath(l, q) ==>
              var x, y := NodeAt(l, q), NodeAt(SetValue(l, p, val), q);
              && (x.sub.Fields? <==> y.sub.Fields?)
              && Shell(y) == if q == p then Shell(x).(value := Some(val), op := Single("update")) else Shell(x)
    decreases |p|
  {
    var r := SetValue(l, p, val);
    if q != [] && q[0] == p[0] {
      assert q == [q[0]] + q[1..] && p == [p[0]] + p[1..];
      if |p| > 1 && |q| > 1 {
        SetValueDiffers(l[p[0]].sub.nodes, p[1..], val, q[1..]);
      }
    } else if q != [] && q[0] < |l| {
      assert r[q[0]] == l[q[0]];
    }
  }

  /** What setting the head id leaves as it is */
  lemma HeadIdDiffers(l: seq<Node>, id: string, q: Path)
    requires l != []
    ensures ValidPath(SetHeadId(l, id), q) <==> ValidPath(l, q)
    ensures ValidPath(l, q) ==>
              NodeAt(SetHeadId(l, id), q) == if q == [0] then NodeAt(l, q).(id := Some(id)) else NodeAt(l, q)
  {
    var r := SetHeadId(l, id);
    if q != [] && q[0] < |l| {
      assert r[q[0]].sub == l[q[0]].sub;
      assert |q| == 1 ==> q == [q[0]];
    }
  }

  lemma {:induction false} HeadIdKeepsTarget(l: seq<Node>, id: string, i: nat, target: string)
    requires l != [] && i <= |l|
    ensures FindTarget(SetHeadId(l, id), i, target) == FindTarget(l, i, target)
    decreases |l| - i
  {
    if i < |l| {
      HeadIdKeepsTarget(l, id, i + 1, target);
    }
  }

  /** One generated testcase */
  function Mutated(l: seq<Node>, target: string, id: string, val: Value): (r: seq<Node>)
    requires l != [] && FindTarget(l, 0, target).Some?
  {
    HeadIdKeepsTarget(l, id, 0, target);
    var t := SetHeadId(l, id);
    FindsFirst(t, 0, target);
    SetValue(t, FindTarget(t, 0, target).value, val)
  }

  /** It differs from the original in the head's id and the target's value and op, and in nothing
      else: no node more, less or elsewhere. */
  lemma MutatedDiffers(l: seq<Node>, target: string, id: string, val: Value, q: Path)
    requires l != [] && FindTarget(l, 0, target).Some?
    ensures ValidPath(Mutated(l, target, id, val), q) <==> ValidPath(l, q)
    ensures ValidPath(l, q) ==>
              var x, y := NodeAt(l, q), NodeAt(Mutated(l, target, id, val), q);
              var head := if q == [0] then Shell(x).(id := Some(id)) else Shell(x);
              && (x.sub.Fields? <==> y.sub.Fields?)
              && Shell(y) == if q != FindTarget(l, 0, target).value then head
                             else head.(value := Some(val), op := Single("update"))
  {
    var t := SetHeadId(l, id);
    HeadIdKeepsTarget(l, id, 0, target);
    FindsFirst(t, 0, target);
    HeadIdDiffers(l, id, q);
    SetValueDiffers(t, FindTarget(t, 0, target).value, val, q);
  }

  // ---------------------------------------------------------------- whole runs

  function DigitChar(d: Decimals.Digit): (c: char)
    ensures '0' <= c <= '9' && (c - '0') as int == d
  {
    '0' + d as char
  }

  function Decimal(n: nat): (t: string)
    ensures t != [] && forall i | 0 <= i < |t| :: '0' <= t[i] <= '9'
  {
    Decimals.Written(n, DigitChar)
  }

  lemma DecimalInjective(m: nat, n: nat)
    requires Decimal(m) == Decimal(n)
    ensures m == n
  {
    Decimals.WrittenInjective(m, n, DigitChar);
  }

  function Show(v: Value): string {
    match v
    case Text(s) => s
    case Number(n) => if n < 0 then "-" + Decimal(-n) else Decimal(n)
  }

  /** update-<property>-<value>-<number> */
  function CaseId(property: string, v: Value, n: nat): string {
    "update-" + property + "-" + Show(v) + "-" + Decimal(n)
  }

  lemma SameTail(a: string, d: string, b: string, e: string)
    requires a + "-" + d == b + "-" + e && '-' !in d && '-' !in e
    ensures d == e
  {
    var s := a + "-" + d;
    assert s[|a|] == '-' && s[|b|] == '-';
    assert s[|a| + 1..] == d && s[|b| + 1..] == e;
    assert forall i | |a| < i < |s| :: s[i] == d[i - |a| - 1] && s[i] != '-';
    assert forall i | |b| < i < |s| :: s[i] == e[i - |b| - 1] && s[i] != '-';
  }

  /** No two testcases of one property have the same id, whatever the values are. */
  lemma IdsDiffer(property: string, v: Value, m: nat, w: Value, n: nat)
    requires CaseId(property, v, m) == CaseId(property, w, n)
    ensures m == n
  {
    assert '-' !in Decimal(m) && '-' !in Decimal(n);
    SameTail("update-" + property + "-" + Show(v), Decimal(m), "update-" + property + "-" + Show(w), Decimal(n));
    DecimalInjective(m, n);
  }

  predicate Contains(s: string, t: string) { exists i | 0 <= i <= |s| :: t <= s[i..] }

  /** "update" in op: a member of a list, but any part of a string */
  predicate Updatable(op: Op) {
    match op
    case NoOp => false
    case Single(s) => Contains(s, "update")
    case Several(ops) => "update" in ops
  }

  /** A property: its testcases, and the fields in it whose values are varied */
  datatype Property = Property(id: string, message: string, testcases: seq<seq<Node>>, targets: seq<string>,
                               possible: map<string, set<Value>>, correct: map<string, set<Value>>)

  ghost predicate WellFormed(p: Property) {
    forall t | t in p.targets :: t in p.possible && t in p.correct
  }

  /** A testcase is asked for by its number, the number of a target in it and a value. */
  datatype Pick = Pick(testcase: nat, target: nat, val: Value)

  /** The values that are possible but not correct, for a target that is there and updatable */
  function Wrong(p: Property, i: nat, j: nat): set<Value>
    requires i < |p.testcases| && j < |p.targets| && p.targets[j] in p.possible && p.targets[j] in p.correct
  {
    var found := FindTarget(p.testcases[i], 0, p.targets[j]);
    FindsFirst(p.testcases[i], 0, p.targets[j]);
    if found.None? || !Updatable(NodeAt(p.testcases[i], found.value).op) then {}
    else p.possible[p.targets[j]] - p.correct[p.targets[j]]
  }

  /** The operation names update: as a member of a list, or anywhere in a string. */
  ghost predicate NamesUpdate(op: Op) {
    || (op.Several? && exists i | 0 <= i < |op.ops| :: op.ops[i] == "update")
    || (op.Single? && exists i :: UpdateAt(op.s, i))
  }

  ghost predicate UpdateAt(s: string, i: int) { 0 <= i <= |s| - 6 && s[i..i + 6] == "update" }

  /** The target is there, its first node may be updated, and the value is possible but not correct. */
  ghost predicate Wanted(p: Property, k: Pick)
    requires WellFormed(p)
  {
    && k.testcase < |p.testcases| && k.target < |p.targets|
    && (exists path :: FirstMatch(p.testcases[k.testcase], 0, p.targets[k.target], path)
                       && NamesUpdate(NodeAt(p.testcases[k.testcase], path).op))
    && k.val in p.possible[p.targets[k.target]] && k.val !in p.correct[p.targets[k.target]]
  }

  lemma UpdatableExactly(op: Op)
    ensures Updatable(op) <==> NamesUpdate(op)
  {
    if op.Single? {
      if i :| 0 <= i <= |op.s| && "update" <= op.s[i..] {
        assert op.s[i..i + 6] == op.s[i..][..6] == "update";
        assert UpdateAt(op.s, i);
      }
      if i :| UpdateAt(op.s, i) {
        assert op.s[i..][..6] == op.s[i..i + 6];
        assert "update" <= op.s[i..];
      }
    }
  }

  ghost predicate Asked(p: Property, k: Pick)
    requires WellFormed(p)
  {
    k.testcase < |p.testcases| && k.target < |p.targets| && k.val in Wrong(p, k.testcase, k.target)
  }

  lemma AskedExactly(p: Property, k: Pick)
    requires WellFormed(p)
    ensures Asked(p, k) <==> Wanted(p, k)
  {
    if k.testcase < |p.testcases| && k.target < |p.targets| {
      var l, target := p.testcases[k.testcase], p.targets[k.target];
      FindsFirst(l, 0, target);
      var found := FindTarget(l, 0, target);
      if found.Some? {
        UpdatableExactly(NodeAt(l, found.value).op);
        forall path | FirstMatch(l, 0, target, path) ensures path == found.value {
          NotBoth(path, found.value);
        }
      }
    }
  }

  /** No two nodes are before each other. */
  lemma {:induction false} NotBoth(p: Path, q: Path)
    ensures !(Earlier(p, q) && Earlier(q, p))
    decreases |p|
  {
    if p != [] && q != [] {
      NotBoth(p[1..], q[1..]);
    }
  }

  lemma AskedIsFound(p: Property, k: Pick)
    requires WellFormed(p) && Asked(p, k)
    ensures p.testcases[k.testcase] != [] && FindTarget(p.testcases[k.testcase], 0, p.targets[k.target]).Some?
  {
  }

  /** The testcase made for a pick, as the n-th of its property */
  ghost predicate MadeFor(p: Property, k: Pick, n: nat, t: seq<Node>)
    requires WellFormed(p)
  {
    Asked(p, k) &&
    (AskedIsFound(p, k);
     var id := "update-" + p.id + "-" + Show(k.val) + "-" + Decimal(n);
     t == Mutated(p.testcases[k.testcase], p.targets[k.target], id, k.val))
  }

  /** The picks answered so far: all before target `j` of testcase `i`, and there all but `left` */
  ghost predicate Done(k: Pick, i: nat, j: nat, left: set<Value>) {
    k.testcase < i || (k.testcase == i && (k.target < j || (k.target == j && k.val !in left)))
  }

  ghost predicate Answered(p: Property, out: seq<seq<Node>>, picks: seq<Pick>, i: nat, j: nat, left: set<Value>)
    requires WellFormed(p)
  {
    && |out| == |picks|
    && (forall n | 0 <= n < |out| :: MadeFor(p, picks[n], n + 1, out[n]))
    && (forall m, n | 0 <= m < n < |picks| :: picks[m] != picks[n])
    && forall k: Pick | Asked(p, k) :: k in picks <==> Done(k, i, j, left)
  }

  /** One more testcase, for a value that has not had its turn */
  lemma AnswersOne(p: Property, out: seq<seq<Node>>, picks: seq<Pick>, i: nat, j: nat, left: set<Value>,
                   val: Value, t: seq<Node>)
    requires WellFormed(p) && i < |p.testcases| && j < |p.targets| && Answered(p, out, picks, i, j, left)
    requires val in left && val in Wrong(p, i, j) && MadeFor(p, Pick(i, j, val), |out| + 1, t)
    ensures Answered(p, out + [t], picks + [Pick(i, j, val)], i, j, left - {val})
  {
    var k := Pick(i, j, val);
    assert k !in picks;
    forall x: Pick | Asked(p, x) ensures x in picks + [k] <==> Done(x, i, j, left - {val}) {
      assert x in picks + [k] <==> x in picks || x == k;
    }
  }

  /** The loop over the values of one target */
  method UpdateTarget(p: Property, i: nat, j: nat, cases: seq<seq<Node>>, ghost before: seq<Pick>)
    returns (out: seq<seq<Node>>, ghost picks: seq<Pick>)
    requires WellFormed(p) && i < |p.testcases| && j < |p.targets| && Answered(p, cases, before, i, j, Wrong(p, i, j))
    ensures Answered(p, out, picks, i, j, {})
  {
    var testcase, target := p.testcases[i], p.targets[j];
    out, picks := cases, before;
    var left := Wrong(p, i, j);
    while left != {}
      invariant left <= Wrong(p, i, j) && Answered(p, out, picks, i, j, left)
      decreases |left|
    {
      var val :| val in left;
      assert Asked(p, Pick(i, j, val));
      AskedIsFound(p, Pick(i, j, val));
      var t := Mutated(testcase, target, CaseId(p.id, val, |out| + 1), val);
      AnswersOne(p, out, picks, i, j, left, val, t);
      out, picks, left := out + [t], picks + [Pick(i, j, val)], left - {val};
    }
  }

  /** The testcases answer the picks one by one, no pick twice, and all that is asked for. */
  ghost predicate Complete(p: Property, out: seq<seq<Node>>, picks: seq<Pick>)
    requires WellFormed(p)
  {
    && |out| == |picks|
    && (forall n | 0 <= n < |out| :: MadeFor(p, picks[n], n + 1, out[n]))
    && (forall m, n | 0 <= m < n < |picks| :: picks[m] != picks[n])
    && forall k: Pick :: k in picks <==> Wanted(p, k)
  }

  /** update_values for one property: per testcase and target found in it that may be updated,
      exactly one testcase for each value that is possible but not correct. */
  method UpdateValues(p: Property) returns (out: seq<seq<Node>>)
    requires WellFormed(p)
    ensures exists picks: seq<Pick> :: Complete(p, out, picks)
  {
    out := [];
    ghost var picks: seq<Pick> := [];
    var i := 0;
    while i < |p.testcases|
      invariant 0 <= i <= |p.testcases| && Answered(p, out, picks, i, 0, AllWrong(p, i, 0))
    {
      var j := 0;
      while j < |p.targets|
        invariant 0 <= j <= |p.targets| && Answered(p, out, picks, i, j, AllWrong(p, i, j))
      {
        out, picks := UpdateTarget(p, i, j, out, picks);
        NextTarget(p, out, picks, i, j);
        j := j + 1;
      }
      NextTestcase(p, out, picks, i);
      i := i + 1;
    }
    forall k: Pick ensures k in picks <==> Wanted(p, k) {
      AskedExactly(p, k);
      assert k in picks ==> Asked(p, k);
    }
    assert Complete(p, out, picks);
  }

  ghost function AllWrong(p: Property, i: nat, j: nat): set<Value>
    requires WellFormed(p)
  {
    if i < |p.testcases| && j < |p.targets| then Wrong(p, i, j) else {}
  }

  lemma NextTarget(p: Property, out: seq<seq<Node>>, picks: seq<Pick>, i: nat, j: nat)
    requires WellFormed(p) && i < |p.testcases| && j < |p.targets| && Answered(p, out, picks, i, j, {})
    ensures Answered(p, out, picks, i, j + 1, AllWrong(p, i, j + 1))
  {
    forall k: Pick | Asked(p, k) ensures Done(k, i, j, {}) <==> Done(k, i, j + 1, AllWrong(p, i, j + 1)) {
    }
  }

  lemma NextTestcase(p: Property, out: seq<seq<Node>>, picks: seq<Pick>, i: nat)
    requires WellFormed(p) && i < |p.testcases| && Answered(p, out, picks, i, |p.targets|, {})
    ensures Answered(p, out, picks, i + 1, 0, AllWrong(p, i + 1, 0))
  {
    forall k: Pick | Asked(p, k) ensures Done(k, i, |p.targets|, {}) <==> Done(k, i + 1, 0, AllWrong(p, i + 1, 0)) {
    }
  }

  // ---------------------------------------------------------------- all properties

  const MESSAGES := ["ike_sa_init_response", "ike_auth_1_response", "ike_auth_2_response", "ike_auth_3_response",
                     "401_unauthorized", "200_ok"]

  type Groups = map<string, seq<seq<Node>>>

  /** What each property yields is complete. */
  ghost predicate AllComplete(ps: seq<Property>, outs: seq<seq<seq<Node>>>)
    requires forall p | p in ps :: WellFormed(p)
  {
    |outs| == |ps| && forall i | 0 <= i < |ps| :: IsComplete(ps[i], outs[i])
  }

  ghost predicate IsComplete(p: Property, out: seq<seq<Node>>)
    requires WellFormed(p)
  {
    exists picks: seq<Pick> :: Complete(p, out, picks)
  }

  /** The testcases of one message: those of its properties, in order */
  ghost function Grouped(ps: seq<Property>, outs: seq<seq<seq<Node>>>, message: string): seq<seq<Node>>
    requires |outs| == |ps|
  {
    if ps == [] then []
    else
      var n := |ps| - 1;
      Grouped(ps[..n], outs[..n], message) + if ps[n].message == message then outs[n] else []
  }

  /** A property that has testcases is about one of the messages. */
  predicate Known(p: Property, out: seq<seq<Node>>) { out == [] || p.message in MESSAGES }

  /** The groups are those of these properties. */
  ghost predicate GroupsOf(groups: Groups, ps: seq<Property>, outs: seq<seq<seq<Node>>>)
    requires forall p | p in ps :: WellFormed(p)
  {
    && groups.Keys == (set m | m in MESSAGES)
    && AllComplete(ps, outs) && (forall i | 0 <= i < |ps| :: Known(ps[i], outs[i]))
    && forall m | m in MESSAGES :: groups[m] == Grouped(ps, outs, m)
  }

  function AddedTo(groups: Groups, message: string, out: seq<seq<Node>>): Groups
    requires out == [] || message in groups
  {
    if out == [] then groups else groups[message := groups[message] + out]
  }

  lemma OneMore(groups: Groups, ps: seq<Property>, outs: seq<seq<seq<Node>>>, p: Property, out: seq<seq<Node>>)
    requires WellFormed(p) && forall q | q in ps :: WellFormed(q)
    requires GroupsOf(groups, ps, outs) && IsComplete(p, out) && Known(p, out)
    ensures GroupsOf(AddedTo(groups, p.message, out), ps + [p], outs + [out])
  {
    assert (ps + [p])[..|ps|] == ps && (outs + [out])[..|ps|] == outs;
  }

  /** update_values: the testcases of all properties, grouped by the message a property is about.  No
      result is the KeyError of a testcase for any other message. */
  method UpdateAll(ps: seq<Property>) returns (r: Option<Groups>)
    requires forall p | p in ps :: WellFormed(p)
    ensures r.Some? ==> exists outs: seq<seq<seq<Node>>> :: GroupsOf(r.value, ps, outs)
    ensures r.None? ==> exists p, out :: p in ps && IsComplete(p, out) && !Known(p, out)
  {
    var groups: Groups := map m | m in MESSAGES :: [];
    ghost var outs: seq<seq<seq<Node>>> := [];
    var i := 0;
    while i < |ps|
      invariant 0 <= i <= |ps| && GroupsOf(groups, ps[..i], outs)
    {
      assert ps[i] in ps && ps[..i + 1] == ps[..i] + [ps[i]];
      var out := UpdateValues(ps[i]);
      assert IsComplete(ps[i], out);
      if !Known(ps[i], out) {
        return None;
      }
      OneMore(groups, ps[..i], outs, ps[i], out);
      groups := AddedTo(groups, ps[i].message, out);
      outs := outs + [out];
      i := i + 1;
    }
    assert ps[..i] == ps;
    r := Some(groups);
  }
}
