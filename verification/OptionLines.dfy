/** Each line of the snippet that ConfFormatter prints, by the place of its option in the tree. */
module OptionLines {
  import opened Bytes
  import opened FormatOptions
  import opened OptionOutput

  /** From one of the siblings down to an option, each below the section before it */
  ghost predicate IsPath(l: seq<Node>, path: seq<Node>)
    decreases |path|
  {
    && path != [] && path[0] in l
    && (|path| > 1 ==> path[0].info.kind == Section && IsPath(path[0].options, path[1..]))
  }

  /** An option is commented out if it is or one above it is. */
  ghost predicate CommentedOut(path: seq<Node>) { exists x | x in path :: x.info.commented }

  /** The line of the option at the end of a path: indented by its depth, with the first paragraph of
      its description; an include is never commented out. */
  ghost function LineOf(path: seq<Node>, indent: nat, commented: bool): Line
    requires path != []
  {
    var x := path[|path| - 1];
    var at, comment := indent + |path| - 1, commented || CommentedOut(path);
    var about := if x.info.desc == [] then [] else [x.info.desc[0]];
    match x.info.kind
    case Plain => Assign(at, comment, x.name, x.info.default, about)
    case Include => Inclusion(at, x.name, x.info.default, about)
    case Section => Open(at, comment, x.name, about)
  }

  lemma LineBelow(x: Node, path: seq<Node>, indent: nat, commented: bool)
    requires path != []
    ensures LineOf([x] + path, indent, commented) == LineOf(path, indent + 1, commented || x.info.commented)
  {
    var whole := [x] + path;
    assert whole[|whole| - 1] == path[|path| - 1];
    assert CommentedOut(whole) <==> x.info.commented || CommentedOut(path) by {
      assert x in whole && forall y | y in path :: y in whole;
      assert forall y | y in whole :: y == x || y in path;
    }
  }

  // ---------------------------------------------------------------- every option has its line

  lemma {:induction false} NodeShows(x: Node, path: seq<Node>, indent: nat, commented: bool)
    requires IsPath([x], path)
    ensures LineOf(path, indent, commented) in Printed(x, indent, commented)
    decreases x, 1
  {
    assert path[0] == x;
    if |path| == 1 {
      assert path == [x] && (CommentedOut(path) <==> x.info.commented) by { assert x in path; }
    } else {
      var rest, comment := path[1..], commented || x.info.commented;
      assert path == [x] + rest;
      LineBelow(x, rest, indent, commented);
      SiblingShows(x.options, rest, indent + 1, comment);
      InSection(x, indent, commented, LineOf(path, indent, commented), rest[0].info.kind);
    }
  }

  lemma {:induction false} SiblingShows(l: seq<Node>, path: seq<Node>, indent: nat, commented: bool)
    requires IsPath(l, path)
    ensures LineOf(path, indent, commented) in PrintedKind(l, path[0].info.kind, indent, commented)
    decreases l, 0
  {
    var n := |l| - 1;
    if path[0] == l[n] {
      assert IsPath([l[n]], path);
      NodeShows(l[n], path, indent, commented);
    } else {
      assert path[0] in l[..n];
      SiblingShows(l[..n], path, indent, commented);
    }
  }

  lemma InSection(x: Node, indent: nat, commented: bool, line: Line, kind: Kind)
    requires x.info.kind == Section
    requires line in PrintedKind(x.options, kind, indent + 1, commented || x.info.commented)
    ensures line in Printed(x, indent, commented)
  {
  }

  // ---------------------------------------------------------------- every line has its option

  lemma {:induction false} NodeComes(x: Node, line: Line, indent: nat, commented: bool) returns (path: seq<Node>)
    requires line in Printed(x, indent, commented) && !line.Close?
    ensures IsPath([x], path) && line == LineOf(path, indent, commented)
    decreases x, 1
  {
    path := [x];
    assert CommentedOut([x]) <==> x.info.commented by { assert x in [x]; }
    if line != LineOf([x], indent, commented) {
      var kind := KindOfLine(x, line, indent, commented);
      var rest := SiblingComes(x.options, line, kind, indent + 1, commented || x.info.commented);
      path := [x] + rest;
      assert path[1..] == rest;
      LineBelow(x, rest, indent, commented);
    }
  }

  lemma KindOfLine(x: Node, line: Line, indent: nat, commented: bool) returns (kind: Kind)
    requires line in Printed(x, indent, commented) && !line.Close? && line != LineOf([x], indent, commented)
    ensures x.info.kind == Section
    ensures line in PrintedKind(x.options, kind, indent + 1, commented || x.info.commented)
  {
    assert CommentedOut([x]) <==> x.info.commented by { assert x in [x]; }
    var comment := commented || x.info.commented;
    kind := if line in PrintedKind(x.options, Plain, indent + 1, comment) then Plain
            else if line in PrintedKind(x.options, Section, indent + 1, comment) then Section else Include;
  }

  lemma {:induction false} SiblingComes(l: seq<Node>, line: Line, kind: Kind, indent: nat, commented: bool)
      returns (path: seq<Node>)
    requires line in PrintedKind(l, kind, indent, commented) && !line.Close?
    ensures IsPath(l, path) && line == LineOf(path, indent, commented)
    decreases l, 0
  {
    var n := |l| - 1;
    if line in PrintedKind(l[..n], kind, indent, commented) {
      path := SiblingComes(l[..n], line, kind, indent, commented);
    } else {
      path := NodeComes(l[n], line, indent, commented);
    }
  }

  /** The lines that are printed, apart from closing braces, are exactly those of the options of the
      tree, each with its name, default and depth, and commented out if it or one above it is. */
  lemma LinesExactly(l: seq<Node>, line: Line)
    requires !line.Close?
    ensures line in Format(l) <==> exists path :: IsPath(l, path) && line == LineOf(path, 0, false)
  {
    if path :| IsPath(l, path) && line == LineOf(path, 0, false) {
      SiblingShows(l, path, 0, false);
    }
    if line in Format(l) {
      var kind := if line in PrintedKind(l, Plain, 0, false) then Plain
                  else if line in PrintedKind(l, Section, 0, false) then Section else Include;
      var path := SiblingComes(l, line, kind, 0, false);
    }
  }
}
