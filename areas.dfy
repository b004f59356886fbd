/**
 * Study areas and modules of the catalogue (scraper.py, class Area, and the
 * Module class that db.py imports from it).
 *
 * An Area owns its subareas; the parent back-reference and `flatten()`
 * used by the database layer are modelled by `Flatten`, which lists the
 * nodes of a tree in pre-order together with the position of each node's
 * parent in that list.
 */
module Areas {
  import opened Wrappers

  /** A catalogue module. Its identity is (id, version); title, ects and exam type are content. */
  datatype Module = Module(id: int, version: int, title: string, ects: int, examType: string)

  /** A study area: its title, its subareas in order and the modules it lists directly. */
  datatype Area = Area(title: string, subareas: seq<Area>, modules: seq<Module>)

  /** An area without subareas and modules, as `Area(row)` creates it. */
  function Leaf(title: string): Area
  {
    Area(title, [], [])
  }

  /** One line of a pre-order listing: a node's depth and its title. */
  datatype Row = Row(level: nat, title: string)

  /** The number of areas in a forest, counting every descendant. */
  function Size(forest: seq<Area>): nat
    decreases forest
  {
    if forest == [] then 0
    else 1 + Size(forest[0].subareas) + Size(forest[1..])
  }

  /** The pre-order listing of a forest whose roots are at depth `depth`. */
  function Outline(forest: seq<Area>, depth: nat): seq<Row>
    decreases forest
  {
    if forest == [] then []
    else [Row(depth, forest[0].title)] + Outline(forest[0].subareas, depth + 1) + Outline(forest[1..], depth)
  }

  /** The number of areas in a forest that have at least one subarea. */
  function Branches(forest: seq<Area>): nat
    decreases forest
  {
    if forest == [] then 0
    else (if forest[0].subareas == [] then 0 else 1) + Branches(forest[0].subareas) + Branches(forest[1..])
  }

  /** No title anywhere in the forest contains the character `c`. */
  predicate TitlesAvoid(forest: seq<Area>, c: char)
    decreases forest
  {
    forest == [] || (c !in forest[0].title && TitlesAvoid(forest[0].subareas, c) && TitlesAvoid(forest[1..], c))
  }

  // ---------------------------------------------------------------------
  // Area.__str__ (scraper.py:222-227)
  // ---------------------------------------------------------------------

  /** `sep.join(parts)`. */
  function Join(parts: seq<string>, sep: string): string
  {
    if parts == [] then ""
    else if |parts| == 1 then parts[0]
    else parts[0] + sep + Join(parts[1..], sep)
  }

  /** `str(area)`: a leaf is its title, any other area its title followed by its subareas in brackets. */
  function Render(a: Area): (r: string)
    decreases a, 1
    ensures |a.title| <= |r| && r[..|a.title|] == a.title
    ensures r == a.title <==> a.subareas == []
  {
    if a.subareas == [] then a.title
    else a.title + " -> [" + Join(Renderings(a.subareas), ", ") + "]"
  }

  /** `map(str, forest)`. */
  function Renderings(forest: seq<Area>): (r: seq<string>)
    decreases forest, 0
    ensures |r| == |forest|
  {
    if forest == [] then [] else [Render(forest[0])] + Renderings(forest[1..])
  }

  /** The number of occurrences of `c` in `s`. */
  function Count(c: char, s: string): nat
  {
    if s == [] then 0 else (if s[0] == c then 1 else 0) + Count(c, s[1..])
  }

  lemma {:induction false} CountAppend(c: char, s: string, t: string)
    ensures Count(c, s + t) == Count(c, s) + Count(c, t)
  {
    if s != [] {
      assert (s + t)[0] == s[0] && (s + t)[1..] == s[1..] + t;
      CountAppend(c, s[1..], t);
    } else {
      assert s + t == t;
    }
  }

  /** The total number of occurrences of `c` in a list of strings. */
  function CountAll(c: char, parts: seq<string>): nat
  {
    if parts == [] then 0 else Count(c, parts[0]) + CountAll(c, parts[1..])
  }

  lemma {:induction false} CountJoin(c: char, parts: seq<string>, sep: string)
    requires Count(c, sep) == 0
    ensures Count(c, Join(parts, sep)) == CountAll(c, parts)
  {
    if |parts| > 1 {
      CountAppend(c, parts[0], sep);
      CountAppend(c, parts[0] + sep, Join(parts[1..], sep));
      CountJoin(c, parts[1..], sep);
    }
  }

  /**
   * When no title contains a bracket, the rendering of an area holds exactly
   * one opening and one closing bracket per area that has subareas: the
   * brackets of `str` mirror the nesting of the tree.
   */
  lemma {:induction false} RenderBrackets(a: Area)
    requires TitlesAvoid([a], '[') && TitlesAvoid([a], ']')
    ensures Count('[', Render(a)) == Branches([a])
    ensures Count(']', Render(a)) == Branches([a])
    decreases a, 1
  {
    assert [a][1..] == [];
    if a.subareas != [] {
      var inner := Join(Renderings(a.subareas), ", ");
      RenderingsBrackets(a.subareas);
      CountJoin('[', Renderings(a.subareas), ", ");
      CountJoin(']', Renderings(a.subareas), ", ");
      CountAppend('[', a.title + " -> [", inner);
      CountAppend('[', a.title + " -> [" + inner, "]");
      CountAppend('[', a.title, " -> [");
      CountAppend(']', a.title + " -> [", inner);
      CountAppend(']', a.title + " -> [" + inner, "]");
      CountAppend(']', a.title, " -> [");
      TitleAvoidsCount('[', a.title);
      TitleAvoidsCount(']', a.title);
    } else {
      TitleAvoidsCount('[', a.title);
      TitleAvoidsCount(']', a.title);
    }
  }

  lemma {:induction false} RenderingsBrackets(forest: seq<Area>)
    requires TitlesAvoid(forest, '[') && TitlesAvoid(forest, ']')
    ensures CountAll('[', Renderings(forest)) == Branches(forest)
    ensures CountAll(']', Renderings(forest)) == Branches(forest)
    decreases forest, 0
  {
    if forest != [] {
      var a := forest[0];
      assert [a][1..] == [];
      assert TitlesAvoid([a], '[') && TitlesAvoid([a], ']');
      RenderBrackets(a);
      RenderingsBrackets(forest[1..]);
    }
  }

  /** A root with a leaf and a one-child subarea renders its children in order, nested. */
  lemma RenderExample(a: Area)
    requires a == Area("A", [Leaf("B"), Area("C", [Leaf("D")], [])], [])
    ensures Render(a) == "A -> [B, C -> [D]]"
  {
    var c := Area("C", [Leaf("D")], []);
    assert Renderings([Leaf("D")]) == ["D"];
    assert Render(c) == "C -> [D]";
    assert Renderings([Leaf("B"), c]) == ["B", "C -> [D]"];
    assert Join(["B", "C -> [D]"], ", ") == "B, C -> [D]";
  }

  lemma {:induction false} TitleAvoidsCount(c: char, s: string)
    requires c !in s
    ensures Count(c, s) == 0
  {
    if s != [] {
      TitleAvoidsCount(c, s[1..]);
    }
  }

  // ---------------------------------------------------------------------
  // Area.flatten() and Area.parent, as db.py uses them
  // ---------------------------------------------------------------------

  /** A flattened area: the area and the position of its parent in the flattened list (None for the root). */
  datatype Node = Node(area: Area, parent: Option<nat>)

  /**
   * The pre-order listing of a forest whose first node will sit at position
   * `base` of the whole list and whose roots have the parent `parent`.
   */
  function FlattenFrom(forest: seq<Area>, parent: Option<nat>, base: nat): (r: seq<Node>)
    decreases forest
    ensures |r| == Size(forest)
  {
    if forest == [] then []
    else
      var children := FlattenFrom(forest[0].subareas, Some(base), base + 1);
      [Node(forest[0], parent)] + children + FlattenFrom(forest[1..], parent, base + 1 + |children|)
  }

  /** The areas of a forest in pre-order, each with its whole subtree: `Outline` lists their titles. */
  function Subtrees(forest: seq<Area>): (r: seq<Area>)
    decreases forest
    ensures |r| == Size(forest)
  {
    if forest == [] then []
    else [forest[0]] + Subtrees(forest[0].subareas) + Subtrees(forest[1..])
  }

  /** `Outline` is the title projection of `Subtrees`. */
  lemma {:induction false} OutlineTitles(forest: seq<Area>, depth: nat)
    ensures |Outline(forest, depth)| == Size(forest)
    ensures forall i :: 0 <= i < Size(forest) ==> Outline(forest, depth)[i].title == Subtrees(forest)[i].title
    decreases forest
  {
    if forest != [] {
      var a := forest[0];
      OutlineTitles(a.subareas, depth + 1);
      OutlineTitles(forest[1..], depth);
      var rows := [Row(depth, a.title)] + Outline(a.subareas, depth + 1) + Outline(forest[1..], depth);
      var areas := [a] + Subtrees(a.subareas) + Subtrees(forest[1..]);
      var n := Size(a.subareas);
      forall i | 0 <= i < Size(forest)
        ensures rows[i].title == areas[i].title
      {
        if 0 < i <= n {
          assert rows[i] == Outline(a.subareas, depth + 1)[i - 1] && areas[i] == Subtrees(a.subareas)[i - 1];
        } else if n < i {
          assert rows[i] == Outline(forest[1..], depth)[i - 1 - n] && areas[i] == Subtrees(forest[1..])[i - 1 - n];
        }
      }
    }
  }

  /** The flattened list holds the pre-order areas of the forest, in order. */
  lemma {:induction false} FlattenFromAreas(forest: seq<Area>, parent: Option<nat>, base: nat)
    ensures forall i :: 0 <= i < Size(forest) ==> FlattenFrom(forest, parent, base)[i].area == Subtrees(forest)[i]
    decreases forest
  {
    if forest != [] {
      var a := forest[0];
      var children := FlattenFrom(a.subareas, Some(base), base + 1);
      var rest := FlattenFrom(forest[1..], parent, base + 1 + |children|);
      FlattenFromAreas(a.subareas, Some(base), base + 1);
      FlattenFromAreas(forest[1..], parent, base + 1 + |children|);
      var nodes := [Node(a, parent)] + children + rest;
      var areas := [a] + Subtrees(a.subareas) + Subtrees(forest[1..]);
      forall i | 0 <= i < Size(forest)
        ensures nodes[i].area == areas[i]
      {
        if 0 < i <= |children| {
          assert nodes[i] == children[i - 1] && areas[i] == Subtrees(a.subareas)[i - 1];
        } else if |children| < i {
          assert nodes[i] == rest[i - 1 - |children|] && areas[i] == Subtrees(forest[1..])[i - 1 - |children|];
        }
      }
    }
  }

  /** `area.flatten()`: the area and all its descendants in pre-order, each with its parent's position. */
  function Flatten(root: Area): (r: seq<Node>)
    ensures |r| == Size([root]) && r[0] == Node(root, None)
  {
    FlattenFrom([root], None, 0)
  }

  /**
   * In a pre-order outline, row `p` is the parent of row `i`: it is one
   * level above row `i`, and every row between them is deeper than row `p`
   * (so row `p` is the nearest earlier row one level up).
   */
  ghost predicate ParentOf(rows: seq<Row>, p: nat, i: nat)
    requires p < i < |rows|
  {
    rows[i].level == rows[p].level + 1 &&
    forall k :: p < k < i ==> rows[k].level > rows[p].level
  }

  /** At most one earlier row can be the parent of a row. */
  lemma ParentOfUnique(rows: seq<Row>, p: nat, q: nat, i: nat)
    requires p < i < |rows| && q < i
    requires ParentOf(rows, p, i) && ParentOf(rows, q, i)
    ensures p == q
  {
  }

  /** `ParentOf` survives putting rows before and after the outline. */
  lemma ParentOfShift(pre: seq<Row>, rows: seq<Row>, post: seq<Row>, p: nat, i: nat)
    requires p < i < |rows| && ParentOf(rows, p, i)
    ensures ParentOf(pre + rows + post, |pre| + p, |pre| + i)
  {
    var big := pre + rows + post;
    forall k | |pre| + p < k < |pre| + i
      ensures big[k].level > big[|pre| + p].level
    {
      assert big[k] == rows[k - |pre|] && big[|pre| + p] == rows[p];
    }
    assert big[|pre| + i] == rows[i];
  }

  /**
   * `nodes` and `rows` list the same forest: the same titles in the same
   * order, no row shallower than the forest's depth, and every node is
   * either a root of the forest, with the roots' parent and depth, or a
   * subarea of an earlier node whose row is its row's parent.
   */
  ghost predicate Linked(nodes: seq<Node>, rows: seq<Row>, forest: seq<Area>, parent: Option<nat>, base: nat, depth: nat)
  {
    |nodes| == |rows| &&
    (forall k :: 0 <= k < |rows| ==> rows[k].level >= depth) &&
    forall i :: 0 <= i < |nodes| ==> LinkedAt(nodes, rows, forest, parent, base, depth, i)
  }

  /** Entry `i` of `Linked`: a root of the forest, or a subarea of an earlier entry. */
  ghost predicate LinkedAt(nodes: seq<Node>, rows: seq<Row>, forest: seq<Area>, parent: Option<nat>, base: nat, depth: nat, i: nat)
    requires i < |nodes| == |rows|
  {
    nodes[i].area.title == rows[i].title &&
    ((nodes[i].parent == parent && nodes[i].area in forest && rows[i].level == depth) ||
     Below(nodes, rows, base, i))
  }

  /** Entry `i` is a subarea of an earlier entry, whose row is its row's parent. */
  ghost predicate Below(nodes: seq<Node>, rows: seq<Row>, base: nat, i: nat)
    requires i < |nodes| == |rows|
  {
    nodes[i].parent.Some? && base <= nodes[i].parent.value < base + i &&
    nodes[i].area in nodes[nodes[i].parent.value - base].area.subareas &&
    ParentOf(rows, nodes[i].parent.value - base, i)
  }

  lemma {:induction false} FlattenFromLinked(forest: seq<Area>, parent: Option<nat>, base: nat, depth: nat)
    ensures Linked(FlattenFrom(forest, parent, base), Outline(forest, depth), forest, parent, base, depth)
    decreases forest
  {
    if forest != [] {
      var a := forest[0];
      var children := FlattenFrom(a.subareas, Some(base), base + 1);
      var rest := FlattenFrom(forest[1..], parent, base + 1 + |children|);
      FlattenFromLinked(a.subareas, Some(base), base + 1, depth + 1);
      FlattenFromLinked(forest[1..], parent, base + 1 + |children|, depth);
      LinkedCons(forest, parent, base, depth, children, Outline(a.subareas, depth + 1), rest, Outline(forest[1..], depth));
    }
  }

  /** Putting a first root, its flattened subareas and the flattened remaining roots together keeps `Linked`. */
  lemma LinkedCons(forest: seq<Area>, parent: Option<nat>, base: nat, depth: nat,
                   children: seq<Node>, cRows: seq<Row>, rest: seq<Node>, rRows: seq<Row>)
    requires forest != []
    requires Linked(children, cRows, forest[0].subareas, Some(base), base + 1, depth + 1)
    requires Linked(rest, rRows, forest[1..], parent, base + 1 + |children|, depth)
    ensures Linked([Node(forest[0], parent)] + children + rest, [Row(depth, forest[0].title)] + cRows + rRows,
                   forest, parent, base, depth)
  {
    var nodes := [Node(forest[0], parent)] + children + rest;
    var rows := [Row(depth, forest[0].title)] + cRows + rRows;
    forall k | 0 <= k < |rows|
      ensures rows[k].level >= depth
    {
      if 0 < k <= |cRows| {
        assert rows[k] == cRows[k - 1];
      } else if |cRows| < k {
        assert rows[k] == rRows[k - 1 - |cRows|];
      }
    }
    forall i | 0 <= i < |nodes|
      ensures LinkedAt(nodes, rows, forest, parent, base, depth, i)
    {
      if i == 0 {
      } else if i <= |children| {
        LinkedFromChild(forest, parent, base, depth, children, cRows, rest, rRows, i);
      } else {
        LinkedFromRest(forest, parent, base, depth, children, cRows, rest, rRows, i);
      }
    }
  }

  /** A node of the first root's flattened subareas sits below an earlier node of the whole list. */
  lemma LinkedFromChild(forest: seq<Area>, parent: Option<nat>, base: nat, depth: nat,
                        children: seq<Node>, cRows: seq<Row>, rest: seq<Node>, rRows: seq<Row>, i: nat)
    requires forest != [] && 0 < i <= |children|
    requires Linked(children, cRows, forest[0].subareas, Some(base), base + 1, depth + 1)
    requires |rest| == |rRows|
    ensures var nodes := [Node(forest[0], parent)] + children + rest;
            var rows := [Row(depth, forest[0].title)] + cRows + rRows;
      nodes[i].area.title == rows[i].title && Below(nodes, rows, base, i)
  {
    var nodes := [Node(forest[0], parent)] + children + rest;
    var rows := [Row(depth, forest[0].title)] + cRows + rRows;
    var k := i - 1;
    assert LinkedAt(children, cRows, forest[0].subareas, Some(base), base + 1, depth + 1, k);
    assert nodes[i] == children[k] && rows[i] == cRows[k];
    if children[k].parent == Some(base) && children[k].area in forest[0].subareas && cRows[k].level == depth + 1 {
      assert nodes[0] == Node(forest[0], parent) && rows[0].level == depth;
      forall j | 0 < j < i
        ensures rows[j].level > rows[0].level
      {
        assert rows[j] == cRows[j - 1];
      }
    } else {
      var v := children[k].parent.value;
      assert nodes[v - base] == children[v - (base + 1)];
      ParentOfShift([Row(depth, forest[0].title)], cRows, rRows, v - (base + 1), k);
    }
  }

  /** A node of the remaining roots' flattened list keeps its place relative to its root or parent. */
  lemma LinkedFromRest(forest: seq<Area>, parent: Option<nat>, base: nat, depth: nat,
                       children: seq<Node>, cRows: seq<Row>, rest: seq<Node>, rRows: seq<Row>, i: nat)
    requires forest != [] && |children| == |cRows| && |children| < i < 1 + |children| + |rest|
    requires Linked(rest, rRows, forest[1..], parent, base + 1 + |children|, depth)
    ensures LinkedAt([Node(forest[0], parent)] + children + rest, [Row(depth, forest[0].title)] + cRows + rRows,
                     forest, parent, base, depth, i)
  {
    var nodes := [Node(forest[0], parent)] + children + rest;
    var rows := [Row(depth, forest[0].title)] + cRows + rRows;
    var k := i - 1 - |children|;
    var b' := base + 1 + |children|;
    assert LinkedAt(rest, rRows, forest[1..], parent, b', depth, k);
    assert nodes[i] == rest[k] && rows[i] == rRows[k];
    if rest[k].parent == parent && rest[k].area in forest[1..] && rRows[k].level == depth {
      assert rest[k].area in forest;
    } else {
      var v := rest[k].parent.value;
      assert nodes[v - base] == rest[v - b'];
      assert rows == [Row(depth, forest[0].title)] + cRows + rRows + [];
      ParentOfShift([Row(depth, forest[0].title)] + cRows, rRows, [], v - b', k);
    }
  }

  /**
   * The flattened list is the pre-order of the tree: it has one entry per
   * area, with the titles of the pre-order listing; only the first entry
   * (the root) has no parent, and every other entry's parent is an earlier
   * entry that lists it among its subareas and whose row is its row's
   * parent in the outline: the nearest earlier row one level up. By
   * `ParentOfUnique` no other position qualifies, so the parent position is
   * the one `areas.index(a.parent)` finds, even when equal areas repeat.
   * Each entry holds the area at its place in the pre-order, with its own
   * modules and subareas.
   */
  lemma FlattenIsPreorder(root: Area)
    ensures var nodes := Flatten(root); var rows := Outline([root], 0); var areas := Subtrees([root]);
      |nodes| == |rows| == |areas| == Size([root]) &&
      forall i :: 0 <= i < |nodes| ==> PreorderAt(nodes, rows, areas, i)
  {
    var nodes := Flatten(root);
    var rows := Outline([root], 0);
    var areas := Subtrees([root]);
    var children := FlattenFrom(root.subareas, Some(0), 1);
    var cRows := Outline(root.subareas, 1);
    FlattenFromLinked(root.subareas, Some(0), 1, 1);
    FlattenFromAreas([root], None, 0);
    assert [root][1..] == [] && Outline([root][1..], 0) == [];
    assert nodes == [Node(root, None)] + children + [];
    assert rows == [Row(0, root.title)] + cRows + [];
    forall i | 0 <= i < |nodes|
      ensures PreorderAt(nodes, rows, areas, i)
    {
      if 0 < i {
        LinkedFromChild([root], None, 0, 0, children, cRows, [], [], i);
      }
    }
  }

  /**
   * Entry `i` of a flattened tree: the area at place `i` of the pre-order,
   * under the title of outline row `i`; the root alone has no parent, and
   * any other entry's parent is an earlier entry that lists it among its
   * subareas, whose outline row is the parent of row `i`.
   */
  ghost predicate PreorderAt(nodes: seq<Node>, rows: seq<Row>, areas: seq<Area>, i: nat)
    requires i < |nodes| == |rows| == |areas|
  {
    nodes[i].area == areas[i] && nodes[i].area.title == rows[i].title &&
    (nodes[i].parent.None? <==> i == 0) &&
    (0 < i ==> nodes[i].parent.value < i &&
               nodes[i].area in nodes[nodes[i].parent.value].area.subareas &&
               ParentOf(rows, nodes[i].parent.value, i))
  }

  /**
   * Two equal leaves under different parents: each is flattened with the
   * position of its own parent, as `areas.index(a.parent)` finds it by
   * identity.
   */
  lemma FlattenRepeatedLeaf(root: Area, x: Area, y: Area)
    requires x == Area("X", [Leaf("L")], []) && y == Area("Y", [Leaf("L")], []) && root == Area("R", [x, y], [])
    ensures Flatten(root) ==
      [Node(root, None), Node(x, Some(0)), Node(Leaf("L"), Some(1)), Node(y, Some(0)), Node(Leaf("L"), Some(3))]
  {
    var l := Leaf("L");
    assert [l][1..] == [] && [x, y][1..] == [y] && [y][1..] == [];
    assert FlattenFrom([l], Some(3), 4) == [Node(l, Some(3))];
    assert FlattenFrom([y], Some(0), 3) == [Node(y, Some(0)), Node(l, Some(3))];
    assert FlattenFrom([l], Some(1), 2) == [Node(l, Some(1))];
    assert FlattenFrom([x, y], Some(0), 1) == [Node(x, Some(0)), Node(l, Some(1)), Node(y, Some(0)), Node(l, Some(3))];
  }
}
