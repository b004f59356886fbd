/**
 * Reconstruction of the study-area forest from the rows of the rendered
 * tree grid (scraper.py, `Scraper.get_areas`).
 *
 * Each row carries its indentation level. For each row in order, a
 * reference `above` starts at the list of top-level areas and descends
 * `level` times into the subareas of the last element of the current list;
 * the new area is appended there. Descending into an empty list fails with
 * an IndexError.
 */
module TreeBuilder {
  import opened Wrappers
  import opened Areas

  /** `above[-1]` taken on an empty list. */
  datatype TreeError = IndexError

  /** How many times `above = above[-1].subareas` can be taken, starting at `forest`. */
  function RightDepth(forest: seq<Area>): nat
    decreases forest
  {
    if forest == [] then 0 else 1 + RightDepth(forest[|forest| - 1].subareas)
  }

  /** The list `above` refers to after descending `k` times from `forest`. */
  function Spine(forest: seq<Area>, k: nat): (r: seq<Area>)
    requires k <= RightDepth(forest)
    ensures RightDepth(r) == RightDepth(forest) - k
    decreases k
  {
    if k == 0 then forest else Spine(forest[|forest| - 1].subareas, k - 1)
  }

  /**
   * The forest after appending `area` to the list reached by descending
   * `level` times, or None when that descent meets an empty list.
   */
  function AppendAt(forest: seq<Area>, level: nat, area: Area): (r: Option<seq<Area>>)
    ensures r.Some? <==> level <= RightDepth(forest)
    ensures r.Some? ==> RightDepth(r.value) == level + 1 + RightDepth(area.subareas)
    decreases level
  {
    if level == 0 then
      assert (forest + [area])[|forest|] == area;
      Some(forest + [area])
    else if forest == [] then None
    else
      var last := forest[|forest| - 1];
      match AppendAt(last.subareas, level - 1, area)
      case None => None
      case Some(children) =>
        var f := forest[..|forest| - 1] + [last.(subareas := children)];
        assert f[|f| - 1].subareas == children;
        Some(f)
  }

  /** The result of `get_areas` on `rows`, row by row. */
  function BuildForest(rows: seq<Row>): Result<seq<Area>, TreeError>
  {
    if rows == [] then Ok([])
    else
      match BuildForest(rows[..|rows| - 1])
      case Err(e) => Err(e)
      case Ok(forest) =>
        var row := rows[|rows| - 1];
        match AppendAt(forest, row.level, Leaf(row.title))
        case None => Err(IndexError)
        case Some(f) => Ok(f)
  }

  /** The first row is at level 0 and no row is more than one level deeper than the row before it. */
  predicate WellIndented(rows: seq<Row>)
  {
    forall i :: 0 <= i < |rows| ==> IndentOk(rows, i)
  }

  /** Row `i` is at most one level deeper than the row before it (level 0 for the first row). */
  predicate IndentOk(rows: seq<Row>, i: nat)
    requires i < |rows|
  {
    rows[i].level <= if i == 0 then 0 else rows[i - 1].level + 1
  }

  lemma {:induction false} OutlineAppend(xs: seq<Area>, ys: seq<Area>, depth: nat)
    ensures Outline(xs + ys, depth) == Outline(xs, depth) + Outline(ys, depth)
  {
    if xs == [] {
      assert xs + ys == ys;
    } else {
      assert (xs + ys)[0] == xs[0] && (xs + ys)[1..] == xs[1..] + ys;
      OutlineAppend(xs[1..], ys, depth);
    }
  }

  lemma OutlineSingle(a: Area, depth: nat)
    ensures Outline([a], depth) == [Row(depth, a.title)] + Outline(a.subareas, depth + 1)
  {
    assert [a][1..] == [];
  }

  /** Appending one level further down replaces the last area's subareas by the result one level below. */
  lemma AppendAtStep(forest: seq<Area>, level: nat, area: Area, below: seq<Area>)
    requires forest != []
    requires AppendAt(forest[|forest| - 1].subareas, level, area) == Some(below)
    ensures AppendAt(forest, level + 1, area) == Some(forest[..|forest| - 1] + [forest[|forest| - 1].(subareas := below)])
  {
  }

  /** A successful append below the roots went through the last root. */
  lemma AppendAtSplit(forest: seq<Area>, level: nat, area: Area)
    requires 0 < level && AppendAt(forest, level, area).Some?
    ensures forest != [] && AppendAt(forest[|forest| - 1].subareas, level - 1, area).Some?
    ensures AppendAt(forest, level, area).value ==
      forest[..|forest| - 1] + [forest[|forest| - 1].(subareas := AppendAt(forest[|forest| - 1].subareas, level - 1, area).value)]
  {
  }

  /**
   * Appending at `level` adds the new area, with its own subtree, at the end
   * of the pre-order listing, `level` steps below the roots.
   */
  lemma {:induction false} AppendAtOutline(forest: seq<Area>, level: nat, area: Area, depth: nat)
    requires AppendAt(forest, level, area).Some?
    ensures Outline(AppendAt(forest, level, area).value, depth) == Outline(forest, depth) + Outline([area], depth + level)
    decreases level
  {
    if level == 0 {
      OutlineAppend(forest, [area], depth);
    } else {
      AppendAtSplit(forest, level, area);
      var last := forest[|forest| - 1];
      var children := AppendAt(last.subareas, level - 1, area).value;
      AppendAtOutline(last.subareas, level - 1, area, depth + 1);
      OutlineReplaceLast(forest, children, depth, Outline([area], depth + level));
    }
  }

  /** Replacing the last root's subareas by a longer listing grows the listing of the forest by the same rows. */
  lemma OutlineReplaceLast(forest: seq<Area>, children: seq<Area>, depth: nat, extra: seq<Row>)
    requires forest != []
    requires Outline(children, depth + 1) == Outline(forest[|forest| - 1].subareas, depth + 1) + extra
    ensures Outline(forest[..|forest| - 1] + [forest[|forest| - 1].(subareas := children)], depth) == Outline(forest, depth) + extra
  {
    var init, last := forest[..|forest| - 1], forest[|forest| - 1];
    assert forest == init + [last];
    OutlineGrowLast(init, last, children, depth, extra);
  }

  /** Growing the listing of the last root's subareas grows the listing of the forest by the same rows. */
  lemma OutlineGrowLast(init: seq<Area>, last: Area, children: seq<Area>, depth: nat, extra: seq<Row>)
    requires Outline(children, depth + 1) == Outline(last.subareas, depth + 1) + extra
    ensures Outline(init + [last.(subareas := children)], depth) == Outline(init + [last], depth) + extra
  {
    var last' := last.(subareas := children);
    calc {
      Outline(init + [last'], depth);
      { OutlineAppend(init, [last'], depth); }
      Outline(init, depth) + Outline([last'], depth);
      { OutlineSingle(last', depth); }
      Outline(init, depth) + ([Row(depth, last.title)] + Outline(children, depth + 1));
      Outline(init, depth) + ([Row(depth, last.title)] + Outline(last.subareas, depth + 1)) + extra;
      { OutlineSingle(last, depth); }
      Outline(init, depth) + Outline([last], depth) + extra;
      { OutlineAppend(init, [last], depth); }
      Outline(init + [last], depth) + extra;
    }
  }

  /** One step down the rightmost path. */
  lemma {:induction false} SpineStep(forest: seq<Area>, k: nat)
    requires k < RightDepth(forest)
    ensures Spine(forest, k) != []
    ensures Spine(forest, k + 1) == Spine(forest, k)[|Spine(forest, k)| - 1].subareas
    decreases k
  {
    if k > 0 {
      SpineStep(forest[|forest| - 1].subareas, k - 1);
    }
  }

  /** Below the roots, the rightmost path of a forest whose last root's subareas were replaced runs through the new subareas. */
  lemma SpineReplaced(forest: seq<Area>, children: seq<Area>, k: nat)
    requires forest != []
    ensures var f := forest[..|forest| - 1] + [forest[|forest| - 1].(subareas := children)];
      RightDepth(f) == 1 + RightDepth(children) &&
      (k <= RightDepth(children) ==> Spine(f, k + 1) == Spine(children, k)) &&
      (k < RightDepth(forest) ==> Spine(forest, k + 1) == Spine(forest[|forest| - 1].subareas, k))
  {
    var f := forest[..|forest| - 1] + [forest[|forest| - 1].(subareas := children)];
    assert f[|f| - 1].subareas == children;
  }

  /** Appending at `level` adds `area` at the end of the list `level` steps down the rightmost path. */
  lemma {:induction false} AppendAtBottom(forest: seq<Area>, level: nat, area: Area, f: seq<Area>)
    requires AppendAt(forest, level, area) == Some(f)
    ensures level <= RightDepth(forest) && level <= RightDepth(f)
    ensures Spine(f, level) == Spine(forest, level) + [area]
    decreases level
  {
    if level > 0 {
      AppendAtSplit(forest, level, area);
      var last := forest[|forest| - 1];
      var children := AppendAt(last.subareas, level - 1, area).value;
      AppendAtBottom(last.subareas, level - 1, area, children);
      SpineReplaced(forest, children, level - 1);
    }
  }

  /**
   * Appending at `level` changes nothing above that level but the last
   * area of each list on the rightmost path, whose subareas become the
   * changed list below it.
   */
  lemma {:induction false} AppendAtAbove(forest: seq<Area>, level: nat, area: Area, f: seq<Area>, j: nat)
    requires AppendAt(forest, level, area) == Some(f) && j < level
    ensures j < RightDepth(forest) && j + 1 <= RightDepth(f)
    ensures var before := Spine(forest, j);
      before != [] && Spine(f, j) == before[..|before| - 1] + [before[|before| - 1].(subareas := Spine(f, j + 1))]
    decreases j
  {
    AppendAtSplit(forest, level, area);
    var last := forest[|forest| - 1];
    var children := AppendAt(last.subareas, level - 1, area).value;
    SpineReplaced(forest, children, j);
    if j > 0 {
      AppendAtAbove(last.subareas, level - 1, area, children, j - 1);
      SpineReplaced(forest, children, j - 1);
    }
  }

  /**
   * Building succeeds exactly on well-indented rows, and then the pre-order
   * listing of the forest reproduces the rows: every row once, in input
   * order, at the depth given by its level.
   */
  lemma {:induction false} BuildForestCorrect(rows: seq<Row>)
    ensures BuildForest(rows).Ok? <==> WellIndented(rows)
    ensures BuildForest(rows).Ok? ==>
      Outline(BuildForest(rows).value, 0) == rows &&
      RightDepth(BuildForest(rows).value) == if rows == [] then 0 else rows[|rows| - 1].level + 1
  {
    if rows != [] {
      var n := |rows|;
      var init := rows[..n - 1];
      var row := rows[n - 1];
      BuildForestCorrect(init);
      WellIndentedSnoc(rows);
      if BuildForest(init).Ok? {
        AppendRowCorrect(BuildForest(init).value, rows);
      }
    }
  }

  /**
   * One step of the loop: appending a row's area to the forest built from
   * the rows before it succeeds exactly when the row is indented correctly,
   * and extends the outline by that row.
   */
  lemma AppendRowCorrect(forest: seq<Area>, rows: seq<Row>)
    requires rows != []
    requires Outline(forest, 0) == rows[..|rows| - 1]
    requires RightDepth(forest) == if |rows| == 1 then 0 else rows[|rows| - 2].level + 1
    ensures var row := rows[|rows| - 1];
      AppendAt(forest, row.level, Leaf(row.title)).Some? <==> IndentOk(rows, |rows| - 1)
    ensures var row := rows[|rows| - 1];
      AppendAt(forest, row.level, Leaf(row.title)).Some? ==>
      Outline(AppendAt(forest, row.level, Leaf(row.title)).value, 0) == rows &&
      RightDepth(AppendAt(forest, row.level, Leaf(row.title)).value) == row.level + 1
  {
    var row := rows[|rows| - 1];
    if AppendAt(forest, row.level, Leaf(row.title)).Some? {
      AppendAtOutline(forest, row.level, Leaf(row.title), 0);
      OutlineSingle(Leaf(row.title), row.level);
      assert rows == rows[..|rows| - 1] + [row];
    }
  }

  /** Well-indented rows are a well-indented prefix followed by one more well-indented row. */
  lemma WellIndentedSnoc(rows: seq<Row>)
    requires rows != []
    ensures WellIndented(rows) <==> WellIndented(rows[..|rows| - 1]) && IndentOk(rows, |rows| - 1)
  {
    var n := |rows|;
    var init := rows[..n - 1];
    if WellIndented(init) && IndentOk(rows, n - 1) {
      forall i | 0 <= i < n
        ensures IndentOk(rows, i)
      {
        if i < n - 1 {
          assert IndentOk(init, i);
        }
      }
    }
    if WellIndented(rows) {
      forall i | 0 <= i < n - 1
        ensures IndentOk(init, i)
      {
        assert IndentOk(rows, i);
      }
    }
  }

  /** Once building fails on a prefix of the rows, it fails on all of them. */
  lemma {:induction false} BuildForestFailsOnward(rows: seq<Row>, i: nat)
    requires i <= |rows| && BuildForest(rows[..i]).Err?
    ensures BuildForest(rows) == Err(IndexError)
    decreases |rows|
  {
    if i < |rows| {
      var n := |rows|;
      assert rows[..n - 1][..i] == rows[..i];
      BuildForestFailsOnward(rows[..n - 1], i);
    } else {
      assert rows[..i] == rows;
      assert BuildForest(rows).error == IndexError;
    }
  }

  /**
   * One pass of the loop body of `get_areas`: descend `level` times from
   * `areas` into the last element's subareas, then append `area` there.
   * Python appends in place through the `above` alias; here the lists met on
   * the way down are kept in `path` and rebuilt from the bottom up.
   */
  method Attach(areas: seq<Area>, level: nat, area: Area) returns (r: Option<seq<Area>>)
    ensures r == AppendAt(areas, level, area)
  {
    var path: seq<seq<Area>> := [areas];
    var above := areas;
    var i := 0;
    while i < level
      invariant i <= level && i <= RightDepth(areas)
      invariant |path| == i + 1
      invariant forall j :: 0 <= j <= i ==> path[j] == Spine(areas, j)
      invariant above == path[i]
    {
      if above == [] {
        // above[-1] raises IndexError
        return None;
      }
      SpineStep(areas, i);
      above := above[|above| - 1].subareas;
      path := path + [above];
      i := i + 1;
    }
    r := Rebuild(areas, level, area, path);
  }

  /**
   * The append at the bottom of the descent, seen from the top: `path[j]`
   * is the list reached after `j` steps down, and each list on the way is
   * rebuilt with its last area holding the changed list below it.
   */
  method Rebuild(areas: seq<Area>, level: nat, area: Area, path: seq<seq<Area>>) returns (r: Option<seq<Area>>)
    requires level <= RightDepth(areas) && |path| == level + 1
    requires forall j :: 0 <= j <= level ==> path[j] == Spine(areas, j)
    ensures r == AppendAt(areas, level, area)
  {
    var updated := path[level] + [area];
    var i := level;
    while i > 0
      invariant i <= level
      invariant Some(updated) == AppendAt(path[i], level - i, area)
    {
      i := i - 1;
      SpineStep(areas, i);
      var siblings := path[i];
      var last := siblings[|siblings| - 1];
      assert siblings == Spine(areas, i) && path[i + 1] == Spine(areas, i + 1);
      assert last.subareas == path[i + 1];
      ghost var k: nat := level - (i + 1);
      AppendAtStep(siblings, k, area, updated);
      assert k + 1 == level - i;
      updated := siblings[..|siblings| - 1] + [last.(subareas := updated)];
    }
    assert path[0] == areas;
    r := Some(updated);
  }

  /**
   * `get_areas` after the page has been loaded and expanded: the forest of
   * top-level areas built from the rows, or the IndexError of a row more
   * than one level deeper than the row before it.
   */
  method GetAreas(rows: seq<Row>) returns (result: Result<seq<Area>, TreeError>)
    ensures result == BuildForest(rows)
    ensures rows == [] ==> result == Ok([])
    ensures result.Ok? <==> WellIndented(rows)
    ensures result.Ok? ==> Outline(result.value, 0) == rows
  {
    BuildForestCorrect(rows);
    if rows == [] {
      // "No areas found?!" is logged and the empty list returned
      return Ok([]);
    }
    var areas: seq<Area> := [];
    for i := 0 to |rows|
      invariant BuildForest(rows[..i]) == Ok(areas)
    {
      var row := rows[i];
      assert rows[..i + 1][..i] == rows[..i];
      var placed := Attach(areas, row.level, Leaf(row.title));
      if placed.None? {
        BuildForestFailsOnward(rows, i + 1);
        return Err(IndexError);
      }
      areas := placed.value;
    }
    assert rows[..|rows|] == rows;
    return Ok(areas);
  }

  /** One more row: the forest built so far with the row's area appended. */
  lemma BuildForestSnoc(rows: seq<Row>, forest: seq<Area>, row: Row, f: seq<Area>)
    requires BuildForest(rows) == Ok(forest)
    requires AppendAt(forest, row.level, Leaf(row.title)) == Some(f)
    ensures BuildForest(rows + [row]) == Ok(f)
  {
    assert (rows + [row])[..|rows|] == rows;
  }

  /** The appends of the example: a child B under A, a second child C, a new root D, and E under D. */
  lemma ExampleAppendB()
    ensures AppendAt([Leaf("A")], 1, Leaf("B")) == Some([Area("A", [Leaf("B")], [])])
  {
    assert AppendAt([], 0, Leaf("B")) == Some([Leaf("B")]) by {
      assert [] + [Leaf("B")] == [Leaf("B")];
    }
    var f := [Leaf("A")];
    assert f[|f| - 1].subareas == [] && f[..0] == [];
    assert Leaf("A").(subareas := [Leaf("B")]) == Area("A", [Leaf("B")], []);
    assert [] + [Area("A", [Leaf("B")], [])] == [Area("A", [Leaf("B")], [])];
  }

  lemma ExampleAppendC()
    ensures AppendAt([Area("A", [Leaf("B")], [])], 1, Leaf("C")) == Some([Area("A", [Leaf("B"), Leaf("C")], [])])
  {
    assert AppendAt([Leaf("B")], 0, Leaf("C")) == Some([Leaf("B"), Leaf("C")]) by {
      assert [Leaf("B")] + [Leaf("C")] == [Leaf("B"), Leaf("C")];
    }
    var f := [Area("A", [Leaf("B")], [])];
    assert f[|f| - 1].subareas == [Leaf("B")] && f[..0] == [];
    assert f[|f| - 1].(subareas := [Leaf("B"), Leaf("C")]) == Area("A", [Leaf("B"), Leaf("C")], []);
    assert [] + [Area("A", [Leaf("B"), Leaf("C")], [])] == [Area("A", [Leaf("B"), Leaf("C")], [])];
  }

  lemma ExampleAppendE(a: Area)
    ensures AppendAt([a, Leaf("D")], 1, Leaf("E")) == Some([a, Area("D", [Leaf("E")], [])])
  {
    assert AppendAt([], 0, Leaf("E")) == Some([Leaf("E")]) by {
      assert [] + [Leaf("E")] == [Leaf("E")];
    }
    var f := [a, Leaf("D")];
    assert f[|f| - 1] == Leaf("D") && f[..1] == [a];
    assert Leaf("D").(subareas := [Leaf("E")]) == Area("D", [Leaf("E")], []);
    assert f[..1] + [Area("D", [Leaf("E")], [])] == [a, Area("D", [Leaf("E")], [])];
  }

  /** The first three rows of the example: A with the children B and C. */
  lemma ExamplePrefix()
    ensures BuildForest([Row(0, "A"), Row(1, "B"), Row(1, "C")]) == Ok([Area("A", [Leaf("B"), Leaf("C")], [])])
  {
    var a1, a2, a3 := Leaf("A"), Area("A", [Leaf("B")], []), Area("A", [Leaf("B"), Leaf("C")], []);
    var r1 := [] + [Row(0, "A")];
    var r2 := r1 + [Row(1, "B")];
    var r3 := r2 + [Row(1, "C")];
    assert AppendAt([], 0, a1) == Some([a1]) by {
      assert [] + [a1] == [a1];
    }
    BuildForestSnoc([], [], Row(0, "A"), [a1]);
    ExampleAppendB();
    BuildForestSnoc(r1, [a1], Row(1, "B"), [a2]);
    ExampleAppendC();
    BuildForestSnoc(r2, [a2], Row(1, "C"), [a3]);
    assert r3 == [Row(0, "A"), Row(1, "B"), Row(1, "C")];
  }

  /** The first four rows of the example: the tree A with the children B and C, then a new root D. */
  lemma ExampleFourRows(rows: seq<Row>)
    requires rows == [Row(0, "A"), Row(1, "B"), Row(1, "C"), Row(0, "D")]
    ensures BuildForest(rows) == Ok([Area("A", [Leaf("B"), Leaf("C")], []), Leaf("D")])
  {
    var a3 := Area("A", [Leaf("B"), Leaf("C")], []);
    var r3 := [Row(0, "A"), Row(1, "B"), Row(1, "C")];
    ExamplePrefix();
    assert AppendAt([a3], 0, Leaf("D")) == Some([a3, Leaf("D")]) by {
      assert [a3] + [Leaf("D")] == [a3, Leaf("D")];
    }
    assert rows == r3 + [Row(0, "D")];
    BuildForestSnoc(r3, [a3], Row(0, "D"), [a3, Leaf("D")]);
  }

  /** Levels 0, 1, 1, 0, 1 with titles A to E give the forest A -> [B, C], D -> [E]. */
  lemma BuildForestExample()
    ensures BuildForest([Row(0, "A"), Row(1, "B"), Row(1, "C"), Row(0, "D"), Row(1, "E")])
         == Ok([Area("A", [Leaf("B"), Leaf("C")], []), Area("D", [Leaf("E")], [])])
  {
    var a3 := Area("A", [Leaf("B"), Leaf("C")], []);
    var r4 := [Row(0, "A"), Row(1, "B"), Row(1, "C"), Row(0, "D")];
    var r5 := r4 + [Row(1, "E")];
    ExampleFourRows(r4);
    ExampleAppendE(a3);
    BuildForestSnoc(r4, [a3, Leaf("D")], Row(1, "E"), [a3, Area("D", [Leaf("E")], [])]);
    assert r5 == [Row(0, "A"), Row(1, "B"), Row(1, "C"), Row(0, "D"), Row(1, "E")];
  }
}
