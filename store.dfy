/**
 * The tables of the catalogue database (db.py, `_create_tables`) as values,
 * and the rows `save_area` derives from an area tree.
 *
 * study_areas keeps its rows in insertion order; modules_study_areas, whose
 * primary key is the whole row, is a set; programs and modules are maps
 * from their primary keys.
 */
module Store {
  import opened Wrappers
  import opened Areas

  /** A programs row without its key: title and degree. */
  datatype Program = Program(title: string, degree: string)

  /** The primary key of the modules table. */
  datatype ModuleKey = ModuleKey(id: int, version: int)

  /** A modules row without its key; the detail columns are left out. */
  datatype ModuleRow = ModuleRow(title: string, ects: int, examType: string, detailsFetched: bool)

  /** A study_areas row. */
  datatype AreaRow = AreaRow(id: int, title: string, parentId: Option<int>, programId: int)

  /** A modules_study_areas row. */
  datatype Link = Link(areaId: int, moduleId: int, moduleVersion: int)

  function KeyOf(m: Module): ModuleKey
  {
    ModuleKey(m.id, m.version)
  }

  function LinkKey(l: Link): ModuleKey
  {
    ModuleKey(l.moduleId, l.moduleVersion)
  }

  function AreaIds(rows: seq<AreaRow>): set<int>
  {
    set r | r in rows :: r.id
  }

  /** `SELECT max(id) FROM study_areas` on a non-empty table. */
  function MaxId(rows: seq<AreaRow>): (m: int)
    requires rows != []
    ensures m in AreaIds(rows)
    ensures forall r :: r in rows ==> r.id <= m
  {
    if |rows| == 1 then rows[0].id
    else
      var m := MaxId(rows[1..]);
      assert forall r :: r in rows ==> r == rows[0] || r in rows[1..];
      if rows[0].id > m then rows[0].id else m
  }

  /** The first id `save_area` assigns: 1 on an empty table, one more than the largest id otherwise. */
  function FirstAreaId(rows: seq<AreaRow>): (first: int)
    ensures forall r :: r in rows ==> r.id < first
    ensures rows == [] ==> first == 1
    ensures rows != [] ==> first - 1 in AreaIds(rows)
  {
    if rows == [] then 1 else MaxId(rows) + 1
  }

  /** No two entries of `s` are equal. */
  predicate NoDuplicates<T(==)>(s: seq<T>)
  {
    forall i, j :: 0 <= i < j < |s| ==> s[i] != s[j]
  }

  /** No two modules of the list share (id, version). */
  predicate KeysDistinct(ms: seq<Module>)
  {
    forall i, j :: 0 <= i < j < |ms| ==> KeyOf(ms[i]) != KeyOf(ms[j])
  }

  /**
   * What the operations of the database keep true of study_areas and
   * modules_study_areas: ids are unique, a parent row is an earlier row
   * with a smaller id, and every association names an existing area.
   */
  ghost predicate WellFormed(areas: seq<AreaRow>, links: set<Link>)
  {
    (forall i, j :: 0 <= i < j < |areas| ==> areas[i].id != areas[j].id) &&
    (forall r :: r in areas && r.parentId.Some? ==> r.parentId.value in AreaIds(areas) && r.parentId.value < r.id) &&
    (forall l :: l in links ==> l.areaId in AreaIds(areas))
  }

  // ---------------------------------------------------------------------
  // The rows save_area writes (db.py:130-145)
  // ---------------------------------------------------------------------

  /** `parent_id` of a flattened area: None for the root, else `first_id + areas.index(a.parent)`. */
  function ParentId(node: Node, firstId: int): Option<int>
  {
    if node.parent.None? then None else Some(firstId + node.parent.value)
  }

  /** `a_data`: one study_areas row per flattened area, with ids from `firstId` on. */
  function AreaRowsOf(nodes: seq<Node>, firstId: int, programId: int): (rows: seq<AreaRow>)
  {
    seq(|nodes|, i requires 0 <= i < |nodes| =>
      AreaRow(firstId + i, nodes[i].area.title, ParentId(nodes[i], firstId), programId))
  }

  /** `[(id, m.id, m.version) for m in area.modules]`. */
  function LinksOf(area: Area, id: int): (rows: seq<Link>)
  {
    seq(|area.modules|, j requires 0 <= j < |area.modules| =>
      Link(id, area.modules[j].id, area.modules[j].version))
  }

  /** The number of (area, module) pairs of a flattened tree. */
  function ModuleCount(nodes: seq<Node>): nat
  {
    if nodes == [] then 0 else ModuleCount(nodes[..|nodes| - 1]) + |nodes[|nodes| - 1].area.modules|
  }

  /** `ma_data`: the association rows of each flattened area in turn. */
  function LinkRowsOf(nodes: seq<Node>, firstId: int): (rows: seq<Link>)
    ensures |rows| == ModuleCount(nodes)
  {
    if nodes == [] then []
    else LinkRowsOf(nodes[..|nodes| - 1], firstId) + LinksOf(nodes[|nodes| - 1].area, firstId + |nodes| - 1)
  }

  /**
   * The loop of `save_area` over `enumerate(areas)`, building `a_data` and
   * `ma_data`. Every parent must be one of the listed areas, as
   * `areas.index(a.parent)` demands.
   */
  method AreaRows(nodes: seq<Node>, firstId: int, programId: int) returns (aData: seq<AreaRow>, maData: seq<Link>)
    requires forall i :: 0 <= i < |nodes| && nodes[i].parent.Some? ==> nodes[i].parent.value < |nodes|
    ensures aData == AreaRowsOf(nodes, firstId, programId)
    ensures maData == LinkRowsOf(nodes, firstId)
  {
    aData, maData := [], [];
    for i := 0 to |nodes|
      invariant aData == AreaRowsOf(nodes[..i], firstId, programId)
      invariant maData == LinkRowsOf(nodes[..i], firstId)
    {
      var a := nodes[i];
      var parentId: Option<int>;
      if a.parent.None? {
        parentId := None;
      } else {
        parentId := Some(firstId + a.parent.value);
      }
      aData := aData + [AreaRow(firstId + i, a.area.title, parentId, programId)];
      var rows: seq<Link> := [];
      for j := 0 to |a.area.modules|
        invariant rows == LinksOf(a.area, firstId + i)[..j]
      {
        var m := a.area.modules[j];
        rows := rows + [Link(firstId + i, m.id, m.version)];
      }
      maData := maData + rows;
      assert nodes[..i + 1][..i] == nodes[..i];
    }
    assert nodes[..|nodes|] == nodes;
  }

  /**
   * The study_areas rows of a tree: one per area in pre-order, with ids
   * `firstId` to `firstId + n - 1` and the given program. The root has no
   * parent id; every other row names as parent the row of the area that
   * lists it among its subareas, which comes earlier and has a smaller id,
   * and which is the nearest earlier row one level up in the tree's
   * outline: the row of the very area object the node hangs under. Row `i`
   * belongs to area `i` of the tree's pre-order, modules included.
   */
  lemma AreaRowsOfTree(root: Area, firstId: int, programId: int)
    ensures var rows := AreaRowsOf(Flatten(root), firstId, programId);
      |rows| == |Outline([root], 0)| == Size([root]) && rows[0] == AreaRow(firstId, root.title, None, programId)
    ensures var nodes := Flatten(root); var rows := AreaRowsOf(nodes, firstId, programId);
      forall i :: 0 <= i < |rows| ==> AreaRowAt(nodes, rows, Subtrees([root]), Outline([root], 0), firstId, programId, i)
  {
    var nodes := Flatten(root);
    var rows := AreaRowsOf(nodes, firstId, programId);
    FlattenIsPreorder(root);
    var areas := Subtrees([root]);
    var outline := Outline([root], 0);
    forall i | 0 <= i < |rows|
      ensures AreaRowAt(nodes, rows, areas, outline, firstId, programId, i)
    {
      assert PreorderAt(nodes, outline, areas, i);
    }
  }

  /**
   * Row `i` of `rows` is the study_areas row of flattened area `i`, which is
   * area `i` of the pre-order `areas`, linked to its parent's row, which is
   * that of the parent row in `outline`.
   */
  ghost predicate AreaRowAt(nodes: seq<Node>, rows: seq<AreaRow>, areas: seq<Area>, outline: seq<Row>,
                           firstId: int, programId: int, i: int)
    requires 0 <= i < |rows| == |nodes| == |areas| == |outline|
  {
    rows[i].id == firstId + i && rows[i].programId == programId && nodes[i].area == areas[i] &&
    rows[i].title == nodes[i].area.title == outline[i].title &&
    (rows[i].parentId.None? <==> i == 0) &&
    (0 < i ==> rows[i].parentId.Some? &&
               firstId <= rows[i].parentId.value < rows[i].id &&
               nodes[i].area in nodes[rows[i].parentId.value - firstId].area.subareas &&
               ParentOf(outline, rows[i].parentId.value - firstId, i))
  }

  /** Inserting `rows` into study_areas repeats no id. */
  predicate AreaKeysFree(table: seq<AreaRow>, rows: seq<AreaRow>)
  {
    (forall i :: 0 <= i < |rows| ==> rows[i].id !in AreaIds(table)) &&
    (forall i, j :: 0 <= i < j < |rows| ==> rows[i].id != rows[j].id)
  }

  /** The ids `save_area` assigns are new to the table and distinct. */
  lemma AreaRowsFresh(table: seq<AreaRow>, nodes: seq<Node>, programId: int)
    ensures AreaKeysFree(table, AreaRowsOf(nodes, FirstAreaId(table), programId))
  {
    var first := FirstAreaId(table);
    var rows := AreaRowsOf(nodes, first, programId);
    forall i | 0 <= i < |rows|
      ensures rows[i].id !in AreaIds(table)
    {
      assert rows[i].id >= first;
    }
  }

  /**
   * Module `j` of area `i` has its association row, tagged with the area's
   * id, at position `ModuleCount(nodes[..i]) + j`: the rows list every
   * (area, module) pair once, area by area.
   */
  lemma {:induction false} LinkRowsAt(nodes: seq<Node>, firstId: int, i: nat, j: nat)
    requires i < |nodes| && j < |nodes[i].area.modules|
    ensures ModuleCount(nodes[..i]) + j < |LinkRowsOf(nodes, firstId)|
    ensures LinkRowsOf(nodes, firstId)[ModuleCount(nodes[..i]) + j]
         == Link(firstId + i, nodes[i].area.modules[j].id, nodes[i].area.modules[j].version)
    decreases |nodes|
  {
    var n := |nodes|;
    var init := nodes[..n - 1];
    if i == n - 1 {
      assert nodes[..i] == init;
    } else {
      assert init[..i] == nodes[..i];
      assert init[i] == nodes[i];
      LinkRowsAt(init, firstId, i, j);
    }
  }

  /** Every association row comes from a module `j` of a flattened area `i`, tagged with that area's id. */
  lemma {:induction false} LinkRowSource(nodes: seq<Node>, firstId: int, k: nat) returns (i: nat, j: nat)
    requires k < |LinkRowsOf(nodes, firstId)|
    ensures i < |nodes| && j < |nodes[i].area.modules|
    ensures LinkRowsOf(nodes, firstId)[k] == Link(firstId + i, nodes[i].area.modules[j].id, nodes[i].area.modules[j].version)
    decreases |nodes|
  {
    var n := |nodes|;
    var init := nodes[..n - 1];
    var head := LinkRowsOf(init, firstId);
    if k < |head| {
      i, j := LinkRowSource(init, firstId, k);
      assert init[i] == nodes[i];
    } else {
      i, j := n - 1, k - |head|;
    }
  }

  /**
   * The association rows `save_area` writes for a tree: one row
   * (first_id + i, id, version) for each module of area `i` of the tree's
   * pre-order, whose study_areas row has the id first_id + i, and no other.
   */
  lemma TreeLinkRows(root: Area, firstId: int)
    ensures forall i, m :: 0 <= i < Size([root]) && m in Subtrees([root])[i].modules ==>
              Link(firstId + i, m.id, m.version) in LinkSet(Flatten(root), firstId)
    ensures forall l :: l in LinkSet(Flatten(root), firstId) ==>
              exists i, m :: 0 <= i < Size([root]) && m in Subtrees([root])[i].modules && l == Link(firstId + i, m.id, m.version)
  {
    var nodes := Flatten(root);
    var areas := Subtrees([root]);
    FlattenIsPreorder(root);
    forall i, m | 0 <= i < Size([root]) && m in areas[i].modules
      ensures Link(firstId + i, m.id, m.version) in LinkSet(nodes, firstId)
    {
      assert PreorderAt(nodes, Outline([root], 0), areas, i);
      var j :| 0 <= j < |nodes[i].area.modules| && nodes[i].area.modules[j] == m;
      LinkRowsAt(nodes, firstId, i, j);
    }
    forall l | l in LinkSet(nodes, firstId)
      ensures exists i, m :: 0 <= i < Size([root]) && m in areas[i].modules && l == Link(firstId + i, m.id, m.version)
    {
      var k :| 0 <= k < |LinkRowsOf(nodes, firstId)| && LinkRowsOf(nodes, firstId)[k] == l;
      var i, j := LinkRowSource(nodes, firstId, k);
      assert PreorderAt(nodes, Outline([root], 0), areas, i);
      assert nodes[i].area.modules[j] in areas[i].modules;
    }
  }

  /** The association rows of a tree repeat no row exactly when no area lists a module twice. */
  lemma {:induction false} LinkRowsDistinct(nodes: seq<Node>, firstId: int)
    ensures NoDuplicates(LinkRowsOf(nodes, firstId)) <==>
            forall i :: 0 <= i < |nodes| ==> KeysDistinct(nodes[i].area.modules)
    decreases |nodes|
  {
    if nodes != [] {
      var n := |nodes|;
      var init := nodes[..n - 1];
      var head := LinkRowsOf(init, firstId);
      var tail := LinksOf(nodes[n - 1].area, firstId + n - 1);
      assert LinkRowsOf(nodes, firstId) == head + tail;
      LinkRowsDistinct(init, firstId);
      LinkRowsBelow(init, firstId);
      NoDuplicatesAppend(head, tail);
      LinksOfDistinct(nodes[n - 1].area, firstId + n - 1);
      KeysDistinctSnoc(nodes, init);
    }
  }

  /** No area of the list repeats a key exactly when none of all but the last does and the last does not. */
  lemma KeysDistinctSnoc(nodes: seq<Node>, init: seq<Node>)
    requires nodes != [] && init == nodes[..|nodes| - 1]
    ensures (forall i :: 0 <= i < |nodes| ==> KeysDistinct(nodes[i].area.modules)) <==>
            (forall i :: 0 <= i < |init| ==> KeysDistinct(init[i].area.modules)) &&
            KeysDistinct(nodes[|nodes| - 1].area.modules)
  {
    assert forall i :: 0 <= i < |init| ==> init[i] == nodes[i];
  }

  /** The association rows of the first `|nodes|` areas carry ids below `firstId + |nodes|`. */
  lemma LinkRowsBelow(nodes: seq<Node>, firstId: int)
    ensures forall k :: 0 <= k < |LinkRowsOf(nodes, firstId)| ==> LinkRowsOf(nodes, firstId)[k].areaId < firstId + |nodes|
  {
    forall k | 0 <= k < |LinkRowsOf(nodes, firstId)|
      ensures LinkRowsOf(nodes, firstId)[k].areaId < firstId + |nodes|
    {
      var i, j := LinkRowSource(nodes, firstId, k);
    }
  }

  /** The association rows of one area repeat no row exactly when its modules have distinct keys. */
  lemma LinksOfDistinct(area: Area, id: int)
    ensures NoDuplicates(LinksOf(area, id)) <==> KeysDistinct(area.modules)
  {
    var ms := area.modules;
    var rows := LinksOf(area, id);
    assert forall a, b :: 0 <= a < |ms| && 0 <= b < |ms| ==> (rows[a] == rows[b] <==> KeyOf(ms[a]) == KeyOf(ms[b]));
  }

  /** A concatenation repeats nothing when neither part does and no entry of the second lies in the first. */
  lemma NoDuplicatesAppend<T>(a: seq<T>, b: seq<T>)
    requires forall x, y :: 0 <= x < |a| && 0 <= y < |b| ==> a[x] != b[y]
    ensures NoDuplicates(a + b) <==> NoDuplicates(a) && NoDuplicates(b)
  {
    var c := a + b;
    if NoDuplicates(a) && NoDuplicates(b) {
      forall x, y | 0 <= x < y < |c|
        ensures c[x] != c[y]
      {
        if y < |a| {
          assert c[x] == a[x] && c[y] == a[y];
        } else if x >= |a| {
          assert c[x] == b[x - |a|] && c[y] == b[y - |a|];
        } else {
          assert c[x] == a[x] && c[y] == b[y - |a|];
        }
      }
    }
    if NoDuplicates(c) {
      forall x, y | 0 <= x < y < |a|
        ensures a[x] != a[y]
      {
        assert c[x] == a[x] && c[y] == a[y];
      }
      forall x, y | 0 <= x < y < |b|
        ensures b[x] != b[y]
      {
        assert c[|a| + x] == b[x] && c[|a| + y] == b[y];
      }
    }
  }

  /** On a well-formed store, no association row of a new tree is already present. */
  lemma LinkRowsFresh(areas: seq<AreaRow>, links: set<Link>, nodes: seq<Node>)
    requires WellFormed(areas, links)
    ensures forall k :: 0 <= k < |LinkRowsOf(nodes, FirstAreaId(areas))| ==> LinkRowsOf(nodes, FirstAreaId(areas))[k] !in links
  {
    var first := FirstAreaId(areas);
    var rows := LinkRowsOf(nodes, first);
    forall k | 0 <= k < |rows|
      ensures rows[k] !in links
    {
      var i, j := LinkRowSource(nodes, first, k);
      assert rows[k].areaId !in AreaIds(areas);
    }
  }

  /** The association rows as the set the table holds. */
  function LinkSet(nodes: seq<Node>, firstId: int): (s: set<Link>)
  {
    set l | l in LinkRowsOf(nodes, firstId)
  }

  /**
   * `save_area` keeps the store well formed: the new ids are fresh and
   * distinct, every new parent is an earlier new row, and every new
   * association names a new area.
   */
  lemma SaveAreaKeepsWellFormed(areas: seq<AreaRow>, links: set<Link>, root: Area, programId: int)
    requires WellFormed(areas, links)
    ensures var first := FirstAreaId(areas);
      WellFormed(areas + AreaRowsOf(Flatten(root), first, programId), links + LinkSet(Flatten(root), first))
  {
    SavedIdsDistinct(areas, links, root, programId);
    SavedParentsExist(areas, links, root, programId);
    SavedLinksExist(areas, links, root, programId);
  }

  /** The ids of the table after `save_area` are still pairwise distinct. */
  lemma SavedIdsDistinct(areas: seq<AreaRow>, links: set<Link>, root: Area, programId: int)
    requires WellFormed(areas, links)
    ensures var all := areas + AreaRowsOf(Flatten(root), FirstAreaId(areas), programId);
      forall i, j :: 0 <= i < j < |all| ==> all[i].id != all[j].id
  {
    var first := FirstAreaId(areas);
    var nodes := Flatten(root);
    var rows := AreaRowsOf(nodes, first, programId);
    var all := areas + rows;
    forall i, j | 0 <= i < j < |all|
      ensures all[i].id != all[j].id
    {
      if j < |areas| {
        assert all[i] == areas[i] && all[j] == areas[j];
      } else if i >= |areas| {
        assert all[i] == rows[i - |areas|] && all[j] == rows[j - |areas|];
      } else {
        assert all[i] in areas && all[j] == rows[j - |areas|];
      }
    }
  }

  /** After `save_area` every parent id is still an existing id smaller than the row's own. */
  lemma SavedParentsExist(areas: seq<AreaRow>, links: set<Link>, root: Area, programId: int)
    requires WellFormed(areas, links)
    ensures var all := areas + AreaRowsOf(Flatten(root), FirstAreaId(areas), programId);
      forall r :: r in all && r.parentId.Some? ==> r.parentId.value in AreaIds(all) && r.parentId.value < r.id
  {
    var first := FirstAreaId(areas);
    var nodes := Flatten(root);
    var rows := AreaRowsOf(nodes, first, programId);
    var all := areas + rows;
    AreaRowsOfTree(root, first, programId);
    forall r | r in all && r.parentId.Some?
      ensures r.parentId.value in AreaIds(all) && r.parentId.value < r.id
    {
      if r !in areas {
        var i :| 0 <= i < |rows| && rows[i] == r;
        assert AreaRowAt(nodes, rows, Subtrees([root]), Outline([root], 0), first, programId, i);
        var k := r.parentId.value - first;
        assert AreaRowAt(nodes, rows, Subtrees([root]), Outline([root], 0), first, programId, k);
        assert all[|areas| + k] == rows[k];
      } else {
        var p :| p in areas && p.id == r.parentId.value;
        assert p in all;
      }
    }
  }

  /** Every association row of a tree names the id of one of the tree's new study_areas rows. */
  lemma LinkSetAreas(nodes: seq<Node>, first: int, programId: int)
    ensures forall l :: l in LinkSet(nodes, first) ==> l.areaId in AreaIds(AreaRowsOf(nodes, first, programId))
  {
    var rows := AreaRowsOf(nodes, first, programId);
    forall l | l in LinkSet(nodes, first)
      ensures l.areaId in AreaIds(rows)
    {
      var k :| 0 <= k < |LinkRowsOf(nodes, first)| && LinkRowsOf(nodes, first)[k] == l;
      var i, j := LinkRowSource(nodes, first, k);
      assert rows[i].id == first + i;
    }
  }

  /** After `save_area` every association still names an existing area. */
  lemma SavedLinksExist(areas: seq<AreaRow>, links: set<Link>, root: Area, programId: int)
    requires WellFormed(areas, links)
    ensures var all := areas + AreaRowsOf(Flatten(root), FirstAreaId(areas), programId);
      forall l :: l in links + LinkSet(Flatten(root), FirstAreaId(areas)) ==> l.areaId in AreaIds(all)
  {
    var first := FirstAreaId(areas);
    var nodes := Flatten(root);
    var rows := AreaRowsOf(nodes, first, programId);
    var all := areas + rows;
    LinkSetAreas(nodes, first, programId);
    forall l | l in links + LinkSet(nodes, first)
      ensures l.areaId in AreaIds(all)
    {
      var r :| (r in areas || r in rows) && r.id == l.areaId;
      assert r in all;
    }
  }

  // ---------------------------------------------------------------------
  // unfetched_modules (db.py:166-176)
  // ---------------------------------------------------------------------

  /**
   * The distinct (id, version, title) of the modules linked to an area of
   * the program whose details are not fetched yet: the join of modules,
   * modules_study_areas and study_areas.
   */
  function Unfetched(areas: seq<AreaRow>, modules: map<ModuleKey, ModuleRow>, links: set<Link>, programId: int): (r: set<(int, int, string)>)
    ensures forall t :: t in r <==>
      ModuleKey(t.0, t.1) in modules && !modules[ModuleKey(t.0, t.1)].detailsFetched && modules[ModuleKey(t.0, t.1)].title == t.2 &&
      LinkedTo(areas, links, ModuleKey(t.0, t.1), programId)
  {
    set l, a | l in links && a in areas && a.id == l.areaId && a.programId == programId &&
               LinkKey(l) in modules && !modules[LinkKey(l)].detailsFetched
      :: (l.moduleId, l.moduleVersion, modules[LinkKey(l)].title)
  }

  /** The unfetched modules of a tree's areas, as `unfetched_modules` reports them once the tree is saved. */
  function TreeUnfetched(nodes: seq<Node>, modules: map<ModuleKey, ModuleRow>): set<(int, int, string)>
  {
    set i, m | 0 <= i < |nodes| && m in nodes[i].area.modules && KeyOf(m) in modules && !modules[KeyOf(m)].detailsFetched
      :: (m.id, m.version, modules[KeyOf(m)].title)
  }

  /** A join over two stores that share no area id is the union of the joins. */
  lemma UnfetchedSplit(a1: seq<AreaRow>, a2: seq<AreaRow>, modules: map<ModuleKey, ModuleRow>, l1: set<Link>, l2: set<Link>, programId: int)
    requires forall l :: l in l1 ==> l.areaId !in AreaIds(a2)
    requires forall l :: l in l2 ==> l.areaId !in AreaIds(a1)
    ensures Unfetched(a1 + a2, modules, l1 + l2, programId) == Unfetched(a1, modules, l1, programId) + Unfetched(a2, modules, l2, programId)
  {
    var all := Unfetched(a1 + a2, modules, l1 + l2, programId);
    forall t | t in all
      ensures t in Unfetched(a1, modules, l1, programId) + Unfetched(a2, modules, l2, programId)
    {
      var l, a :| l in l1 + l2 && a in a1 + a2 && a.id == l.areaId && a.programId == programId &&
                  LinkKey(l) in modules && !modules[LinkKey(l)].detailsFetched &&
                  t == (l.moduleId, l.moduleVersion, modules[LinkKey(l)].title);
      if l in l1 {
        assert a !in a2;
      } else {
        assert a !in a1;
      }
    }
  }

  /** `unfetched_modules` returns nothing exactly when every module linked to an area of the program has its details. */
  lemma UnfetchedEmpty(areas: seq<AreaRow>, modules: map<ModuleKey, ModuleRow>, links: set<Link>, programId: int)
    ensures Unfetched(areas, modules, links, programId) == {} <==>
      forall l, a :: l in links && a in areas && a.id == l.areaId && a.programId == programId && LinkKey(l) in modules ==>
        modules[LinkKey(l)].detailsFetched
  {
    var r := Unfetched(areas, modules, links, programId);
    if r == {} {
      forall l, a | l in links && a in areas && a.id == l.areaId && a.programId == programId && LinkKey(l) in modules
        ensures modules[LinkKey(l)].detailsFetched
      {
        assert (l.moduleId, l.moduleVersion, modules[LinkKey(l)].title) !in r;
      }
    }
  }

  /** What the join over a new tree's rows finds is an unfetched module of the tree, under the tree's own program. */
  lemma NewTreeFound(root: Area, firstId: int, modules: map<ModuleKey, ModuleRow>, programId: int, q: int, t: (int, int, string))
    requires t in Unfetched(AreaRowsOf(Flatten(root), firstId, programId), modules, LinkSet(Flatten(root), firstId), q)
    ensures q == programId && t in TreeUnfetched(Flatten(root), modules)
  {
    var nodes := Flatten(root);
    var rows := AreaRowsOf(nodes, firstId, programId);
    var linkRows := LinkRowsOf(nodes, firstId);
    AreaRowsOfTree(root, firstId, programId);
    var l, a :| l in LinkSet(nodes, firstId) && a in rows && a.id == l.areaId && a.programId == q &&
                LinkKey(l) in modules && !modules[LinkKey(l)].detailsFetched &&
                t == (l.moduleId, l.moduleVersion, modules[LinkKey(l)].title);
    var k :| 0 <= k < |linkRows| && linkRows[k] == l;
    var i, j := LinkRowSource(nodes, firstId, k);
    var m := nodes[i].area.modules[j];
    assert KeyOf(m) == LinkKey(l);
    assert m in nodes[i].area.modules;
  }

  /** Every unfetched module of a new tree is found by the join over the tree's rows under its program. */
  lemma NewTreeFinds(root: Area, firstId: int, modules: map<ModuleKey, ModuleRow>, programId: int, t: (int, int, string))
    requires t in TreeUnfetched(Flatten(root), modules)
    ensures t in Unfetched(AreaRowsOf(Flatten(root), firstId, programId), modules, LinkSet(Flatten(root), firstId), programId)
  {
    var nodes := Flatten(root);
    var rows := AreaRowsOf(nodes, firstId, programId);
    var linkRows := LinkRowsOf(nodes, firstId);
    AreaRowsOfTree(root, firstId, programId);
    var i, m :| 0 <= i < |nodes| && m in nodes[i].area.modules && KeyOf(m) in modules && !modules[KeyOf(m)].detailsFetched &&
                t == (m.id, m.version, modules[KeyOf(m)].title);
    var j :| 0 <= j < |nodes[i].area.modules| && nodes[i].area.modules[j] == m;
    LinkRowsAt(nodes, firstId, i, j);
    var l := linkRows[ModuleCount(nodes[..i]) + j];
    assert l in LinkSet(nodes, firstId);
    assert AreaRowAt(nodes, rows, Subtrees([root]), Outline([root], 0), firstId, programId, i);
    assert rows[i] in rows;
    assert LinkKey(l) == KeyOf(m);
  }

  /** The join over the rows of a new tree finds its unfetched modules, and only under its own program. */
  lemma NewTreeUnfetched(root: Area, firstId: int, modules: map<ModuleKey, ModuleRow>, programId: int, q: int)
    ensures Unfetched(AreaRowsOf(Flatten(root), firstId, programId), modules, LinkSet(Flatten(root), firstId), q)
         == if q == programId then TreeUnfetched(Flatten(root), modules) else {}
  {
    var found := Unfetched(AreaRowsOf(Flatten(root), firstId, programId), modules, LinkSet(Flatten(root), firstId), q);
    forall t | t in found
      ensures q == programId && t in TreeUnfetched(Flatten(root), modules)
    {
      NewTreeFound(root, firstId, modules, programId, q, t);
    }
    if q == programId {
      forall t | t in TreeUnfetched(Flatten(root), modules)
        ensures t in found
      {
        NewTreeFinds(root, firstId, modules, programId, t);
      }
    }
  }

  /**
   * After `save_area(root, p)` on a well-formed store, the unfetched
   * modules of program `p` gain exactly those of the tree, and those of
   * every other program are unchanged.
   */
  lemma SaveAreaUnfetched(areas: seq<AreaRow>, modules: map<ModuleKey, ModuleRow>, links: set<Link>, root: Area, p: int, q: int)
    requires WellFormed(areas, links)
    ensures var first := FirstAreaId(areas);
      Unfetched(areas + AreaRowsOf(Flatten(root), first, p), modules, links + LinkSet(Flatten(root), first), q)
      == Unfetched(areas, modules, links, q) + (if q == p then TreeUnfetched(Flatten(root), modules) else {})
  {
    var first := FirstAreaId(areas);
    var nodes := Flatten(root);
    var rows := AreaRowsOf(nodes, first, p);
    AreaRowsOfTree(root, first, p);
    forall l | l in links
      ensures l.areaId !in AreaIds(rows)
    {
      assert l.areaId < first;
    }
    forall l | l in LinkSet(nodes, first)
      ensures l.areaId !in AreaIds(areas)
    {
      var k :| 0 <= k < |LinkRowsOf(nodes, first)| && LinkRowsOf(nodes, first)[k] == l;
      var i, j := LinkRowSource(nodes, first, k);
    }
    UnfetchedSplit(areas, rows, modules, links, LinkSet(nodes, first), q);
    NewTreeUnfetched(root, first, modules, p, q);
  }

  /** Some association row ties the module key to an area of the program. */
  ghost predicate LinkedTo(areas: seq<AreaRow>, links: set<Link>, key: ModuleKey, programId: int)
  {
    exists l, a :: l in links && a in areas && a.id == l.areaId && a.programId == programId && LinkKey(l) == key
  }

  /**
   * After `save_module(m)` inserts a new module, with its details not yet
   * fetched, the unfetched modules of a program gain `m` exactly when an
   * area of that program already lists it.
   */
  lemma SaveModuleUnfetched(areas: seq<AreaRow>, modules: map<ModuleKey, ModuleRow>, links: set<Link>, m: Module, q: int)
    requires KeyOf(m) !in modules
    ensures Unfetched(areas, modules[KeyOf(m) := ModuleRow(m.title, m.ects, m.examType, false)], links, q)
         == Unfetched(areas, modules, links, q) + (if LinkedTo(areas, links, KeyOf(m), q) then {(m.id, m.version, m.title)} else {})
  {
    var after := modules[KeyOf(m) := ModuleRow(m.title, m.ects, m.examType, false)];
    var found := Unfetched(areas, after, links, q);
    var expected := Unfetched(areas, modules, links, q) + (if LinkedTo(areas, links, KeyOf(m), q) then {(m.id, m.version, m.title)} else {});
    forall t | t in found
      ensures t in expected
    {
      var l, a :| l in links && a in areas && a.id == l.areaId && a.programId == q &&
                  LinkKey(l) in after && !after[LinkKey(l)].detailsFetched &&
                  t == (l.moduleId, l.moduleVersion, after[LinkKey(l)].title);
      if LinkKey(l) != KeyOf(m) {
        assert LinkKey(l) in modules && after[LinkKey(l)] == modules[LinkKey(l)];
      }
    }
    forall t | t in expected
      ensures t in found
    {
      if t !in Unfetched(areas, modules, links, q) {
        var l, a :| l in links && a in areas && a.id == l.areaId && a.programId == q && LinkKey(l) == KeyOf(m);
        assert t == (l.moduleId, l.moduleVersion, after[LinkKey(l)].title);
      } else {
        var l, a :| l in links && a in areas && a.id == l.areaId && a.programId == q &&
                    LinkKey(l) in modules && !modules[LinkKey(l)].detailsFetched &&
                    t == (l.moduleId, l.moduleVersion, modules[LinkKey(l)].title);
        assert after[LinkKey(l)] == modules[LinkKey(l)];
      }
    }
  }
}
