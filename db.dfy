/**
 * The catalogue database (db.py, class `Database`): four tables updated in
 * place by the save operations, each run as one transaction that is rolled
 * back when an insert breaks a primary key.
 */
module Db {
  import opened Wrappers
  import opened Areas
  import opened Store

  /** How a transaction ends: committed, or rolled back on sqlite3.IntegrityError. */
  datatype Outcome = Committed | IntegrityError

  class Database {
    var programs: map<int, Program>
    var studyAreas: seq<AreaRow>
    var modules: map<ModuleKey, ModuleRow>
    var links: set<Link>

    ghost predicate Valid()
      reads this
    {
      WellFormed(studyAreas, links)
    }

    /** A freshly created database: the tables exist and are empty. */
    constructor()
      ensures Valid()
      ensures programs == map[] && studyAreas == [] && modules == map[] && links == {}
    {
      programs := map[];
      studyAreas := [];
      modules := map[];
      links := {};
    }

    /**
     * `Database(db_file)` on a file that already holds tables:
     * `CREATE TABLE IF NOT EXISTS` keeps their rows. The rows are taken to
     * have been written by the operations below, so they are well formed.
     */
    constructor Open(programs: map<int, Program>, studyAreas: seq<AreaRow>,
                     modules: map<ModuleKey, ModuleRow>, links: set<Link>)
      requires WellFormed(studyAreas, links)
      ensures Valid()
      ensures this.programs == programs && this.studyAreas == studyAreas
      ensures this.modules == modules && this.links == links
    {
      this.programs := programs;
      this.studyAreas := studyAreas;
      this.modules := modules;
      this.links := links;
    }

    /** `program_exists`: a programs row has this id. */
    function ProgramExists(programId: int): (b: bool)
      reads this
      ensures b <==> GetProgramInfo(programId).Some?
    {
      programId in programs
    }

    /** `get_program_info`: the (title, degree) of the program, or None. */
    function GetProgramInfo(programId: int): (r: Option<Program>)
      reads this
      ensures r.Some? ==> programId in programs && programs[programId] == r.value
      ensures r.None? ==> programId !in programs
    {
      if programId in programs then Some(programs[programId]) else None
    }

    /**
     * `unfetched_modules`: the (id, version, title) of every module linked
     * to an area of the program whose details are not fetched yet.
     */
    function UnfetchedModules(programId: int): (r: set<(int, int, string)>)
      reads this
      ensures forall t :: t in r <==>
        ModuleKey(t.0, t.1) in modules && !modules[ModuleKey(t.0, t.1)].detailsFetched && modules[ModuleKey(t.0, t.1)].title == t.2 &&
        LinkedTo(studyAreas, links, ModuleKey(t.0, t.1), programId)
      ensures r == {} <==> forall l, a :: l in links && a in studyAreas && a.id == l.areaId && a.programId == programId && LinkKey(l) in modules ==>
        modules[LinkKey(l)].detailsFetched
    {
      UnfetchedEmpty(studyAreas, modules, links, programId);
      Unfetched(studyAreas, modules, links, programId)
    }

    /**
     * `save_program`: inserts a programs row. An existing id breaks the
     * primary key and leaves every table as it was. Afterwards the program
     * exists either way.
     */
    method SaveProgram(programId: int, title: string, degree: string) returns (o: Outcome)
      requires Valid()
      modifies this
      ensures Valid()
      ensures o == Committed <==> programId !in old(programs)
      ensures o == Committed ==> programs == old(programs)[programId := Program(title, degree)]
      ensures o == Committed ==> GetProgramInfo(programId) == Some(Program(title, degree))
      ensures o == IntegrityError ==> programs == old(programs)
      ensures ProgramExists(programId)
      ensures studyAreas == old(studyAreas) && modules == old(modules) && links == old(links)
    {
      if programId in programs {
        return IntegrityError;
      }
      programs := programs[programId := Program(title, degree)];
      return Committed;
    }

    /**
     * `save_module`: inserts a modules row with its details not fetched.
     * An existing (id, version) breaks the primary key and leaves every
     * table as it was.
     */
    method SaveModule(m: Module) returns (o: Outcome)
      requires Valid()
      modifies this
      ensures Valid()
      ensures o == Committed <==> KeyOf(m) !in old(modules)
      ensures o == Committed ==> modules == old(modules)[KeyOf(m) := ModuleRow(m.title, m.ects, m.examType, false)]
      ensures o == IntegrityError ==> modules == old(modules)
      ensures o == Committed ==> forall q ::
                UnfetchedModules(q) == old(UnfetchedModules(q)) + (if LinkedTo(studyAreas, links, KeyOf(m), q) then {(m.id, m.version, m.title)} else {})
      ensures programs == old(programs) && studyAreas == old(studyAreas) && links == old(links)
    {
      if KeyOf(m) in modules {
        return IntegrityError;
      }
      forall q {
        SaveModuleUnfetched(studyAreas, modules, links, m, q);
      }
      modules := modules[KeyOf(m) := ModuleRow(m.title, m.ects, m.examType, false)];
      return Committed;
    }

    /**
     * `save_area`: numbers the flattened tree from one past the largest
     * study_areas id, inserts its rows and then its module associations in
     * one transaction. The ids are always fresh, so the transaction fails
     * only when an area lists the same (id, version) twice; it is then
     * rolled back whole.
     */
    method SaveArea(root: Area, programId: int) returns (o: Outcome)
      requires Valid()
      modifies this
      ensures Valid()
      ensures o == Committed <==>
        forall i :: 0 <= i < |Flatten(root)| ==> KeysDistinct(Flatten(root)[i].area.modules)
      ensures o == Committed ==>
        studyAreas == old(studyAreas) + AreaRowsOf(Flatten(root), FirstAreaId(old(studyAreas)), programId) &&
        links == old(links) + LinkSet(Flatten(root), FirstAreaId(old(studyAreas)))
      ensures o == Committed ==> forall q ::
                UnfetchedModules(q) == old(UnfetchedModules(q)) + (if q == programId then TreeUnfetched(Flatten(root), modules) else {})
      ensures o == IntegrityError ==> studyAreas == old(studyAreas) && links == old(links)
      ensures programs == old(programs) && modules == old(modules)
    {
      var firstId := FirstAreaId(studyAreas);
      var areas := Flatten(root);
      FlattenIsPreorder(root);
      forall i | 0 <= i < |areas| && areas[i].parent.Some?
        ensures areas[i].parent.value < |areas|
      {
        assert PreorderAt(areas, Outline([root], 0), Subtrees([root]), i);
      }
      var aData, maData := AreaRows(areas, firstId, programId);
      AreaRowsFresh(studyAreas, areas, programId);
      LinkRowsFresh(studyAreas, links, areas);
      LinkRowsDistinct(areas, firstId);
      SaveAreaKeepsWellFormed(studyAreas, links, root, programId);
      forall q {
        SaveAreaUnfetched(studyAreas, modules, links, root, programId, q);
      }

      var oldAreas, oldLinks := studyAreas, links;
      InsertAreaRows(aData);
      var ok := InsertLinkRows(maData);
      if !ok {
        studyAreas, links := oldAreas, oldLinks;
        return IntegrityError;
      }
      return Committed;
    }

    /** `executemany("INSERT INTO study_areas ...")` with ids that no row has yet. */
    method InsertAreaRows(rows: seq<AreaRow>)
      requires AreaKeysFree(studyAreas, rows)
      modifies this
      ensures studyAreas == old(studyAreas) + rows
      ensures programs == old(programs) && modules == old(modules) && links == old(links)
    {
      ghost var before := studyAreas;
      for i := 0 to |rows|
        invariant studyAreas == before + rows[..i]
        invariant programs == old(programs) && modules == old(modules) && links == old(links)
      {
        assert rows[i].id !in AreaIds(studyAreas) by {
          assert AreaIds(studyAreas) <= AreaIds(before) + AreaIds(rows[..i]);
        }
        studyAreas := studyAreas + [rows[i]];
        assert rows[..i + 1] == rows[..i] + [rows[i]];
      }
      assert rows[..|rows|] == rows;
    }

    /**
     * `executemany("INSERT INTO modules_study_areas ...")` with rows none
     * of which is in the table yet: it stops at the first row that repeats
     * an earlier one, so it completes exactly when the rows are distinct.
     */
    method InsertLinkRows(rows: seq<Link>) returns (ok: bool)
      requires forall k :: 0 <= k < |rows| ==> rows[k] !in links
      modifies this
      ensures ok <==> NoDuplicates(rows)
      ensures ok ==> links == old(links) + (set l | l in rows)
      ensures programs == old(programs) && modules == old(modules) && studyAreas == old(studyAreas)
    {
      for k := 0 to |rows|
        invariant links == old(links) + (set l | l in rows[..k])
        invariant NoDuplicates(rows[..k])
        invariant programs == old(programs) && modules == old(modules) && studyAreas == old(studyAreas)
      {
        if rows[k] in links {
          assert rows[k] in rows[..k];
          var j :| 0 <= j < k && rows[..k][j] == rows[k];
          assert rows[j] == rows[k];
          return false;
        }
        links := links + {rows[k]};
        assert rows[..k + 1] == rows[..k] + [rows[k]];
      }
      assert rows[..|rows|] == rows;
      return true;
    }
  }
}
