# mts_scraper core in Dafny

This project models the decision logic of `mts_scraper`. That tool scrapes the module transfer system (MTS) of a university course catalogue with Selenium and stores what it finds in SQLite.

Two parts are modelled.

**The scraper helpers (`mts_scraper/scraper.py`).**
- The reconstruction of the study-area forest from the indented rows of the tree grid (`get_areas`). It is `TreeBuilder.GetAreas` and `TreeBuilder.Attach`. Both are proved against the value-level specification `TreeBuilder.BuildForest`.
- The rate limit (`_throttle_request`). It is a `Throttle.Scraper` object over an explicit `Throttle.Clock`.
- The id parser (`_extract_combined_id`).
- The wait-condition dispatch (`_wait_for`).
- The recursive rendering of an area (`Area.__str__`).

**The database layer (`mts_scraper/db.py`).**
- The tables are in-memory values held by `Db.Database`:
  - `programs` and `modules` are maps keyed by their primary keys;
  - `study_areas` is a sequence in insertion order;
  - `modules_study_areas` is a set, because its primary key is the whole row.
- Each save runs as one transaction. A primary-key violation ends it with `IntegrityError` and leaves every table as it was.
- `save_area` is modelled step by step. It numbers the flattened tree from `max(id) + 1`, or from 1 on an empty table. It turns parent references into parent ids. It writes one association row per (area, module) pair, and inserts the rows in order.
- `unfetched_modules` is the three-way join `Store.Unfetched`.

**Definitions the database layer relies on but `scraper.py` does not show.** These are assumptions of the model:
- `Area.modules`, `Area.parent`, `Area.flatten()` and the `Module` class are not defined in `scraper.py`.
- A `Module` is modelled as (id, version, title, ects, exam_type).
- An `Area` owns its subareas and its modules.
- `flatten()` lists a tree in pre-order. `Areas.Flatten` gives each listed node the position of its parent in that list. This stands for `a.parent` followed by `areas.index(a.parent)`. `Area` defines no `__eq__`, so `index` finds the parent object itself.

## Model

| member | source | states |
|---|---|---|
| Areas.Render | mts_scraper/scraper.py:222-227 | The rendering starts with the area's title, and it is exactly the title if and only if the area has no subareas |
| Areas.RenderBrackets | mts_scraper/scraper.py:222-227 | When no title contains a bracket, a rendering holds one `[` and one `]` for every area with subareas: the nesting of the text is the nesting of the tree |
| Areas.RenderExample | mts_scraper/scraper.py:222-227 | An area A whose subareas are a leaf B and an area C with one leaf D renders as `A -> [B, C -> [D]]` |
| Areas.Flatten | mts_scraper/db.py:132 | The flattened list has one node per area of the tree, and the root comes first with no parent |
| Areas.FlattenIsPreorder | mts_scraper/db.py:132-137 | Flattening lists the areas of the tree in pre-order: entry i holds area i of the pre-order (`Subtrees`), with its own modules and subareas, under the title of outline row i. Only the root has no parent. Every other entry's parent comes earlier and lists it among its subareas, and its outline row is the nearest earlier row one level up, so equal areas under different parents still get their own parent |
| Areas.FlattenFromAreas | mts_scraper/db.py:132 | The flattened list of any forest holds, in order, the areas of its pre-order |
| Areas.OutlineTitles | mts_scraper/scraper.py:164-180 | The outline of a forest has one row per area, and row i carries the title of area i of the pre-order |
| Areas.ParentOfUnique | mts_scraper/db.py:137 | At most one earlier outline row is the nearest row one level up, so that property singles out the parent position |
| Areas.FlattenRepeatedLeaf | mts_scraper/db.py:132-137 | A root with subareas X{L} and Y{L}, the two leaves equal, flattens with the first L under X (position 1) and the second under Y (position 3) |
| TreeBuilder.AppendAt | mts_scraper/scraper.py:174-178 | Appending at a level succeeds exactly when the rightmost path is at least that deep; the new area then ends the rightmost path |
| TreeBuilder.AppendAtBottom | mts_scraper/scraper.py:174-178 | After the append, the list reached by descending the row's level from the top-level list is the old list plus the new area |
| TreeBuilder.AppendAtAbove | mts_scraper/scraper.py:174-178 | At each shallower level of the rightmost path only the last area changes, and only in its subareas, which become the changed list below it; nothing else in the forest changes |
| TreeBuilder.AppendAtOutline | mts_scraper/scraper.py:174-178 | Appending at level k adds the new area, and only it, to the end of the pre-order outline, at depth k |
| TreeBuilder.BuildForestCorrect | mts_scraper/scraper.py:164-180 | The loop over the rows succeeds if and only if no row is more than one level deeper than the row before it, the first row being at level 0. When it succeeds, the pre-order outline of the forest is the input rows, in order and with their levels |
| TreeBuilder.AppendRowCorrect | mts_scraper/scraper.py:165-178 | One pass of the loop: with the forest of the rows so far, the row's area can be placed exactly when the row is at most one level deeper than the previous row, and the outline then gains exactly that row |
| TreeBuilder.BuildForestFailsOnward | mts_scraper/scraper.py:176-177 | Once a row has raised IndexError, the whole call fails with IndexError, whatever rows follow |
| TreeBuilder.BuildForestExample | mts_scraper/scraper.py:164-180 | Levels 0,1,1,0,1 with titles A to E give the forest A{B, C}, D{E} |
| TreeBuilder.ExamplePrefix | mts_scraper/scraper.py:164-180 | Levels 0,1,1 with titles A to C give the single tree A{B, C} |
| TreeBuilder.ExampleFourRows | mts_scraper/scraper.py:164-180 | Levels 0,1,1,0 with titles A to D give the forest A{B, C}, D: a row at level 0 starts a new top-level area |
| TreeBuilder.Attach | mts_scraper/scraper.py:175-178 | The in-place descent through `above[-1].subareas` followed by the append computes `AppendAt`, including the IndexError on an empty list |
| TreeBuilder.Rebuild | mts_scraper/scraper.py:176-178 | Re-assembling the lists met on the way down, with the new area appended at the bottom, gives `AppendAt` |
| TreeBuilder.GetAreas | mts_scraper/scraper.py:160-180 | No rows give an empty forest. The loop succeeds exactly on well-indented rows, and the forest it builds has the rows as its pre-order outline |
| CombinedId.LastIndexOf | mts_scraper/scraper.py:136 | `rsplit("=", 1)` splits at the last `=`: there is none exactly when the text has none, otherwise the position holds `=` and no later one does |
| CombinedId.ParseInt | mts_scraper/scraper.py:136 | `int()` fails only with ValueError |
| CombinedId.ParseIntDigitLimit | mts_scraper/scraper.py:136 | `int()` raises ValueError on a literal of more than 4300 digits, whatever its value |
| CombinedId.ParseIntToString | mts_scraper/scraper.py:136 | `int(str(n)) == n` for every integer n that `str` can print (at most 4300 digits) |
| CombinedId.ExtractCombinedId | mts_scraper/scraper.py:133-136 | A link without `=` raises IndexError, and exactly those do. Any other failure is the ValueError of `int()` |
| CombinedId.ExtractCombinedIdRoundTrip | mts_scraper/scraper.py:133-136 | For every prefix and every integer n that `str` can print, the link `prefix + "=" + str(n)` yields n |
| CombinedId.ExtractCombinedIdDigitLimit | mts_scraper/scraper.py:133-136 | A link whose last `=` is followed by more than 4300 digits raises ValueError |
| WaitFor.Until | mts_scraper/scraper.py:73-89 | A condition is produced exactly for the kind "cond", and for "vis_css", "vis_xpath" and "vis_id" when the locator is a string. A non-string locator raises the TypeError of the debug message. Any other kind raises the unknown wait-for error carrying the pair |
| WaitFor.UntilInverse | mts_scraper/scraper.py:73-89 | Each condition comes from exactly one (kind, argument) pair: "cond" passes the argument through, and each vis_ kind picks its own locator strategy for a string locator |
| Throttle.Scraper.constructor | mts_scraper/scraper.py:30-31 | The last request starts at time 0 and the delay is the one given |
| Throttle.Scraper.ThrottleRequest | mts_scraper/scraper.py:37-44 | It returns at the later of the current time and last request + delay, so at least the delay has elapsed since the last request. It never sleeps when the delay is zero or less. It records the return time as the last request |
| Throttle.ThrottleScenario | mts_scraper/scraper.py:37-44 | With delay 4, a request at time 1000 whose last request was at 0 leaves at once; the next one, tried at 1001, leaves at 1004 |
| Store.MaxId | mts_scraper/db.py:123-124 | `max(id)` is the id of some row, and no row has a larger one |
| Store.FirstAreaId | mts_scraper/db.py:123-128 | The first new id is 1 on an empty table, otherwise one more than an existing id and larger than every existing id |
| Store.AreaRows | mts_scraper/db.py:130-145 | The loop over `enumerate(areas)` builds `a_data` and `ma_data` as `AreaRowsOf` and `LinkRowsOf` describe them |
| Store.AreaRowsOfTree | mts_scraper/db.py:121-144 | The new rows take the ids first_id to first_id + n - 1 in pre-order and all carry the program id; row i belongs to area i of the pre-order and carries its title. The root row has no parent. Every other row names as parent the row of the area listing it, which is in the new id range, smaller than its own id, and at the nearest earlier outline position one level up |
| Store.AreaRowsFresh | mts_scraper/db.py:123-140 | The new ids are distinct and none is in the table yet |
| Store.LinkRowsAt | mts_scraper/db.py:145 | Module j of flattened area i has its own association row, tagged with area i's new id |
| Store.LinkRowSource | mts_scraper/db.py:145 | Every association row comes from a module of one flattened area and carries that area's new id |
| Store.LinkSetAreas | mts_scraper/db.py:139-145 | Every association row of a saved tree names the id of one of the tree's new study_areas rows |
| Store.TreeLinkRows | mts_scraper/db.py:139-145 | The association rows of a saved tree are exactly one (first_id + i, id, version) per module of area i of the pre-order, the area whose row has id first_id + i |
| Store.LinkRowsDistinct | mts_scraper/db.py:145-153 | The association rows repeat none exactly when no area lists the same (id, version) twice |
| Store.LinksOfDistinct | mts_scraper/db.py:145 | The association rows of one area repeat no row exactly when its modules have distinct (id, version) keys |
| Store.LinkRowsFresh | mts_scraper/db.py:123-145 | On a well-formed store no new association row is already in the table |
| Store.SaveAreaKeepsWellFormed | mts_scraper/db.py:116-153 | Saving a tree keeps ids unique. Every parent id stays an existing, smaller id, and every association stays tied to an existing area |
| Store.SavedIdsDistinct | mts_scraper/db.py:116-153 | After the new rows are appended, no two study_areas rows share an id |
| Store.SavedParentsExist | mts_scraper/db.py:116-153 | After the save, every parent id names an existing row with a smaller id |
| Store.SavedLinksExist | mts_scraper/db.py:116-153 | After the save, every old and new association names an existing study area |
| Store.Unfetched | mts_scraper/db.py:166-176 | A triple is returned exactly when it is a module row whose details are not fetched, with that row's title, and an association ties the module to an area of the program |
| Store.UnfetchedEmpty | mts_scraper/db.py:166-176 | The result is empty exactly when every module linked to an area of the program has its details fetched |
| Store.UnfetchedSplit | mts_scraper/db.py:170-173 | The join over two stores that share no area id is the union of the two joins |
| Store.NewTreeFound | mts_scraper/db.py:139-145 | Whatever the join finds in the rows of a new tree is an unfetched module of that tree, and only under the tree's program |
| Store.NewTreeFinds | mts_scraper/db.py:139-145 | Every unfetched module of a new tree is found by the join under the tree's program |
| Store.NewTreeUnfetched | mts_scraper/db.py:139-145 | The join over a new tree's rows is exactly the tree's unfetched modules under its program, and empty under any other |
| Store.SaveAreaUnfetched | mts_scraper/db.py:166-176 | After `save_area(root, p)`, the unfetched modules of p gain exactly those of the tree; those of every other program are unchanged |
| Store.SaveModuleUnfetched | mts_scraper/db.py:155-164 | Inserting a new module (details not fetched) adds it to a program's unfetched modules exactly when an area of that program already lists it |
| Db.Database.constructor | mts_scraper/db.py:12-21 | A new database file gets its tables, empty, and is well formed |
| Db.Database.Open | mts_scraper/db.py:12-21 | Opening an existing file keeps its tables as they are; they are well formed when these operations wrote them |
| Db.Database.ProgramExists | mts_scraper/db.py:97-101 | A program exists exactly when `get_program_info` finds a row for it |
| Db.Database.GetProgramInfo | mts_scraper/db.py:103-108 | Returns the stored (title, degree) of the id, and nothing exactly when there is no such row |
| Db.Database.UnfetchedModules | mts_scraper/db.py:166-176 | A triple is returned exactly when it is an unfetched module row of the database, with its title, linked to an area of the program. The result is empty exactly when every module linked to an area of the program has its details fetched |
| Db.Database.SaveProgram | mts_scraper/db.py:110-114 | Inserts the row exactly when the id is new; a repeated id is an IntegrityError that leaves the tables as they were; afterwards the program exists and the store stays well formed |
| Db.Database.SaveModule | mts_scraper/db.py:155-164 | Inserts the module with details not fetched exactly when (id, version) is new; otherwise IntegrityError and nothing changes; the unfetched modules change as `SaveModuleUnfetched` says; the store stays well formed |
| Db.Database.SaveArea | mts_scraper/db.py:116-153 | Commits exactly when no flattened area lists a module twice. It then appends the rows of `AreaRowsOf` and `LinkRowsOf` and the unfetched modules change as `SaveAreaUnfetched` says. On an IntegrityError both tables are left as they were. The store stays well formed |
| Db.Database.InsertAreaRows | mts_scraper/db.py:148-150 | Inserting rows with fresh, distinct ids appends them to study_areas in order |
| Db.Database.InsertLinkRows | mts_scraper/db.py:151-153 | Inserting rows that are not yet in the table completes exactly when they are distinct, and then adds exactly them |

## Left out

- Selenium (`webdriver`, `WebDriverWait`, `ActionChains`, `find_element*`), `_load_page`, `_expand_treegrid` and the cells scraped by `find_programs`: they drive a remote browser. Only the decisions taken on their results are modelled. `get_areas` receives the rows as (level, title) pairs, and `_wait_for` stops at the condition it would wait for.
- Logging, `__del__` and closing the browser or the connection: they have no effect on the modelled state.
- TreeBuilder.GetAreas, TreeBuilder.Attach: the source appends to lists shared by reference. The model works on values: it records the rightmost path going down, then rebuilds it coming back up. The aliasing itself is not modelled.
- Throttle.Scraper.ThrottleRequest: times are integers rather than floats. `time.sleep(d)` advances the clock by exactly `d`. An oversleeping clock, or one moved by other code during the wait, is not modelled.
- Throttle.Scraper.constructor: the first request does not wait only because `time.time()` is far past the initial `_last_request` of 0. This holds when the clock starts at or beyond the delay, as in `Throttle.ThrottleScenario`; it is not a guarantee of the code.
- CombinedId.ParseInt: `int()` accepts ASCII whitespace, an optional sign, and ASCII digits with single underscores between them, at most 4300 digits. Unicode whitespace and non-ASCII decimal digits, which Python also accepts, are not modelled. The digit limit is the default of `sys.set_int_max_str_digits`; a changed limit, or a Python without it (before 3.11 and its security releases), is not modelled.
- WaitFor.Until: the argument of "cond" is kept opaque, as is a locator that is not a string. The `timeout` parameter and the `TimeoutException` of the wait are not modelled.
- The SQL connection, the DDL of `_create_tables`, and the SQL text: the tables are values. `save_module_details`, `get_modules` and the detail columns of `modules` are not part of this model.
- Foreign keys: SQLite enforces them only when a pragma turns them on, and `db.py` does not. So only primary keys can fail a save.
- Store.Unfetched: `fetchall()` returns a list in an order SQLite chooses. The model returns the set of distinct triples.
- Store.FirstAreaId: the 64-bit range of SQLite integers is not modelled; ids are unbounded.
- `cli.py` and `__main__.py` are not part of this model.
