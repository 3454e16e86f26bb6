/** `rowToGrid` of src/index.js and dist/entry.js: the entries of `output2`
    pivoted into one row per project and task (projects in first-seen order,
    each project's tasks in first-seen order) and one column per calendar day
    from the earliest to the latest day; src/index.js adds a row of column totals. */
module Pivot {
  import opened Wrappers
  import opened Duration
  import opened Calendar
  import opened Seqs
  import opened Sorting
  import opened Normalise
  import opened Aggregate
  import opened AggregateFacts
  import opened Grid

  // ---------------------------------------------------------------------
  // Columns read from `output2`

  /** `_.pluck(rows, 0)`. */
  function Projects<N>(es: seq<Entry<N>>): (ps: seq<N>)
    ensures |ps| == |es| && forall i :: 0 <= i < |es| ==> ps[i] == es[i].project
  {
    seq(|es|, i requires 0 <= i < |es| => es[i].project)
  }

  /** `_.pluck(rows, 1)`. */
  function Tasks<N>(es: seq<Entry<N>>): (ts: seq<N>)
    ensures |ts| == |es| && forall i :: 0 <= i < |es| ==> ts[i] == es[i].task
  {
    seq(|es|, i requires 0 <= i < |es| => es[i].task)
  }

  /** `_.pluck(rows, 2)`, as days. */
  function Dates<N>(es: seq<Entry<N>>): (ds: seq<Date>)
    ensures |ds| == |es| && forall i :: 0 <= i < |es| ==> ds[i] == es[i].date
  {
    seq(|es|, i requires 0 <= i < |es| => es[i].date)
  }

  /** Every entry's day is one the normaliser produces. */
  predicate GoodDates<N>(es: seq<Entry<N>>) {
    forall i :: 0 <= i < |es| ==> GoodDate(es[i].date)
  }

  /** `row => row[0] === project`. */
  function ProjectIs<N(==)>(p: N): Entry<N> -> bool {
    (e: Entry<N>) => e.project == p
  }

  /** `uniqueProjectTasks`: the tasks of one project, in first-seen order. */
  function ProjectTasks<N(==, !new)>(es: seq<Entry<N>>, p: N): seq<N> {
    Uniq(Tasks(Filter(es, ProjectIs(p))))
  }

  /** `row => row[2]`, the sort key of `_.sortBy`. */
  function DayKey<N>(e: Entry<N>): string {
    DateText(e.date)
  }

  /** An entry as the write loop reads it: project and task pick the row, the
      day picks the column (day texts are equal exactly when the days are, by
      `DateTextInjective`), and column 4 is the text written. */
  function MarkOf<N>(e: Entry<N>): Mark<(N, N)> {
    Mark((e.project, e.task), e.date, Rounded(e))
  }

  function Marks<N>(es: seq<Entry<N>>): (ms: seq<Mark<(N, N)>>)
    ensures |ms| == |es|
  {
    seq(|es|, i requires 0 <= i < |es| => MarkOf(es[i]))
  }

  /** The names of one project's rows. */
  function NamesFor<N>(p: N, ts: seq<N>): (ns: seq<(N, N)>)
    ensures |ns| == |ts|
  {
    seq(|ts|, i requires 0 <= i < |ts| => (p, ts[i]))
  }

  // ---------------------------------------------------------------------
  // The table, described cell by cell

  /** The cell of an entry: its rounded text; no entry leaves the 0. */
  function CellOf<N>(o: Option<Entry<N>>): Cell {
    match o
    case Some(e) => Text(Rounded(e))
    case None => Zero
  }

  /** The cell of project `p`, task `t` and day `d`: the rounded text of the
      last entry with that key, since later writes overwrite earlier ones. */
  function CellFor<N(==)>(es: seq<Entry<N>>, p: N, t: N, d: Date): Cell {
    CellOf(LastEntryFor(es, Key(p, t, d)))
  }

  function LineRow<N(==)>(es: seq<Entry<N>>, p: N, t: N, range: seq<Date>): GridRow<(N, N)> {
    GridRow((p, t), seq(|range|, j requires 0 <= j < |range| => CellFor(es, p, t, range[j])))
  }

  /** The rows of one project, one per task in first-seen order. */
  function ProjectBlock<N(==, !new)>(es: seq<Entry<N>>, p: N, range: seq<Date>): seq<GridRow<(N, N)>> {
    var ts := ProjectTasks(es, p);
    seq(|ts|, i requires 0 <= i < |ts| => LineRow(es, p, ts[i], range))
  }

  /** The rows of the projects `ps`, project by project. */
  function Blocks<N(==, !new)>(es: seq<Entry<N>>, ps: seq<N>, range: seq<Date>): seq<GridRow<(N, N)>> {
    if ps == [] then [] else Blocks(es, ps[..|ps| - 1], range) + ProjectBlock(es, ps[|ps| - 1], range)
  }

  /** The table body: the rows of every project, in first-seen order. */
  function Body<N(==, !new)>(es: seq<Entry<N>>, range: seq<Date>): seq<GridRow<(N, N)>> {
    Blocks(es, Uniq(Projects(es)), range)
  }

  /** The days of the range: from the earliest to the latest day of the entries. */
  function DayColumns<N(==, !new)>(es: seq<Entry<N>>): seq<Date>
    requires es != [] && GoodDates(es)
  {
    var ds := Uniq(Dates(es));
    assert ds[0] in Dates(es);
    DaysFrom(MinDate(ds), MaxDate(ds))
  }

  /** The day texts of the range, `YYYY-MM-DD`. */
  function DateTexts(ds: seq<Date>): (ts: seq<string>)
    ensures |ts| == |ds|
  {
    seq(|ds|, i requires 0 <= i < |ds| => DateText(ds[i]))
  }

  /** `columnHeaders` after `unshift('Project', 'Task')`. */
  function Header(range: seq<Date>): seq<string> {
    ["Project", "Task"] + DateTexts(range)
  }

  /** What dist/entry.js's `rowToGrid` returns, or `None` where it throws:
      `_.min` of no days is not a date and `.format` fails. */
  function DistTable<N(==, !new)>(es: seq<Entry<N>>): Option<Table<(N, N)>>
    requires GoodDates(es)
  {
    if es == [] then None
    else
      var range := DayColumns(es);
      Some(Table(Header(range), Body(es, range), None))
  }

  /** What src/index.js's `rowToGrid` returns: the same table with the totals row. */
  function SrcTable<N(==, !new)>(es: seq<Entry<N>>): Option<Table<(N, N)>>
    requires GoodDates(es)
  {
    if es == [] then None
    else
      var range := DayColumns(es);
      BodyWidth(es, range);
      Some(Table(Header(range), Body(es, range), Some(TotalsRow(Body(es, range), |range|))))
  }

  // ---------------------------------------------------------------------
  // Reading the last entry through the filter, the sort and the marks

  function EntryKeyIs<N(==)>(k: Key<N>): Entry<N> -> bool {
    (e: Entry<N>) => EntryKey(e) == k
  }

  /** A filter that keeps every entry with key `k` keeps its last one. */
  lemma {:induction false} LastEntryForFilter<N(!new)>(s: seq<Entry<N>>, q: Entry<N> -> bool, k: Key<N>)
    requires forall e :: EntryKey(e) == k ==> q(e)
    ensures LastEntryFor(Filter(s, q), k) == LastEntryFor(s, k)
    decreases |s|
  {
    if s != [] {
      var init := s[..|s| - 1];
      var x := s[|s| - 1];
      var fi := Filter(init, q);
      LastEntryForFilter(init, q, k);
      assert s == init + [x];
      FilterAppend(init, [x], q);
      FilterCons(x, [], q);
      assert [x] + [] == [x];
      assert Filter(s, q) == fi + (if q(x) then [x] else []);
      LastEntryForSnoc(init, x, k);
      if q(x) {
        LastEntryForSnoc(fi, x, k);
      } else {
        assert EntryKey(x) != k;
        assert Filter(s, q) == fi;
      }
    }
  }

  /** `_.sortBy` by day is stable, and entries of one key share a day: the
      sort leaves every key's last entry where it was among its equals. */
  lemma SortedLast<N(!new)>(s: seq<Entry<N>>, k: Key<N>)
    ensures LastEntryFor(SortBy(s, DayKey), k) == LastEntryFor(s, k)
  {
    var q := EntryKeyIs(k);
    SortByStable(s, DayKey, q, DateText(k.date));
    LastEntryForFilter(SortBy(s, DayKey), q, k);
    LastEntryForFilter(s, q, k);
  }

  /** The last mark of a row and a day is the last entry of that key. */
  lemma {:induction false} MarksLast<N>(es: seq<Entry<N>>, p: N, t: N, d: Date)
    ensures LastMark(Marks(es), (p, t), d) == match LastEntryFor(es, Key(p, t, d))
                                             case Some(e) => Some(Rounded(e))
                                             case None => None
    decreases |es|
  {
    if es != [] {
      var init := es[..|es| - 1];
      assert Marks(es)[..|es| - 1] == Marks(init);
      MarksLast(init, p, t, d);
    }
  }

  /** Entries of the project `p`, whatever their order, only mark rows of `p`. */
  lemma MarksOfProject<N(!new)>(es: seq<Entry<N>>, p: N)
    ensures forall m :: 0 <= m < |Marks(SortBy(Filter(es, ProjectIs(p)), DayKey))| ==>
              Marks(SortBy(Filter(es, ProjectIs(p)), DayKey))[m].name.0 == p
  {
    var pr := Filter(es, ProjectIs(p));
    var s := SortBy(pr, DayKey);
    forall m | 0 <= m < |s|
      ensures s[m].project == p
    {
      assert s[m] in multiset(s);
      assert s[m] in pr;
    }
  }

  // ---------------------------------------------------------------------
  // The project loop

  /** Row `r` belongs to one of `ps`, names one of that project's tasks, and
      is the row the cell description gives for that name. */
  predicate RowFits<N(==, !new)>(es: seq<Entry<N>>, ps: seq<N>, range: seq<Date>, r: GridRow<(N, N)>) {
    && r.name.0 in ps && r.name.1 in ProjectTasks(es, r.name.0)
    && r == LineRow(es, r.name.0, r.name.1, range)
  }

  /** Every row of `Blocks(es, ps, range)` fits `ps`. */
  lemma {:induction false} BlocksRows<N(!new)>(es: seq<Entry<N>>, ps: seq<N>, range: seq<Date>)
    ensures forall i :: 0 <= i < |Blocks(es, ps, range)| ==> RowFits(es, ps, range, Blocks(es, ps, range)[i])
    decreases |ps|
  {
    if ps != [] {
      var init := ps[..|ps| - 1];
      var p := ps[|ps| - 1];
      var a := Blocks(es, init, range);
      var ts := ProjectTasks(es, p);
      var block := ProjectBlock(es, p, range);
      var b := Blocks(es, ps, range);
      assert b == a + block;
      BlocksRows(es, init, range);
      forall i | 0 <= i < |b|
        ensures RowFits(es, ps, range, b[i])
      {
        if i < |a| {
          assert b[i] == a[i];
          assert RowFits(es, init, range, a[i]);
          assert a[i].name.0 in init;
          var m :| 0 <= m < |init| && init[m] == a[i].name.0;
          assert ps[m] == init[m];
        } else {
          assert b[i] == block[i - |a|] == LineRow(es, p, ts[i - |a|], range);
          assert ts[i - |a|] in ts;
        }
      }
    }
  }

  /** Writing one project's sorted entries over its new rows gives its block. */
  lemma BlockFromZero<N(!new)>(es: seq<Entry<N>>, p: N, range: seq<Date>)
    ensures var pr := Filter(es, ProjectIs(p));
            Stamp(ZeroRows(NamesFor(p, ProjectTasks(es, p)), |range|), Marks(SortBy(pr, DayKey)), range)
              == ProjectBlock(es, p, range)
  {
    var pr := Filter(es, ProjectIs(p));
    var ts := ProjectTasks(es, p);
    var z := ZeroRows(NamesFor(p, ts), |range|);
    var ms := Marks(SortBy(pr, DayKey));
    var out := Stamp(z, ms, range);
    var block := ProjectBlock(es, p, range);
    forall i | 0 <= i < |ts|
      ensures out[i] == block[i]
    {
      StampRow(z, ms, range, i);
      forall j | 0 <= j < |range|
        ensures out[i].cells[j] == CellFor(es, p, ts[i], range[j])
      {
        StampCell(z, ms, range, i, j);
        var k := Key(p, ts[i], range[j]);
        MarksLast(SortBy(pr, DayKey), p, ts[i], range[j]);
        SortedLast(pr, k);
        LastEntryForFilter(es, ProjectIs(p), k);
      }
    }
  }

  /** The entries of project `ps[k]` mark none of the rows of the projects before it. */
  lemma EarlierUntouched<N(!new)>(es: seq<Entry<N>>, ps: seq<N>, k: nat, range: seq<Date>)
    requires NoDup(ps) && k < |ps|
    ensures forall m :: 0 <= m < |Marks(SortBy(Filter(es, ProjectIs(ps[k])), DayKey))| ==>
              Untouched(Blocks(es, ps[..k], range), Marks(SortBy(Filter(es, ProjectIs(ps[k])), DayKey))[m].name)
  {
    var p := ps[k];
    var a := Blocks(es, ps[..k], range);
    var ms := Marks(SortBy(Filter(es, ProjectIs(p)), DayKey));
    BlocksRows(es, ps[..k], range);
    MarksOfProject(es, p);
    forall m, i | 0 <= m < |ms| && 0 <= i < |a|
      ensures a[i].name != ms[m].name
    {
      assert RowFits(es, ps[..k], range, a[i]);
      var j :| 0 <= j < k && ps[..k][j] == a[i].name.0;
      assert ps[j] != ps[k];
    }
  }

  /** One turn of `uniqueProjects.forEach`: new rows for the project's tasks
      are pushed and its sorted entries written; the rows of earlier projects
      stay as they were. */
  lemma ProjectStep<N(!new)>(es: seq<Entry<N>>, ps: seq<N>, k: nat, range: seq<Date>)
    requires NoDup(ps) && k < |ps|
    ensures var p := ps[k];
            var pr := Filter(es, ProjectIs(p));
            Stamp(Blocks(es, ps[..k], range) + ZeroRows(NamesFor(p, ProjectTasks(es, p)), |range|),
                  Marks(SortBy(pr, DayKey)), range)
              == Blocks(es, ps[..k + 1], range)
  {
    var p := ps[k];
    var a := Blocks(es, ps[..k], range);
    var ms := Marks(SortBy(Filter(es, ProjectIs(p)), DayKey));
    EarlierUntouched(es, ps, k, range);
    StampAppend(a, ZeroRows(NamesFor(p, ProjectTasks(es, p)), |range|), ms, range);
    BlockFromZero(es, p, range);
    assert ps[..k + 1][..k] == ps[..k];
    assert Blocks(es, ps[..k + 1], range) == a + ProjectBlock(es, p, range);
  }

  /** The `uniqueProjects.forEach` of `rowToGrid`, turn by turn. */
  method BuildBody<N(==, !new)>(es: seq<Entry<N>>, range: seq<Date>) returns (output: seq<GridRow<(N, N)>>)
    ensures output == Body(es, range)
  {
    var projects := Uniq(Projects(es));
    output := [];
    assert projects[..0] == [];
    for k := 0 to |projects|
      invariant output == Blocks(es, projects[..k], range)
    {
      var project := projects[k];
      var projectRows := Filter(es, ProjectIs(project));
      var tasks := Uniq(Tasks(projectRows));
      output := PushZeroRows(output, NamesFor(project, tasks), |range|);
      var sortedRows := SortBy(projectRows, DayKey);
      output := ApplyWrites(output, Marks(sortedRows), range);
      ProjectStep(es, projects, k, range);
    }
    assert projects[..|projects|] == projects;
  }

  /** `rowToGrid` of dist/entry.js. */
  method RowToGridDist<N(==, !new)>(es: seq<Entry<N>>) returns (t: Option<Table<(N, N)>>)
    requires GoodDates(es)
    ensures t == DistTable(es)
  {
    if es == [] {
      return None;
    }
    var uniqueDates := Uniq(Dates(es));
    assert uniqueDates[0] in Dates(es);
    var range := DayRange(MinDate(uniqueDates), MaxDate(uniqueDates));
    var columnHeaders := ["Project", "Task"] + DateTexts(range);
    var output := BuildBody(es, range);
    t := Some(Table(columnHeaders, output, None));
  }

  /** `rowToGrid` of src/index.js. */
  method RowToGridSrc<N(==, !new)>(es: seq<Entry<N>>) returns (t: Option<Table<(N, N)>>)
    requires GoodDates(es)
    ensures t == SrcTable(es)
  {
    if es == [] {
      return None;
    }
    var uniqueDates := Uniq(Dates(es));
    assert uniqueDates[0] in Dates(es);
    var range := DayRange(MinDate(uniqueDates), MaxDate(uniqueDates));
    var columnHeaders := ["Project", "Task"] + DateTexts(range);
    var output := BuildBody(es, range);
    BodyWidth(es, range);
    var totals := ColumnTotals(output, |range|);
    t := Some(Table(columnHeaders, output, Some(totals)));
  }

  // ---------------------------------------------------------------------
  // What the table shows

  /** Every row has one cell per day of the range: the header has two more columns. */
  lemma BodyWidth<N(!new)>(es: seq<Entry<N>>, range: seq<Date>)
    ensures forall i :: 0 <= i < |Body(es, range)| ==> |Body(es, range)[i].cells| == |range|
    ensures |Header(range)| == |range| + 2
  {
    BlocksRows(es, Uniq(Projects(es)), range);
  }

  /** Each cell of the body is the cell its row's name and its day describe. */
  lemma BodyCell<N(!new)>(es: seq<Entry<N>>, range: seq<Date>, i: nat, j: nat)
    requires i < |Body(es, range)| && j < |range|
    ensures var row := Body(es, range)[i];
            && |row.cells| == |range|
            && row.cells[j] == CellFor(es, row.name.0, row.name.1, range[j])
  {
    BlocksRows(es, Uniq(Projects(es)), range);
    assert RowFits(es, Uniq(Projects(es)), range, Body(es, range)[i]);
  }

  /** There is a row for project `p` and task `t` exactly when some entry has them. */
  lemma BodyNames<N(!new)>(es: seq<Entry<N>>, range: seq<Date>, p: N, t: N)
    ensures (p, t) in Names(Body(es, range)) <==> exists i :: 0 <= i < |es| && es[i].project == p && es[i].task == t
  {
    if (p, t) in Names(Body(es, range)) {
      RowHasEntry(es, range, p, t);
    }
    if exists i :: 0 <= i < |es| && es[i].project == p && es[i].task == t {
      var i :| 0 <= i < |es| && es[i].project == p && es[i].task == t;
      EntryHasRow(es, range, i);
    }
  }

  /** A row's project and task come from some entry. */
  lemma RowHasEntry<N(!new)>(es: seq<Entry<N>>, range: seq<Date>, p: N, t: N)
    requires (p, t) in Names(Body(es, range))
    ensures exists i :: 0 <= i < |es| && es[i].project == p && es[i].task == t
  {
    var ps := Uniq(Projects(es));
    var b := Body(es, range);
    BlocksRows(es, ps, range);
    var n :| 0 <= n < |b| && Names(b)[n] == (p, t);
    assert RowFits(es, ps, range, b[n]);
    var f := Filter(es, ProjectIs(p));
    assert t in Uniq(Tasks(f));
    assert t in Tasks(f);
    var m :| 0 <= m < |f| && Tasks(f)[m] == t;
    assert f[m] in f;
    assert f[m] in es && f[m].project == p;
    var i :| 0 <= i < |es| && es[i] == f[m];
  }

  /** Every entry's project and task have a row. */
  lemma EntryHasRow<N(!new)>(es: seq<Entry<N>>, range: seq<Date>, i: nat)
    requires i < |es|
    ensures (es[i].project, es[i].task) in Names(Body(es, range))
  {
    var p := es[i].project;
    var ps := Uniq(Projects(es));
    assert Projects(es)[i] == p;
    assert p in Projects(es);
    assert p in ps;
    var f := Filter(es, ProjectIs(p));
    assert es[i] in es && ProjectIs(p)(es[i]);
    assert es[i] in f;
    var m :| 0 <= m < |f| && f[m] == es[i];
    assert Tasks(f)[m] == es[i].task;
    assert es[i].task in Tasks(f);
    assert es[i].task in ProjectTasks(es, p);
    BlocksHave(es, ps, range, p, es[i].task);
  }

  /** A project of `ps` has a row for each of its tasks. */
  lemma {:induction false} BlocksHave<N(!new)>(es: seq<Entry<N>>, ps: seq<N>, range: seq<Date>, p: N, t: N)
    requires p in ps && t in ProjectTasks(es, p)
    ensures (p, t) in Names(Blocks(es, ps, range))
    decreases |ps|
  {
    var init := ps[..|ps| - 1];
    var a := Blocks(es, init, range);
    var block := ProjectBlock(es, ps[|ps| - 1], range);
    assert Blocks(es, ps, range) == a + block;
    if p == ps[|ps| - 1] {
      var ts := ProjectTasks(es, p);
      var m :| 0 <= m < |ts| && ts[m] == t;
      assert Names(a + block)[|a| + m] == (p, t);
    } else {
      assert p in init;
      BlocksHave(es, init, range, p, t);
      var m :| 0 <= m < |a| && Names(a)[m] == (p, t);
      assert Names(a + block)[m] == (p, t);
    }
  }

  /** No two rows share a project and task. */
  lemma {:induction false} BlocksDistinct<N(!new)>(es: seq<Entry<N>>, ps: seq<N>, range: seq<Date>)
    requires NoDup(ps)
    ensures NoDup(Names(Blocks(es, ps, range)))
    decreases |ps|
  {
    if ps != [] {
      var init := ps[..|ps| - 1];
      var p := ps[|ps| - 1];
      var a := Blocks(es, init, range);
      var block := ProjectBlock(es, p, range);
      var ts := ProjectTasks(es, p);
      BlocksDistinct(es, init, range);
      BlocksRows(es, init, range);
      assert p !in init;
      var ns := Names(a + block);
      forall i, j | 0 <= i < j < |ns|
        ensures ns[i] != ns[j]
      {
        if j < |a| {
          assert ns[i] == Names(a)[i] && ns[j] == Names(a)[j];
        } else if i >= |a| {
          assert ns[i] == (p, ts[i - |a|]) && ns[j] == (p, ts[j - |a|]);
        } else {
          assert ns[i] == a[i].name && ns[j].0 == p;
        }
      }
    }
  }

  /** One row per distinct project and task. */
  lemma BodyDistinct<N(!new)>(es: seq<Entry<N>>, range: seq<Date>)
    ensures NoDup(Names(Body(es, range)))
  {
    BlocksDistinct(es, Uniq(Projects(es)), range);
  }

  /** Every entry's day has a column: the loop's writes always land in the table. */
  lemma EveryDayHasColumn<N(!new)>(es: seq<Entry<N>>, i: nat)
    requires GoodDates(es) && i < |es|
    ensures es[i].date in DayColumns(es)
  {
    var ds := Uniq(Dates(es));
    assert Dates(es)[i] == es[i].date;
    assert ds[0] in Dates(es);
    var lo := MinDate(ds);
    var hi := MaxDate(ds);
    assert es[i].date in Dates(es);
    assert es[i].date in ds;
    var m :| 0 <= m < |ds| && ds[m] == es[i].date;
    DaysFromShape(lo, hi);
  }

  /** A cell reads back as the quarter-rounded hours of the key's last entry,
      as NaN when those hours are not a number, and as 0 when there is no entry. */
  lemma CellForHours<N>(es: seq<Entry<N>>, p: N, t: N, d: Date)
    ensures CellHours(CellFor(es, p, t, d)) == match LastEntryFor(es, Key(p, t, d))
                                               case Some(e) => (if e.hours.NaN? then NaN else Hundredths(QuarterRound(e.hours.n)))
                                               case None => Hundredths(0)
  {
    match LastEntryFor(es, Key(p, t, d))
    case Some(e) =>
      if e.hours.NaN? {
        NaNStaysNaN();
      } else {
        RoundedTextDenotes(e.hours.n);
      }
    case None =>
  }

  /** Every column of the body adds up to NaN or a whole number of quarter hours. */
  lemma BodyQuarters<N(!new)>(es: seq<Entry<N>>, range: seq<Date>, j: nat)
    requires j < |range|
    ensures HasColumn(Body(es, range), j)
    ensures ColumnSum(Body(es, range), j).Hundredths? ==> ColumnSum(Body(es, range), j).n % 25 == 0
  {
    var b := Body(es, range);
    BlocksRows(es, Uniq(Projects(es)), range);
    forall i | 0 <= i < |b|
      ensures CellHours(b[i].cells[j]).Hundredths? ==> CellHours(b[i].cells[j]).n % 25 == 0
    {
      assert b[i].cells[j] == CellFor(es, b[i].name.0, b[i].name.1, range[j]);
      CellForHours(es, b[i].name.0, b[i].name.1, range[j]);
      match LastEntryFor(es, Key(b[i].name.0, b[i].name.1, range[j]))
      case Some(e) =>
        if e.hours.Hundredths? {
          QuarterRoundBounds(e.hours.n);
        }
      case None =>
    }
    ColumnSumQuarters(b, j);
  }
}
