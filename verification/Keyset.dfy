/**
  Keyset pagination: `keysetCondition`, `keysetOrderBy` and `cursorAfter` of
  `apps/api/src/lib/pagination.ts`, fetched page by page as in
  `apps/api/src/modules/events/events.service.ts`.
 */
module Keyset {
  import opened Wrappers

  datatype Direction = Asc | Desc

  datatype Kind = Date | Text

  datatype KeysetOrder = KeysetOrder(direction: Direction, kind: Kind)

  /**
    The sort key of a row. A value stands for its place in the database's order: microseconds for a
    timestamp, the place in the collation for a text; an id for its place among the uuids.
   */
  datatype Row = Row(value: int, id: int)

  datatype Cursor = Cursor(value: int, id: int)

  // ---- Conditions and orders -----------------------------------------------------------------

  datatype Field = Attribute | Id

  datatype Operator = Gt | Lt | Eq

  datatype Where =
    | Compare(field: Field, op: Operator, value: int)
    | And(left: Where, right: Where)
    | Or(left: Where, right: Where)

  function FieldOf(row: Row, field: Field): int { if field == Attribute then row.value else row.id }

  predicate Holds(w: Where, row: Row) {
    match w
    case Compare(f, Gt, v) => FieldOf(row, f) > v
    case Compare(f, Lt, v) => FieldOf(row, f) < v
    case Compare(f, Eq, v) => FieldOf(row, f) == v
    case And(a, b) => Holds(a, row) && Holds(b, row)
    case Or(a, b) => Holds(a, row) || Holds(b, row)
  }

  /** `keysetCondition`. */
  function KeysetCondition(order: KeysetOrder, cursor: Cursor): Where {
    var after := if order.direction == Asc then Gt else Lt;
    Or(Compare(Attribute, after, cursor.value),
       And(Compare(Attribute, Eq, cursor.value), Compare(Id, after, cursor.id)))
  }

  /** `keysetOrderBy`. */
  function KeysetOrderBy(order: KeysetOrder): seq<(Field, Direction)> {
    [(Attribute, order.direction), (Id, order.direction)]
  }

  /** `ORDER BY`: the first column in which the rows differ decides. */
  predicate Before(columns: seq<(Field, Direction)>, a: Row, b: Row) {
    if columns == [] then false
    else
      var (field, direction) := columns[0];
      if FieldOf(a, field) != FieldOf(b, field) then
        if direction == Asc then FieldOf(a, field) < FieldOf(b, field) else FieldOf(b, field) < FieldOf(a, field)
      else Before(columns[1..], a, b)
  }

  /** `toISOString()` keeps milliseconds. */
  function CursorValue(order: KeysetOrder, value: int): int {
    if order.kind == Date then value - value % 1000 else value
  }

  /** `cursorAfter`. */
  function CursorAfter(order: KeysetOrder, row: Row): Cursor {
    Cursor(CursorValue(order, row.value), row.id)
  }

  predicate Precedes(order: KeysetOrder, a: Row, b: Row) { Before(KeysetOrderBy(order), a, b) }

  lemma PrecedesMeans(order: KeysetOrder, a: Row, b: Row)
    ensures Precedes(order, a, b) <==>
            if order.direction == Asc then a.value < b.value || (a.value == b.value && a.id < b.id)
            else b.value < a.value || (a.value == b.value && b.id < a.id)
  {
    var columns := KeysetOrderBy(order);
    assert columns[1..][1..] == [] && !Before(columns[1..][1..], a, b);
    assert Before(columns[1..], a, b) <==> if order.direction == Asc then a.id < b.id else b.id < a.id;
  }

  lemma StrictTotalOrder(order: KeysetOrder, a: Row, b: Row, c: Row)
    ensures !Precedes(order, a, a)
    ensures Precedes(order, a, b) && Precedes(order, b, c) ==> Precedes(order, a, c)
    ensures a == b || Precedes(order, a, b) || Precedes(order, b, a)
  {
    PrecedesMeans(order, a, a);
    PrecedesMeans(order, a, b);
    PrecedesMeans(order, b, c);
    PrecedesMeans(order, a, c);
    PrecedesMeans(order, b, a);
  }

  // ---- Sorting -------------------------------------------------------------------------------

  ghost predicate IsSorted(order: KeysetOrder, rows: seq<Row>) {
    forall i, j | 0 <= i < j < |rows| :: Precedes(order, rows[i], rows[j])
  }

  ghost predicate IsFirst(order: KeysetOrder, table: set<Row>, m: Row) {
    m in table && forall r | r in table :: r == m || Precedes(order, m, r)
  }

  lemma {:induction false} FirstRow(order: KeysetOrder, table: set<Row>) returns (m: Row)
    requires table != {}
    ensures IsFirst(order, table, m)
  {
    m :| m in table;
    var rest := table - {m};
    if rest != {} {
      var n := FirstRow(order, rest);
      StrictTotalOrder(order, n, m, m);
      if Precedes(order, n, m) {
        forall r | r in table ensures r == n || Precedes(order, n, r) { assert r == m || r in rest; }
        m := n;
      } else {
        forall r | r in table ensures r == m || Precedes(order, m, r) {
          assert r == m || r in rest;
          StrictTotalOrder(order, m, n, r);
        }
      }
    } else {
      assert table == {m};
    }
  }

  lemma FirstRowExists(order: KeysetOrder, table: set<Row>)
    requires table != {}
    ensures exists m :: IsFirst(order, table, m)
  {
    var m := FirstRow(order, table);
  }

  /** `ORDER BY`: all rows of the table, sorted. */
  ghost function OrderBy(order: KeysetOrder, table: set<Row>): (rows: seq<Row>)
    ensures IsSorted(order, rows) && |rows| == |table|
    ensures forall r :: r in rows <==> r in table
  {
    if table == {} then []
    else
      FirstRowExists(order, table);
      var first :| IsFirst(order, table, first);
      var rest := OrderBy(order, table - {first});
      assert forall i | 0 <= i < |rest| :: rest[i] in table - {first};
      [first] + rest
  }

  /** There is only one way to sort a table. */
  lemma {:induction false} SortedIsUnique(order: KeysetOrder, xs: seq<Row>, ys: seq<Row>)
    requires IsSorted(order, xs) && IsSorted(order, ys)
    requires forall r :: r in xs <==> r in ys
    ensures xs == ys
    decreases |xs|
  {
    if ys != [] { FirstIsMember(ys); }
    if xs != [] {
      assert xs[0] in ys && ys != [];
      FirstIsFirst(order, xs, ys);
      FirstIsFirst(order, ys, xs);
      StrictTotalOrder(order, xs[0], ys[0], xs[0]);
      TailMembers(order, xs);
      TailMembers(order, ys);
      SortedIsUnique(order, xs[1..], ys[1..]);
      assert xs == [xs[0]] + xs[1..] && ys == [ys[0]] + ys[1..];
    }
  }

  lemma FirstIsMember(xs: seq<Row>)
    requires xs != []
    ensures exists r :: r in xs
  {
    assert xs[0] in xs;
  }

  lemma FirstIsFirst(order: KeysetOrder, xs: seq<Row>, ys: seq<Row>)
    requires IsSorted(order, xs) && xs != [] && ys != [] && ys[0] in xs
    ensures xs[0] == ys[0] || Precedes(order, xs[0], ys[0])
  {
  }

  lemma TailMembers(order: KeysetOrder, xs: seq<Row>)
    requires IsSorted(order, xs) && xs != []
    ensures forall r :: r in xs[1..] <==> r in xs && r != xs[0]
  {
    StrictTotalOrder(order, xs[0], xs[0], xs[0]);
    forall r | r in xs && r != xs[0] ensures r in xs[1..] {
      var i :| 0 <= i < |xs| && xs[i] == r;
      assert xs[1..][i - 1] == r;
    }
  }

  // ---- Pages ---------------------------------------------------------------------------------

  /** The rows the query selects: all, or those satisfying the condition of the cursor. */
  function Selected(order: KeysetOrder, table: set<Row>, cursor: Option<Cursor>): set<Row> {
    set r | r in table && (cursor == None || Holds(KeysetCondition(order, cursor.value), r))
  }

  /** One page: of `limit + 1` fetched rows the first `limit`, and a cursor if there were more. */
  ghost function Page(order: KeysetOrder, table: set<Row>, cursor: Option<Cursor>, limit: nat)
    : (seq<Row>, Option<Cursor>)
    requires limit >= 1
  {
    var matching := OrderBy(order, Selected(order, table, cursor));
    var fetched := if |matching| > limit + 1 then matching[..limit + 1] else matching;
    if |fetched| > limit then (fetched[..limit], Some(CursorAfter(order, fetched[limit - 1])))
    else (fetched, None)
  }

  /** Every value survives the round trip through a cursor. */
  predicate Exact(order: KeysetOrder, value: int) { CursorValue(order, value) == value }

  ghost predicate AllExact(order: KeysetOrder, table: set<Row>) { forall r | r in table :: Exact(order, r.value) }

  ghost predicate AfterCursor(order: KeysetOrder, cursor: Option<Cursor>, r: Row) {
    cursor == None || Precedes(order, Row(cursor.value.value, cursor.value.id), r)
  }

  /** The condition selects exactly the rows after the position the cursor names. */
  lemma ConditionSelectsAfter(order: KeysetOrder, cursor: Cursor, r: Row)
    ensures Holds(KeysetCondition(order, cursor), r) <==> Precedes(order, Row(cursor.value, cursor.id), r)
  {
    var condition := KeysetCondition(order, cursor);
    PrecedesMeans(order, Row(cursor.value, cursor.id), r);
    assert Holds(condition, r) <==> Holds(condition.left, r) || Holds(condition.right, r);
    assert Holds(condition.right, r) <==> Holds(condition.right.left, r) && Holds(condition.right.right, r);
  }

  lemma SelectedAreAfter(order: KeysetOrder, table: set<Row>, cursor: Option<Cursor>, r: Row)
    ensures r in Selected(order, table, cursor) <==> r in table && AfterCursor(order, cursor, r)
  {
    if cursor.Some? { ConditionSelectsAfter(order, cursor.value, r); }
  }

  /** A page in terms of the sorted selection: its first part, and a cursor between it and the rest. */
  lemma PageSplits(order: KeysetOrder, table: set<Row>, cursor: Option<Cursor>, limit: nat)
    requires limit >= 1
    ensures var (rows, next) := Page(order, table, cursor, limit);
            var matching := OrderBy(order, Selected(order, table, cursor));
            && rows <= matching
            && (next == None ==> rows == matching)
            && (next.Some? ==> |rows| == limit && next.value == CursorAfter(order, rows[limit - 1]))
  {
  }

  /** Following the cursors, fetch by fetch, each from the table as it is then. */
  ghost function Follow(order: KeysetOrder, tables: seq<set<Row>>, cursor: Option<Cursor>, limit: nat): seq<Row>
    requires limit >= 1
    decreases |tables|
  {
    if tables == [] then []
    else
      var (rows, next) := Page(order, tables[0], cursor, limit);
      if next == None then rows else rows + Follow(order, tables[1..], next, limit)
  }

  /** The last page was reached. */
  ghost predicate Completed(order: KeysetOrder, tables: seq<set<Row>>, cursor: Option<Cursor>, limit: nat)
    requires limit >= 1
    decreases |tables|
  {
    tables != [] &&
    var next := Page(order, tables[0], cursor, limit).1;
    next == None || Completed(order, tables[1..], next, limit)
  }

  /** Every row at which a page ends, with more to come, has a value that its cursor holds exactly. */
  ghost predicate CursorsExact(order: KeysetOrder, tables: seq<set<Row>>, cursor: Option<Cursor>, limit: nat)
    requires limit >= 1
    decreases |tables|
  {
    tables == [] ||
    var (rows, next) := Page(order, tables[0], cursor, limit);
    next.Some? ==>
      |rows| == limit && Exact(order, rows[limit - 1].value) && CursorsExact(order, tables[1..], next, limit)
  }

  lemma SortedConcat(order: KeysetOrder, xs: seq<Row>, ys: seq<Row>)
    requires IsSorted(order, xs) && IsSorted(order, ys)
    requires xs != [] && forall r | r in ys :: Precedes(order, xs[|xs| - 1], r)
    ensures IsSorted(order, xs + ys)
  {
    var zs, n := xs + ys, |xs|;
    forall i, j | 0 <= i < j < |zs| ensures Precedes(order, zs[i], zs[j]) {
      if i < n <= j {
        assert ys[j - n] in ys;
        StrictTotalOrder(order, xs[i], xs[n - 1], ys[j - n]);
      }
    }
  }

  /** The rows come strictly ordered, so none twice, after the cursor, and each from a table it was in. */
  ghost predicate Sound(order: KeysetOrder, tables: seq<set<Row>>, cursor: Option<Cursor>, rows: seq<Row>) {
    IsSorted(order, rows) && forall r | r in rows :: AfterCursor(order, cursor, r) && Appears(tables, r)
  }

  /** Every row after the cursor that was there throughout is among the rows. */
  ghost predicate Complete(order: KeysetOrder, tables: seq<set<Row>>, cursor: Option<Cursor>, rows: seq<Row>) {
    forall r | AfterCursor(order, cursor, r) && ThereThroughout(tables, r) :: r in rows
  }

  function CursorAt(row: Row): Option<Cursor> { Some(Cursor(row.value, row.id)) }

  lemma ExactCursor(order: KeysetOrder, row: Row)
    requires Exact(order, row.value)
    ensures Some(CursorAfter(order, row)) == CursorAt(row)
  {
  }

  lemma PageIsSound(order: KeysetOrder, tables: seq<set<Row>>, cursor: Option<Cursor>, limit: nat)
    requires limit >= 1 && tables != []
    ensures Sound(order, tables, cursor, Page(order, tables[0], cursor, limit).0)
  {
    hide Page, Precedes, AfterCursor, IsSorted, Appears;
    PageIsFaithful(order, tables[0], cursor, limit);
    forall r | r in tables[0] ensures Appears(tables, r) { AppearsNow(tables, r, 0); }
  }

  lemma SoundJoins(
    order: KeysetOrder, tables: seq<set<Row>>, cursor: Option<Cursor>, page: seq<Row>, rest: seq<Row>)
    requires tables != [] && page != []
    requires Sound(order, tables, cursor, page) && Sound(order, tables[1..], CursorAt(page[|page| - 1]), rest)
    ensures Sound(order, tables, cursor, page + rest)
  {
    hide Precedes, Appears, AfterCursor, IsSorted;
    var last := page[|page| - 1];
    assert last in page;
    forall r | r in rest ensures Precedes(order, last, r) && AfterCursor(order, cursor, r) && Appears(tables, r) {
      AfterLater(order, cursor, last, r);
      AppearsLater(tables, r);
    }
    SortedConcat(order, page, rest);
  }

  lemma CompleteJoins(
    order: KeysetOrder, tables: seq<set<Row>>, cursor: Option<Cursor>, page: seq<Row>, last: Row, rest: seq<Row>)
    requires tables != []
    requires forall r | r in tables[0] && AfterCursor(order, cursor, r) :: r in page || Precedes(order, last, r)
    requires Complete(order, tables[1..], CursorAt(last), rest)
    ensures Complete(order, tables, cursor, page + rest)
  {
    hide Precedes, AfterCursor, ThereThroughout;
    forall r | AfterCursor(order, cursor, r) && ThereThroughout(tables, r) ensures r in page + rest {
      ThroughoutLater(tables, r);
      AfterLater(order, None, last, r);
    }
  }

  lemma LastPageIsComplete(order: KeysetOrder, tables: seq<set<Row>>, cursor: Option<Cursor>, limit: nat)
    requires limit >= 1 && tables != [] && Page(order, tables[0], cursor, limit).1 == None
    ensures Complete(order, tables, cursor, Page(order, tables[0], cursor, limit).0)
  {
    hide Page, Precedes, AfterCursor, ThereThroughout;
    PageIsFaithful(order, tables[0], cursor, limit);
    forall r | ThereThroughout(tables, r) ensures r in tables[0] { ThroughoutLater(tables, r); }
  }

  /**
    Whatever is inserted and deleted between fetches: the rows come out strictly ordered, so none
    twice, each from a table it was in; and a completed traversal has every row that was there throughout.
   */
  lemma {:induction false} TraversalIsFaithful(
    order: KeysetOrder, tables: seq<set<Row>>, cursor: Option<Cursor>, limit: nat)
    requires limit >= 1 && CursorsExact(order, tables, cursor, limit)
    ensures
      var rows := Follow(order, tables, cursor, limit);
      && Sound(order, tables, cursor, rows)
      && (Completed(order, tables, cursor, limit) ==> Complete(order, tables, cursor, rows))
    decreases |tables|
  {
    if tables == [] {
      assert IsSorted(order, []);
    } else {
      hide Page, Precedes, AfterCursor, Exact, CursorAfter, Sound, Complete;
      var (page, next) := Page(order, tables[0], cursor, limit);
      PageIsSound(order, tables, cursor, limit);
      if next == None {
        LastPageIsComplete(order, tables, cursor, limit);
      } else {
        var last, rest := page[limit - 1], Follow(order, tables[1..], next, limit);
        PageIsFaithful(order, tables[0], cursor, limit);
        ExactCursor(order, last);
        TraversalIsFaithful(order, tables[1..], next, limit);
        SoundJoins(order, tables, cursor, page, rest);
        if Completed(order, tables, cursor, limit) { CompleteJoins(order, tables, cursor, page, last, rest); }
      }
    }
  }

  ghost predicate Appears(tables: seq<set<Row>>, r: Row) { exists k | 0 <= k < |tables| :: r in tables[k] }

  ghost predicate ThereThroughout(tables: seq<set<Row>>, r: Row) { forall k | 0 <= k < |tables| :: r in tables[k] }

  lemma AppearsNow(tables: seq<set<Row>>, r: Row, k: nat)
    requires k < |tables| && r in tables[k]
    ensures Appears(tables, r)
  {
  }

  lemma AppearsLater(tables: seq<set<Row>>, r: Row)
    requires tables != [] && Appears(tables[1..], r)
    ensures Appears(tables, r)
  {
    var k :| 0 <= k < |tables[1..]| && r in tables[1..][k];
    assert r in tables[k + 1];
  }

  lemma ThroughoutLater(tables: seq<set<Row>>, r: Row)
    requires tables != [] && ThereThroughout(tables, r)
    ensures r in tables[0] && ThereThroughout(tables[1..], r)
  {
  }

  lemma AfterLater(order: KeysetOrder, cursor: Option<Cursor>, last: Row, r: Row)
    ensures AfterCursor(order, cursor, last) && Precedes(order, last, r) ==> AfterCursor(order, cursor, r)
    ensures AfterCursor(order, Some(Cursor(last.value, last.id)), r) <==> Precedes(order, last, r)
  {
    if cursor.Some? { StrictTotalOrder(order, Row(cursor.value.value, cursor.value.id), last, r); }
  }

  /** One page: sorted rows after the cursor; what else is after the cursor is after the page's last row. */
  lemma PageIsFaithful(order: KeysetOrder, table: set<Row>, cursor: Option<Cursor>, limit: nat)
    requires limit >= 1
    ensures var (page, next) := Page(order, table, cursor, limit);
            && IsSorted(order, page)
            && (forall r | r in page :: r in table && AfterCursor(order, cursor, r))
            && (next == None ==> forall r | r in table && AfterCursor(order, cursor, r) :: r in page)
            && (next.Some? ==>
                  && |page| == limit && next.value == CursorAfter(order, page[limit - 1])
                  && AfterCursor(order, cursor, page[limit - 1])
                  && forall r | r in table && AfterCursor(order, cursor, r) ::
                       r in page || Precedes(order, page[limit - 1], r))
  {
    hide Page, Precedes, Holds, AfterCursor;
    var (page, next) := Page(order, table, cursor, limit);
    var matching := OrderBy(order, Selected(order, table, cursor));
    PageSplits(order, table, cursor, limit);
    forall r ensures r in matching <==> r in table && AfterCursor(order, cursor, r) {
      SelectedAreAfter(order, table, cursor, r);
    }
    assert forall r | r in page :: r in matching;
    if next.Some? {
      assert page[limit - 1] in page;
      forall r | r in matching ensures r in page || Precedes(order, page[limit - 1], r) {
        BeforeOrAfter(order, matching, limit, r);
      }
    }
  }

  /** A next cursor is given exactly when there is more to come: never on a last page, however full. */
  lemma NextExactlyWhenMore(order: KeysetOrder, table: set<Row>, cursor: Option<Cursor>, limit: nat)
    requires limit >= 1
    ensures var (page, next) := Page(order, table, cursor, limit);
            next.Some? <==> exists r :: r in table && AfterCursor(order, cursor, r) && r !in page
  {
    PageIsFaithful(order, table, cursor, limit);
    var (page, next) := Page(order, table, cursor, limit);
    var matching := OrderBy(order, Selected(order, table, cursor));
    if next.Some? {
      var r := matching[limit];
      assert r in matching;
      SelectedAreAfter(order, table, cursor, r);
      forall k | 0 <= k < limit ensures page[k] != r {
        assert page[k] == matching[k] && Precedes(order, matching[k], matching[limit]);
        StrictTotalOrder(order, r, r, r);
      }
      assert r !in page;
    }
  }

  lemma BeforeOrAfter(order: KeysetOrder, rows: seq<Row>, n: nat, r: Row)
    requires IsSorted(order, rows) && 1 <= n <= |rows| && r in rows
    ensures r in rows[..n] || Precedes(order, rows[n - 1], r)
  {
    var i :| 0 <= i < |rows| && rows[i] == r;
    if i < n { assert rows[..n][i] == r; }
  }

  /** The table at `n` fetches between which nothing changes. */
  function Unchanged(table: set<Row>, n: nat): (tables: seq<set<Row>>)
    ensures |tables| == n && forall k | 0 <= k < n :: tables[k] == table
  {
    seq(n, _ => table)
  }

  /** On a fixed table a completed traversal is the sorted table. */
  lemma FixedTableInOrder(order: KeysetOrder, table: set<Row>, n: nat, limit: nat)
    requires limit >= 1 && CursorsExact(order, Unchanged(table, n), None, limit)
    ensures Completed(order, Unchanged(table, n), None, limit) ==>
              Follow(order, Unchanged(table, n), None, limit) == OrderBy(order, table)
  {
    var tables := Unchanged(table, n);
    TraversalIsFaithful(order, tables, None, limit);
    var rows := Follow(order, tables, None, limit);
    if Completed(order, tables, None, limit) {
      forall r ensures r in rows <==> r in OrderBy(order, table) {
        if r in table { assert ThereThroughout(tables, r); }
      }
      SortedIsUnique(order, rows, OrderBy(order, table));
    }
  }

  /** A sorted list is as long as the set of its rows. */
  lemma {:induction false} SortedSize(order: KeysetOrder, rows: seq<Row>, members: set<Row>)
    requires IsSorted(order, rows) && forall r :: r in rows <==> r in members
    ensures |rows| == |members|
    decreases |rows|
  {
    if rows == [] {
      assert forall r :: r !in members;
      assert members == {};
    } else {
      TailMembers(order, rows);
      SortedSize(order, rows[1..], members - {rows[0]});
    }
  }

  lemma SelectedSize(order: KeysetOrder, table: set<Row>, cursor: Option<Cursor>, limit: nat)
    requires limit >= 1
    ensures var (page, next) := Page(order, table, cursor, limit);
            next == None <==> |Selected(order, table, cursor)| <= limit
  {
    SortedSize(order, OrderBy(order, Selected(order, table, cursor)), Selected(order, table, cursor));
  }

  /** A full page with an exact cursor leaves `limit` rows fewer to come. */
  lemma PageLeavesFewer(order: KeysetOrder, table: set<Row>, cursor: Option<Cursor>, limit: nat)
    requires limit >= 1
    ensures var (page, next) := Page(order, table, cursor, limit);
            && (next.Some? ==> |page| == limit)
            && (next.Some? && Exact(order, page[limit - 1].value) ==>
                  |Selected(order, table, next)| == |Selected(order, table, cursor)| - limit)
  {
    hide Page, Holds, Precedes, Exact, AfterCursor;
    var (page, next) := Page(order, table, cursor, limit);
    PageIsFaithful(order, table, cursor, limit);
    if next.Some? && Exact(order, page[limit - 1].value) {
      var last, taken := page[limit - 1], set r | r in page;
      var now, later := Selected(order, table, cursor), Selected(order, table, next);
      ExactCursor(order, last);
      forall r | r in table ensures r in now <==> r in later || r in taken {
        SelectedAreAfter(order, table, cursor, r);
        SelectedAreAfter(order, table, next, r);
        AfterLater(order, cursor, last, r);
      }
      forall r | r in taken ensures r !in later {
        SelectedAreAfter(order, table, next, r);
        AfterLater(order, cursor, last, r);
        NotBehindLast(order, page, r);
      }
      assert now == later + taken && later !! taken;
      SortedSize(order, page, taken);
    }
  }

  lemma NotBehindLast(order: KeysetOrder, page: seq<Row>, r: Row)
    requires IsSorted(order, page) && r in page
    ensures !Precedes(order, page[|page| - 1], r)
  {
    var i :| 0 <= i < |page| && page[i] == r;
    var last := page[|page| - 1];
    StrictTotalOrder(order, last, r, last);
    StrictTotalOrder(order, r, r, r);
  }

  lemma FixedTableUnfolds(order: KeysetOrder, table: set<Row>, cursor: Option<Cursor>, n: nat, limit: nat)
    requires limit >= 1 && n >= 1 && CursorsExact(order, Unchanged(table, n), cursor, limit)
    ensures var (page, next) := Page(order, table, cursor, limit);
            && (Completed(order, Unchanged(table, n), cursor, limit) <==>
                  next == None || Completed(order, Unchanged(table, n - 1), next, limit))
            && (next.Some? ==>
                  && |page| == limit && Exact(order, page[limit - 1].value)
                  && CursorsExact(order, Unchanged(table, n - 1), next, limit))
  {
    hide Page, Exact;
    assert Unchanged(table, n)[1..] == Unchanged(table, n - 1) && Unchanged(table, n)[0] == table;
  }

  lemma NoPageCompletes(order: KeysetOrder, table: set<Row>, cursor: Option<Cursor>, limit: nat)
    requires limit >= 1
    ensures !Completed(order, Unchanged(table, 0), cursor, limit)
  {
  }

  /** The rows that `n` full pages hold. */
  function Capacity(n: nat, limit: nat): nat { n * limit }

  lemma PagesFill(rows: nat, n: nat, limit: nat)
    requires limit >= 1 && n >= 1
    ensures rows <= limit ==> rows <= Capacity(n, limit)
    ensures rows > limit ==>
              (rows <= Capacity(n, limit) <==> n - 1 >= 1 && rows - limit <= Capacity(n - 1, limit))
  {
    assert n * limit == (n - 1) * limit + limit;
    assert (n - 1) * limit >= 0;
  }

  /** On a fixed table the traversal ends after exactly as many pages as the rows to come fill. */
  lemma {:induction false} FixedTableCompletes(
    order: KeysetOrder, table: set<Row>, cursor: Option<Cursor>, n: nat, limit: nat)
    requires limit >= 1 && CursorsExact(order, Unchanged(table, n), cursor, limit)
    ensures Completed(order, Unchanged(table, n), cursor, limit) <==>
            n >= 1 && |Selected(order, table, cursor)| <= Capacity(n, limit)
    decreases n
  {
    hide *;
    if n == 0 {
      NoPageCompletes(order, table, cursor, limit);
    } else {
      var (page, next) := Page(order, table, cursor, limit);
      FixedTableUnfolds(order, table, cursor, n, limit);
      SelectedSize(order, table, cursor, limit);
      PageLeavesFewer(order, table, cursor, limit);
      PagesFill(|Selected(order, table, cursor)|, n, limit);
      if next.Some? { FixedTableCompletes(order, table, next, n - 1, limit); }
    }
  }

  /** A fixed table is enumerated completely and in order by the pages that its rows fill. */
  lemma FixedTableIsEnumerated(order: KeysetOrder, table: set<Row>, n: nat, limit: nat)
    requires limit >= 1 && CursorsExact(order, Unchanged(table, n), None, limit)
    requires n >= 1 && |table| <= Capacity(n, limit)
    ensures Follow(order, Unchanged(table, n), None, limit) == OrderBy(order, table)
  {
    assert Selected(order, table, None) == table;
    FixedTableCompletes(order, table, None, n, limit);
    FixedTableInOrder(order, table, n, limit);
  }

  /** Tables whose values are all exact, as all texts are, give exact cursors. */
  lemma {:induction false} ExactTables(
    order: KeysetOrder, tables: seq<set<Row>>, cursor: Option<Cursor>, limit: nat)
    requires limit >= 1
    requires order.kind == Text || forall k | 0 <= k < |tables| :: AllExact(order, tables[k])
    ensures CursorsExact(order, tables, cursor, limit)
    decreases |tables|
  {
    if tables != [] {
      hide Page, Precedes, Holds, AfterCursor;
      var (page, next) := Page(order, tables[0], cursor, limit);
      PageIsFaithful(order, tables[0], cursor, limit);
      if next.Some? {
        assert page[limit - 1] in page && page[limit - 1] in tables[0];
        ExactTables(order, tables[1..], next, limit);
      }
    }
  }

  // ---- Timestamps finer than a cursor --------------------------------------------------------

  ghost function RowsAfter(order: KeysetOrder, table: set<Row>, row: Row): set<Row> {
    set r | r in table && Precedes(order, row, r)
  }

  /** The cursor of a row selects the rows after it, in every table, exactly when its value is whole milliseconds. */
  lemma CursorIsRightExactlyWhenExact(order: KeysetOrder, row: Row)
    ensures Exact(order, row.value) <==>
            forall table: set<Row> | row in table ::
              Selected(order, table, Some(CursorAfter(order, row))) == RowsAfter(order, table, row)
  {
    var cursor := CursorAfter(order, row);
    if Exact(order, row.value) {
      forall table: set<Row> | row in table
        ensures Selected(order, table, Some(cursor)) == RowsAfter(order, table, row)
      {
        forall r | r in table ensures Holds(KeysetCondition(order, cursor), r) <==> Precedes(order, row, r) {
          ConditionSelectsAfter(order, cursor, r);
        }
      }
    } else {
      // Ascending, the row itself comes again; descending, a row in the same millisecond is skipped.
      var other := if order.direction == Asc then row else Row(row.value - 1, row.id + 1);
      var table := {row, other};
      assert cursor.value < row.value;
      ConditionSelectsAfter(order, cursor, other);
      PrecedesMeans(order, Row(cursor.value, cursor.id), other);
      PrecedesMeans(order, row, other);
      assert other in Selected(order, table, Some(cursor)) <==> other !in RowsAfter(order, table, row);
    }
  }

  const BY_DATE := KeysetOrder(Asc, Date)

  /** Half a millisecond is enough: in this table the second page is the first one again, for ever. */
  lemma FractionsRepeatThePage()
    ensures var table := {Row(1_500, 1), Row(2_000, 2)};
            var (rows, next) := Page(BY_DATE, table, None, 1);
            rows == [Row(1_500, 1)] && next.Some? && Page(BY_DATE, table, next, 1) == (rows, next)
  {
    var a, b := Row(1_500, 1), Row(2_000, 2);
    var table, cursor := {a, b}, Cursor(1_000, 1);
    PrecedesMeans(BY_DATE, a, b);
    assert IsSorted(BY_DATE, [a, b]);
    SortedIsUnique(BY_DATE, [a, b], OrderBy(BY_DATE, table));
    assert Selected(BY_DATE, table, None) == table;
    forall r | r in table ensures Holds(KeysetCondition(BY_DATE, cursor), r) {
      ConditionSelectsAfter(BY_DATE, cursor, r);
      PrecedesMeans(BY_DATE, Row(1_000, 1), r);
    }
    assert Selected(BY_DATE, table, Some(cursor)) == table;
    assert CursorAfter(BY_DATE, a) == cursor;
  }
}
