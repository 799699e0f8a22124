/** The keyset walk over `events` and `transfers`: newest first, one page at a time, while the table changes. */
module Keyset {
  import opened Basics
  import opened Pagination
  import Sorting

  datatype Row<+D> = Row(ledger: i64, eventId: string, detail: D)

  /** What one query fixes for the whole walk: its filter, the database's collation, the cursor codec, the largest
      page. */
  datatype View<!D> = View(keeps: D -> bool, collation: (string, string) -> bool, codec: Base64, maxPage: nat)

  // ---- the two filters ----

  datatype EventDetail = EventDetail(contractId: string, eventName: Option<string>)
  datatype TransferDetail = TransferDetail(contractId: string, from: Option<string>, to: Option<string>)

  /** SQL's `$n IS NULL OR column = $n`: a null column matches no bound value. */
  predicate Matches(column: Option<string>, bound: Option<string>) { bound.None? || column == bound }

  function EventFilter(contractId: string, name: Option<string>): EventDetail -> bool {
    (d: EventDetail) => d.contractId == contractId && Matches(d.eventName, name)
  }

  function TransferFilter(contractId: Option<string>, from: Option<string>, to: Option<string>)
    : TransferDetail -> bool
  {
    (d: TransferDetail) => Matches(Some(d.contractId), contractId) && Matches(d.from, from) && Matches(d.to, to)
  }

  // ---- the query ----

  /** Postgres compares text by some strict total order, the same in `<` and in `ORDER BY`. */
  ghost predicate Collation(lt: (string, string) -> bool) {
    && Sorting.WeakOrder(lt)
    && forall s, t :: s != t ==> lt(s, t) || lt(t, s)
  }

  function PositionOf<D>(r: Row<D>): Position { Position(r.ledger, r.eventId) }

  /** The keyset predicate `ledger < $3 OR (ledger = $3 AND event_id < $4)`. */
  predicate Older(lt: (string, string) -> bool, p: Position, q: Position) {
    p.ledger < q.ledger || (p.ledger == q.ledger && lt(p.eventId, q.eventId))
  }

  predicate InReach(lt: (string, string) -> bool, p: Position, bound: Option<Position>) {
    bound.None? || Older(lt, p, bound.value)
  }

  predicate Selects<D>(view: View<D>, bound: Option<Position>, r: Row<D>) {
    view.keeps(r.detail) && InReach(view.collation, PositionOf(r), bound)
  }

  function Where<D>(view: View<D>, bound: Option<Position>, table: seq<Row<D>>): seq<Row<D>> {
    if table == [] then []
    else
      var rest := Where(view, bound, table[1..]);
      if Selects(view, bound, table[0]) then [table[0]] + rest else rest
  }

  /** `ORDER BY ledger DESC, event_id DESC`. */
  function NewestFirst<D>(lt: (string, string) -> bool): (Row<D>, Row<D>) -> bool {
    (a, b) => Older(lt, PositionOf(b), PositionOf(a))
  }

  function Ordered<D>(view: View<D>, bound: Option<Position>, table: seq<Row<D>>): seq<Row<D>> {
    Sorting.Sort(NewestFirst(view.collation), Where(view, bound, table))
  }

  function Take<T>(rows: seq<T>, n: nat): seq<T> { if |rows| <= n then rows else rows[..n] }

  /** `event_id` is the table's primary key. */
  ghost predicate Keyed<D>(table: seq<Row<D>>) {
    forall i, j :: 0 <= i < j < |table| ==> table[i].eventId != table[j].eventId
  }

  // ---- the connection ----

  datatype Edge<+D> = Edge(cursor: string, node: Row<D>)
  datatype Connection<+D> = Connection(edges: seq<Edge<D>>, hasNextPage: bool, endCursor: Option<string>)

  function Edges<D>(codec: Base64, rows: seq<Row<D>>): (edges: seq<Edge<D>>)
    ensures |edges| == |rows|
    ensures forall i :: 0 <= i < |rows| ==> edges[i] == Edge(EncodeCursor(codec, PositionOf(rows[i])), rows[i])
  {
    if rows == [] then [] else [Edge(EncodeCursor(codec, PositionOf(rows[0])), rows[0])] + Edges(codec, rows[1..])
  }

  function Connect<D>(codec: Base64, fetched: seq<Row<D>>, limit: nat): Connection<D> {
    var rows := Take(fetched, limit);
    Connection(Edges(codec, rows), |fetched| > limit,
               if rows == [] then None else Some(EncodeCursor(codec, PositionOf(rows[|rows| - 1]))))
  }

  /** `build_event_connection` and `build_transfer_connection`, which differ only in the row type. */
  method BuildConnection<D>(codec: Base64, fetched: seq<Row<D>>, limit: nat) returns (c: Connection<D>)
    ensures c == Connect(codec, fetched, limit)
    ensures |c.edges| <= limit && forall i :: 0 <= i < |c.edges| ==> c.edges[i].node == fetched[i]
    ensures c.endCursor == if c.edges == [] then None else Some(c.edges[|c.edges| - 1].cursor)
  {
    var rows := fetched;
    var hasNextPage := |rows| > limit;
    if hasNextPage {
      rows := rows[..limit];
    }
    var endCursor := if rows == [] then None else Some(EncodeCursor(codec, PositionOf(rows[|rows| - 1])));
    var edges: seq<Edge<D>> := [];
    for i := 0 to |rows|
      invariant |edges| == i
      invariant forall k :: 0 <= k < i ==> edges[k] == Edge(EncodeCursor(codec, PositionOf(rows[k])), rows[k])
    {
      edges := edges + [Edge(EncodeCursor(codec, PositionOf(rows[i])), rows[i])];
    }
    assert edges == Edges(codec, rows);
    c := Connection(edges, hasNextPage, endCursor);
  }

  // ---- the walk ----

  /** One request: the table as it stands then, and the page size asked for. */
  datatype Step<+D> = Step(table: seq<Row<D>>, first: Option<int>)

  /** The rows of each page, and whether the last page said there is no next one. */
  datatype Trace<+D> = Trace(pages: seq<seq<Row<D>>>, finished: bool)

  function PageSize<D>(view: View<D>, step: Step<D>): (n: nat)
    requires view.maxPage >= 1
    ensures 1 <= n <= view.maxPage
    ensures step.first.Some? && 1 <= step.first.value <= view.maxPage ==> n == step.first.value
    ensures step.first.Some? && step.first.value < 1 ==> n == 1
    ensures step.first.Some? && step.first.value > view.maxPage ==> n == view.maxPage
    ensures step.first.None? ==> n == if view.maxPage < 20 then view.maxPage else 20
  {
    Clamp(if step.first.Some? then step.first.value else 20, 1, view.maxPage)
  }

  function Serve<D>(view: View<D>, step: Step<D>, after: Option<string>): Result<Connection<D>, ()>
    requires view.maxPage >= 1
  {
    match DecodeCursor(view.codec, after)
    case Err(_) => Err(())
    case Ok(bound) =>
      var limit := PageSize(view, step);
      Ok(Connect(view.codec, Take(Ordered(view, bound, step.table), limit + 1), limit))
  }

  function Nodes<D>(edges: seq<Edge<D>>): (rows: seq<Row<D>>)
    ensures |rows| == |edges| && forall i :: 0 <= i < |edges| ==> rows[i] == edges[i].node
  {
    if edges == [] then [] else [edges[0].node] + Nodes(edges[1..])
  }

  /** A client that follows `endCursor` for as long as `hasNextPage` holds. */
  function Walk<D>(view: View<D>, steps: seq<Step<D>>, after: Option<string>): Result<Trace<D>, ()>
    requires view.maxPage >= 1
  {
    if steps == [] then Ok(Trace([], false))
    else
      match Serve(view, steps[0], after)
      case Err(_) => Err(())
      case Ok(c) =>
        if !c.hasNextPage then Ok(Trace([Nodes(c.edges)], true))
        else
          match Walk(view, steps[1..], c.endCursor)
          case Err(_) => Err(())
          case Ok(rest) => Ok(Trace([Nodes(c.edges)] + rest.pages, rest.finished))
  }

  function Visited<D>(pages: seq<seq<Row<D>>>): seq<Row<D>> {
    if pages == [] then [] else pages[0] + Visited(pages[1..])
  }

  // ---- the order ----

  lemma OlderIsTotal<D(!new)>(lt: (string, string) -> bool)
    requires Collation(lt)
    ensures Sorting.WeakOrder(NewestFirst<D>(lt))
    ensures forall a: Row<D>, b: Row<D> :: PositionOf(a) != PositionOf(b) ==>
            NewestFirst(lt)(a, b) || NewestFirst(lt)(b, a)
  {
  }

  lemma {:induction false} WhereSelects<D(!new)>(view: View<D>, bound: Option<Position>, table: seq<Row<D>>)
    ensures forall r :: r in Where(view, bound, table) <==> r in table && Selects(view, bound, r)
  {
    if table != [] {
      WhereSelects(view, bound, table[1..]);
      assert table == [table[0]] + table[1..];
    }
  }

  lemma {:induction false} WhereKeyed<D(!new)>(view: View<D>, bound: Option<Position>, table: seq<Row<D>>)
    requires Keyed(table)
    ensures Keyed(Where(view, bound, table))
  {
    if table != [] {
      var rest := Where(view, bound, table[1..]);
      WhereKeyed(view, bound, table[1..]);
      WhereSelects(view, bound, table[1..]);
      forall i | 0 <= i < |rest| ensures rest[i].eventId != table[0].eventId {
        assert rest[i] in table[1..];
        var k :| 0 <= k < |table[1..]| && table[1..][k] == rest[i];
        assert table[0].eventId != table[k + 1].eventId;
      }
    }
  }

  /** A query's rows come strictly newest first. */
  lemma OrderedStrictly<D(!new)>(view: View<D>, bound: Option<Position>, table: seq<Row<D>>)
    requires Collation(view.collation) && Keyed(table)
    ensures Sorting.StrictlySorted(NewestFirst(view.collation), Ordered(view, bound, table))
    ensures forall r :: r in Ordered(view, bound, table) <==> r in table && Selects(view, bound, r)
  {
    var lt := NewestFirst<D>(view.collation);
    var rows := Where(view, bound, table);
    var s := Sorting.Sort(lt, rows);
    OlderIsTotal<D>(view.collation);
    WhereSelects(view, bound, table);
    WhereKeyed(view, bound, table);
    Sorting.SortSorted(lt, rows);
    assert forall r :: r in s <==> r in multiset(s);
    assert forall r :: r in rows <==> r in multiset(rows);
    forall i, j | 0 <= i < j < |s| ensures lt(s[i], s[j]) {
      var k, l := Sorting.PairInPermutation(rows, s, i, j);
      assert rows[k].eventId != rows[l].eventId;
    }
  }

  /** Two strictly sorted sequences with the same elements are the same. */
  lemma {:induction false} StrictSameElements<T(!new)>(lt: (T, T) -> bool, a: seq<T>, b: seq<T>)
    requires Sorting.WeakOrder(lt)
    requires Sorting.StrictlySorted(lt, a) && Sorting.StrictlySorted(lt, b)
    requires forall x :: x in a <==> x in b
    ensures a == b
  {
    EmptyTogether(a, b);
    if a != [] {
      assert a[0] in b && b[0] in a;
      forall x | x in a[1..] ensures x in b[1..] { assert x in a && lt(a[0], x); }
      forall x | x in b[1..] ensures x in a[1..] { assert x in b && lt(b[0], x); }
      StrictSameElements(lt, a[1..], b[1..]);
      assert a == [a[0]] + a[1..] && b == [b[0]] + b[1..];
    }
  }

  lemma EmptyTogether<T(!new)>(a: seq<T>, b: seq<T>)
    requires forall x :: x in a <==> x in b
    ensures a == [] <==> b == []
  {
    if a != [] { assert a[0] in b; }
    if b != [] { assert b[0] in a; }
  }

  // ---- one page ----

  lemma ServePage<D>(view: View<D>, step: Step<D>, after: Option<string>, bound: Option<Position>)
    requires view.maxPage >= 1 && Faithful(view.codec)
    requires DecodeCursor(view.codec, after) == Ok(bound)
    ensures var all, limit := Ordered(view, bound, step.table), PageSize(view, step);
      && Serve(view, step, after).Ok?
      && var c := Serve(view, step, after).value;
      && Nodes(c.edges) == Take(all, limit)
      && (c.hasNextPage <==> |all| > limit)
      && (c.hasNextPage ==> DecodeCursor(view.codec, c.endCursor) == Ok(Some(PositionOf(all[limit - 1]))))
  {
    hide Ordered, DecodeCursor, EncodeCursor, PageSize, Connect, Nodes, Take;
    var all, limit := Ordered(view, bound, step.table), PageSize(view, step);
    ConnectShows(view.codec, all, limit);
    if |all| > limit { CursorRoundTrip(view.codec, PositionOf(all[limit - 1])); }
  }

  lemma ConnectShows<D>(codec: Base64, all: seq<Row<D>>, limit: nat)
    requires limit >= 1
    ensures var c := Connect(codec, Take(all, limit + 1), limit);
      && Nodes(c.edges) == Take(all, limit) && (c.hasNextPage <==> |all| > limit)
      && (c.hasNextPage ==> c.endCursor == Some(EncodeCursor(codec, PositionOf(all[limit - 1]))))
  {
    hide EncodeCursor;
    assert Take(Take(all, limit + 1), limit) == Take(all, limit);
  }

  // ---- a table that changes between pages ----

  ghost predicate AllKeyed<D>(steps: seq<Step<D>>) { forall k :: 0 <= k < |steps| ==> Keyed(steps[k].table) }

  /** The row is in every one of the first `n` tables. */
  ghost predicate Stays<D(!new)>(r: Row<D>, steps: seq<Step<D>>, n: nat)
    requires n <= |steps|
  {
    forall k :: 0 <= k < n ==> r in steps[k].table
  }

  /** What a walk from `bound` promises, however rows come and go between its pages. */
  ghost predicate Covers<D(!new)>(view: View<D>, steps: seq<Step<D>>, bound: Option<Position>, t: Trace<D>) {
    && |t.pages| <= |steps|
    && Sorting.StrictlySorted(NewestFirst(view.collation), Visited(t.pages))
    && (forall r :: r in Visited(t.pages) ==> Selects(view, bound, r))
    && (forall k, r :: 0 <= k < |t.pages| && r in t.pages[k] ==> r in steps[k].table)
    && (t.finished ==> forall r :: Stays(r, steps, |t.pages|) && Selects(view, bound, r) ==>
          t.pages != [] && r in Visited(t.pages))
  }

  /** Following end cursors never fails, never repeats or reorders a row, shows only rows that were there,
      and, once it ends, has shown every row that stayed throughout, whatever was inserted or removed meanwhile. */
  lemma {:induction false} WalkCovers<D(!new)>(view: View<D>, steps: seq<Step<D>>, after: Option<string>,
                                               bound: Option<Position>)
    requires view.maxPage >= 1 && Faithful(view.codec) && Collation(view.collation) && AllKeyed(steps)
    requires DecodeCursor(view.codec, after) == Ok(bound)
    ensures Walk(view, steps, after).Ok? && Covers(view, steps, bound, Walk(view, steps, after).value)
    decreases |steps|
  {
    hide Serve, Ordered, DecodeCursor, Selects, PageSize;
    if steps != [] {
      var all, limit := Ordered(view, bound, steps[0].table), PageSize(view, steps[0]);
      ServePage(view, steps[0], after, bound);
      OrderedStrictly(view, bound, steps[0].table);
      var c := Serve(view, steps[0], after).value;
      if c.hasNextPage {
        var next := Some(PositionOf(all[limit - 1]));
        WalkCovers(view, steps[1..], c.endCursor, next);
        CoversMore(view, steps, bound, all, limit, Walk(view, steps[1..], c.endCursor).value);
      } else {
        CoversLast(view, steps, bound, all);
      }
    }
  }

  ghost predicate Answers<D(!new)>(view: View<D>, step: Step<D>, bound: Option<Position>, all: seq<Row<D>>) {
    && Sorting.StrictlySorted(NewestFirst(view.collation), all)
    && forall r :: r in all <==> r in step.table && Selects(view, bound, r)
  }

  lemma CoversLast<D(!new)>(view: View<D>, steps: seq<Step<D>>, bound: Option<Position>, all: seq<Row<D>>)
    requires steps != [] && Answers(view, steps[0], bound, all)
    ensures Covers(view, steps, bound, Trace([all], true))
  {
    hide Selects;
    assert Visited([all]) == all + Visited([]) == all;
  }

  lemma CoversMore<D(!new)>(view: View<D>, steps: seq<Step<D>>, bound: Option<Position>, all: seq<Row<D>>, limit: nat,
                            rest: Trace<D>)
    requires Collation(view.collation)
    requires steps != [] && Answers(view, steps[0], bound, all) && 1 <= limit < |all|
    requires Covers(view, steps[1..], Some(PositionOf(all[limit - 1])), rest)
    ensures Covers(view, steps, bound, Trace([all[..limit]] + rest.pages, rest.finished))
  {
    var lt := NewestFirst<D>(view.collation);
    var page, pages := all[..limit], [all[..limit]] + rest.pages;
    var last, later := page[limit - 1], Visited(rest.pages);
    assert pages[1..] == rest.pages;
    assert Visited(pages) == page + later;
    forall r | r in later ensures lt(last, r) && Selects(view, bound, r) {
      assert Selects(view, Some(PositionOf(last)), r);
      BoundTightens(view, bound, last, r);
    }
    forall r | r in page ensures lt(r, last) || r == last {}
    OlderIsTotal<D>(view.collation);
    forall i, j | 0 <= i < j < |Visited(pages)| ensures lt(Visited(pages)[i], Visited(pages)[j]) {
      JoinStrict(lt, page, later, i, j);
    }
    forall k, r | 0 <= k < |pages| && r in pages[k] ensures r in steps[k].table {
      if k > 0 { assert r in rest.pages[k - 1] && steps[1..][k - 1] == steps[k]; }
    }
    if rest.finished {
      forall r | Stays(r, steps, |pages|) && Selects(view, bound, r) ensures r in Visited(pages) {
        assert r in steps[0].table && r in all;
        var i :| 0 <= i < |all| && all[i] == r;
        if i < limit {
          assert page[i] == r;
        } else {
          assert lt(all[limit - 1], all[i]);
          assert Selects(view, Some(PositionOf(last)), r);
          assert Stays(r, steps[1..], |rest.pages|);
        }
      }
    }
  }

  lemma BoundTightens<D(!new)>(view: View<D>, bound: Option<Position>, last: Row<D>, r: Row<D>)
    requires Collation(view.collation)
    requires Selects(view, bound, last) && Selects(view, Some(PositionOf(last)), r)
    ensures Selects(view, bound, r)
  {
    if bound.Some? {
      var lt, a, b, c := view.collation, r.eventId, last.eventId, bound.value.eventId;
      assert lt(a, b) && lt(b, c) ==> lt(a, c) by {
        assert lt(a, b) ==> lt(a, c) || lt(c, b);
      }
    }
  }

  lemma JoinStrict<T(!new)>(lt: (T, T) -> bool, a: seq<T>, b: seq<T>, i: nat, j: nat)
    requires Sorting.WeakOrder(lt) && a != []
    requires Sorting.StrictlySorted(lt, a) && Sorting.StrictlySorted(lt, b)
    requires forall x :: x in b ==> lt(a[|a| - 1], x)
    requires i < j < |a| + |b|
    ensures lt((a + b)[i], (a + b)[j])
  {
    if i < |a| <= j {
      var x, y, z := a[i], a[|a| - 1], b[j - |a|];
      assert z in b && lt(y, z);
      assert lt(y, z) ==> lt(y, x) || lt(x, z);
    }
  }

  // ---- a table that stands still ----

  /** The rows older than the last row of a page are the rest of the query that page came from. */
  lemma NextQuery<D(!new)>(view: View<D>, bound: Option<Position>, table: seq<Row<D>>, n: nat)
    requires Collation(view.collation) && Keyed(table)
    requires 1 <= n < |Ordered(view, bound, table)|
    ensures Ordered(view, Some(PositionOf(Ordered(view, bound, table)[n - 1])), table)
            == Ordered(view, bound, table)[n..]
  {
    hide Ordered, Selects;
    var lt, all := NewestFirst<D>(view.collation), Ordered(view, bound, table);
    var last := all[n - 1];
    var next, rest := Ordered(view, Some(PositionOf(last)), table), all[n..];
    OrderedStrictly(view, bound, table);
    OrderedStrictly(view, Some(PositionOf(last)), table);
    OlderIsTotal<D>(view.collation);
    forall r | r in rest ensures r in next {
      var i :| 0 <= i < |rest| && rest[i] == r;
      assert lt(last, all[n + i]) && r in all;
      SelectsBelow(view, bound, last, r);
    }
    forall r | r in next ensures r in rest {
      assert last in all;
      SelectsBelow(view, bound, last, r);
      assert r in all;
      var i :| 0 <= i < |all| && all[i] == r;
      assert forall k :: 0 <= k < n - 1 ==> lt(all[k], last);
      assert rest[i - n] == r;
    }
    StrictSameElements(lt, next, rest);
  }

  lemma SelectsBelow<D(!new)>(view: View<D>, bound: Option<Position>, last: Row<D>, r: Row<D>)
    requires Collation(view.collation) && Selects(view, bound, last)
    ensures Selects(view, Some(PositionOf(last)), r)
            <==> Selects(view, bound, r) && NewestFirst(view.collation)(last, r)
  {
    if Selects(view, Some(PositionOf(last)), r) { BoundTightens(view, bound, last, r); }
  }

  function Demand<D>(view: View<D>, steps: seq<Step<D>>): nat
    requires view.maxPage >= 1
  {
    if steps == [] then 0 else PageSize(view, steps[0]) + Demand(view, steps[1..])
  }

  /** On a table that stands still the walk shows the query's rows in order, as many as were asked for, and ends
      exactly when they run out: after at most one page per row, and at most one page in all if there is none. */
  lemma {:induction false} StaticWalk<D(!new)>(view: View<D>, table: seq<Row<D>>, steps: seq<Step<D>>,
                                               after: Option<string>, bound: Option<Position>)
    requires view.maxPage >= 1 && Faithful(view.codec) && Collation(view.collation) && Keyed(table)
    requires forall k :: 0 <= k < |steps| ==> steps[k].table == table
    requires DecodeCursor(view.codec, after) == Ok(bound)
    ensures Walk(view, steps, after).Ok?
    ensures Visited(Walk(view, steps, after).value.pages) == Take(Ordered(view, bound, table), Demand(view, steps))
    ensures Walk(view, steps, after).value.finished
            <==> steps != [] && |Ordered(view, bound, table)| <= Demand(view, steps)
    ensures |steps| <= Demand(view, steps)
    decreases |steps|
  {
    hide Serve, Ordered, DecodeCursor, PageSize;
    if steps != [] {
      var all, limit := Ordered(view, bound, table), PageSize(view, steps[0]);
      ServePage(view, steps[0], after, bound);
      var c := Serve(view, steps[0], after).value;
      if c.hasNextPage {
        var next := Some(PositionOf(all[limit - 1]));
        NextQuery(view, bound, table, limit);
        StaticWalk(view, table, steps[1..], c.endCursor, next);
        var rest := Walk(view, steps[1..], c.endCursor).value.pages;
        TakeMore(all, limit, Demand(view, steps[1..]));
        VisitedCons(all[..limit], rest);
        hide Visited, Take;
      } else {
        DemandAtLeast(view, steps[1..]);
        VisitedCons(all, []);
        assert all + [] == all;
        hide Visited;
      }
    }
  }

  lemma VisitedCons<D>(page: seq<Row<D>>, rest: seq<seq<Row<D>>>)
    ensures Visited([page] + rest) == page + Visited(rest)
  {
    assert ([page] + rest)[1..] == rest;
  }

  lemma TakeMore<T>(all: seq<T>, n: nat, m: nat)
    requires n < |all|
    ensures all[..n] + Take(all[n..], m) == Take(all, n + m)
  {
    if n + m < |all| { assert all[n..][..m] == all[n..n + m]; }
  }

  lemma {:induction false} DemandAtLeast<D>(view: View<D>, steps: seq<Step<D>>)
    requires view.maxPage >= 1
    ensures |steps| <= Demand(view, steps)
  {
    if steps != [] { DemandAtLeast(view, steps[1..]); }
  }

  // ---- the contracts connection ----

  /** `ORDER BY last_seen_ledger DESC, contract_id`: the second column ascends, but the keyset predicate is the same. */
  predicate ContractFirst<D>(lt: (string, string) -> bool, a: Row<D>, b: Row<D>) {
    a.ledger > b.ledger || (a.ledger == b.ledger && lt(a.eventId, b.eventId))
  }

  /** The predicate continues after the `n`-th contract exactly when no other contract shares that contract's ledger:
      otherwise it skips the ties still to come or shows again the ones already shown. */
  lemma ContractsContinueIffNoTie<D(!new)>(lt: (string, string) -> bool, all: seq<Row<D>>, n: nat)
    requires Collation(lt) && 1 <= n <= |all|
    requires forall i, j :: 0 <= i < j < |all| ==> ContractFirst(lt, all[i], all[j])
    ensures (forall i :: 0 <= i < |all| ==> (Older(lt, PositionOf(all[i]), PositionOf(all[n - 1])) <==> i >= n))
       <==> (forall i :: 0 <= i < |all| && i != n - 1 ==> all[i].ledger != all[n - 1].ledger)
  {
    forall i | 0 <= i < |all|
      ensures (Older(lt, PositionOf(all[i]), PositionOf(all[n - 1])) <==> i >= n)
         <==> (i != n - 1 ==> all[i].ledger != all[n - 1].ledger)
    {
      if i < n - 1 {
        assert ContractFirst(lt, all[i], all[n - 1]);
      } else if i >= n {
        assert ContractFirst(lt, all[n - 1], all[i]);
      }
    }
  }

  /** Two contracts of one ledger, one contract a page: the second is never shown. */
  lemma TiedContractIsSkipped(lt: (string, string) -> bool, first: Row<()>, second: Row<()>)
    requires Collation(lt) && first.ledger == second.ledger && lt(first.eventId, second.eventId)
    ensures ContractFirst(lt, first, second) && !Older(lt, PositionOf(second), PositionOf(first))
  {
  }

  // ---- the two connections ----

  /** `events`: the walk of one contract's events, all of them or those of one name. An unnamed event matches no
      name. */
  lemma EventWalkCovers(contractId: string, name: Option<string>, view: View<EventDetail>,
                        steps: seq<Step<EventDetail>>)
    requires view.maxPage >= 1 && Faithful(view.codec) && Collation(view.collation) && AllKeyed(steps)
    requires view.keeps == EventFilter(contractId, name)
    ensures Walk(view, steps, None).Ok? && Covers(view, steps, None, Walk(view, steps, None).value)
    ensures forall r :: Selects(view, None, r) <==>
      r.detail.contractId == contractId && (name.Some? ==> r.detail.eventName == name)
  {
    WalkCovers(view, steps, None, None);
  }

  /** `transfers`: any contract or one, any sender or one, any receiver or one. */
  lemma TransferWalkCovers(contractId: Option<string>, from: Option<string>, to: Option<string>,
                           view: View<TransferDetail>, steps: seq<Step<TransferDetail>>)
    requires view.maxPage >= 1 && Faithful(view.codec) && Collation(view.collation) && AllKeyed(steps)
    requires view.keeps == TransferFilter(contractId, from, to)
    ensures Walk(view, steps, None).Ok? && Covers(view, steps, None, Walk(view, steps, None).value)
    ensures forall r :: Selects(view, None, r) <==>
      && (contractId.Some? ==> r.detail.contractId == contractId.value)
      && (from.Some? ==> r.detail.from == from) && (to.Some? ==> r.detail.to == to)
  {
    WalkCovers(view, steps, None, None);
  }
}
