/** Pages of a query: the window of a page, and what following `next_page` visits. */
module Paging {
  /** `next` is -1 on the last page. */
  datatype PageCalc = PageCalc(limit: int, offset: int, next: int)

  function CalculatePage(total: int, limit: int, page: int): PageCalc {
    var nextOffset := limit * page;
    PageCalc(limit, limit * (page - 1), if nextOffset >= total then -1 else page + 1)
  }

  datatype Pagination = Pagination(page: int, limit: int, total: int)

  /** A select statement narrowed by LIMIT and OFFSET. */
  datatype Statement = Statement(limit: int, offset: int)

  function Paginate(p: Pagination): (Statement, int) {
    var offset := p.limit * (p.page - 1);
    var next := if p.limit * p.page >= p.total then -1 else p.page + 1;
    (Statement(p.limit, offset), next)
  }

  /** The rows that a statement selects. */
  function Select<Row>(rows: seq<Row>, s: Statement): seq<Row>
    requires s.limit >= 0 && s.offset >= 0
  {
    var from := if s.offset < |rows| then s.offset else |rows|;
    var to := if s.offset + s.limit < |rows| then s.offset + s.limit else |rows|;
    rows[from..to]
  }

  lemma SameWindow(total: int, limit: int, page: int)
    ensures var (s, next) := Paginate(Pagination(page, limit, total));
            CalculatePage(total, limit, page) == PageCalc(s.limit, s.offset, next)
  {
  }

  /** The windows from `page` on, following `next_page` until it is -1. */
  function Follow<Row>(rows: seq<Row>, total: int, limit: int, page: int): (windows: seq<seq<Row>>)
    requires limit > 0 && page > 0
    ensures windows != []
    decreases total - limit * (page - 1)
  {
    var (s, next) := Paginate(Pagination(page, limit, total));
    Offsets(limit, page);
    [Select(rows, s)] + if next == -1 then [] else Follow(rows, total, limit, next)
  }

  lemma Offsets(limit: int, page: int)
    requires limit > 0 && page > 0
    ensures limit * page == limit * (page - 1) + limit
    ensures limit * (page - 1) >= 0
  {
  }

  function Flat<Row>(parts: seq<seq<Row>>): seq<Row> {
    if parts == [] then [] else parts[0] + Flat(parts[1..])
  }

  function Clip(i: int, n: nat): (r: nat)
    ensures r <= n
  {
    if i < 0 then 0 else if i < n then i else n
  }

  /** The page that `next_page` leads to is the following one, and it is -1 on the last window only. */
  lemma {:induction false} EachWindow<Row>(rows: seq<Row>, total: int, limit: int, page: int, j: nat)
    requires limit > 0 && page > 0
    requires j < |Follow(rows, total, limit, page)|
    ensures var here := CalculatePage(total, limit, page + j);
            && here.offset >= 0
            && Follow(rows, total, limit, page)[j] == Select(rows, Statement(here.limit, here.offset))
            && (here.next == -1 <==> j == |Follow(rows, total, limit, page)| - 1)
    decreases j
  {
    Offsets(limit, page + j);
    if j > 0 {
      EachWindow(rows, total, limit, page + 1, j - 1);
    }
  }

  /** The number of windows is the least that reaches the total, and at least one. */
  lemma {:induction false} WindowCount<Row>(rows: seq<Row>, total: int, limit: int, page: int)
    requires limit > 0 && page > 0
    ensures var n := |Follow(rows, total, limit, page)|;
            && limit * (page - 1 + n) >= total
            && (n == 1 || limit * (page - 2 + n) < total)
    decreases total - limit * (page - 1)
  {
    Offsets(limit, page);
    if limit * page < total {
      WindowCount(rows, total, limit, page + 1);
    }
  }

  /** The windows are adjacent and cover what lies before the end of the last one. */
  lemma {:induction false} WindowsTile<Row>(rows: seq<Row>, total: int, limit: int, page: int)
    requires limit > 0 && page > 0
    ensures var from := limit * (page - 1);
            var n := |Follow(rows, total, limit, page)|;
            && 0 <= from <= from + limit * n
            && Flat(Follow(rows, total, limit, page)) == rows[Clip(from, |rows|)..Clip(from + limit * n, |rows|)]
    decreases total - limit * (page - 1)
  {
    hide Follow, Flat, Paginate, Clip;
    Offsets(limit, page);
    FollowStep(rows, total, limit, page);
    var start, end := limit * (page - 1), limit * page;
    if end < total {
      assert limit * (page + 1 - 1) == end;
      WindowsTile(rows, total, limit, page + 1);
      var n := |Follow(rows, total, limit, page + 1)|;
      Distributes(limit, n);
      Adjoin(rows, start, end, end + limit * n);
    }
  }

  lemma Adjoin<Row>(rows: seq<Row>, a: int, b: int, c: int)
    requires a <= b <= c
    ensures Clip(a, |rows|) <= Clip(b, |rows|) <= Clip(c, |rows|)
    ensures rows[Clip(a, |rows|)..Clip(b, |rows|)] + rows[Clip(b, |rows|)..Clip(c, |rows|)]
         == rows[Clip(a, |rows|)..Clip(c, |rows|)]
  {
  }

  lemma FollowStep<Row>(rows: seq<Row>, total: int, limit: int, page: int)
    requires limit > 0 && page > 0
    ensures var windows := Follow(rows, total, limit, page);
            var first := rows[Clip(limit * (page - 1), |rows|)..Clip(limit * page, |rows|)];
            if limit * page < total then
              var rest := Follow(rows, total, limit, page + 1);
              |windows| == 1 + |rest| && Flat(windows) == first + Flat(rest)
            else |windows| == 1 && Flat(windows) == first
  {
    Offsets(limit, page);
    var windows := Follow(rows, total, limit, page);
    if limit * page < total {
      assert windows[1..] == Follow(rows, total, limit, page + 1);
    } else {
      assert windows[1..] == [];
    }
  }

  lemma Distributes(limit: int, n: int)
    ensures limit * (n + 1) == limit * n + limit
  {
  }

  /**
    Following the pages from the first one visits every row once, in order, exactly when
    the last window reaches the end; it does if the total is not below the number of rows.
   */
  lemma PagesTile<Row>(rows: seq<Row>, total: int, limit: int)
    requires limit > 0
    ensures var windows := Follow(rows, total, limit, 1);
            && (Flat(windows) == rows <==> |rows| <= limit * |windows|)
            && (total >= |rows| ==> Flat(windows) == rows)
  {
    WindowsTile(rows, total, limit, 1);
    WindowCount(rows, total, limit, 1);
  }

  /** Some page is the last exactly when the limit is positive or there is nothing to page and nothing is asked for. */
  lemma EndsExactly(total: nat, limit: int)
    ensures (exists page | page > 0 :: CalculatePage(total, limit, page).next == -1) <==>
            limit > 0 || (limit == 0 && total == 0)
  {
    if limit > 0 {
      Reaches(total, limit);
      assert CalculatePage(total, limit, total + 1).next == -1;
    }
    if limit == 0 && total == 0 {
      assert CalculatePage(total, limit, 1).next == -1;
    }
    if page :| page > 0 && CalculatePage(total, limit, page).next == -1 && limit <= 0 {
      assert limit * page >= total;
    }
  }

  lemma Reaches(total: nat, limit: int)
    requires limit > 0
    ensures limit * (total + 1) >= total
  {
  }
}
