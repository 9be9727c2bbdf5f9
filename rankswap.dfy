/**
 The rank swap of `PUT /casinos/:id/swap`: a casino trades its `casino_rate`
 with its nearest neighbour of the same country in the requested direction.
 `SwapSpec` gives the outcome and the new table as a function of the old one;
 the handler itself, with its two sequential updates, is `Server.Database.Swap`.
 */
module RankSwap {
  import opened Optional
  import opened Tables
  import opened Paging

  /** The three answers of the handler: 200, 404 and 400. */
  datatype SwapStatus = Swapped | CasinoNotFound | NoNeighbour
  {
    function Code(): int {
      match this
      case Swapped => 200
      case CasinoNotFound => 404
      case NoNeighbour => 400
    }
  }

  /** `increase` scans upwards (`ORDER BY casino_rate ASC`), otherwise downwards (`DESC`). */
  function ScanOrder(increase: bool): Direction {
    if increase then Asc else Desc
  }

  /** The neighbour query's `WHERE`: same country, another id, rate at or beyond the target's. */
  predicate IsCandidate(t: Casino, c: Casino, increase: bool) {
    c.info.countryId == t.info.countryId && c.id != t.id &&
    InOrder(ScanOrder(increase), t.info.rate, c.info.rate)
  }

  /** `n` is a candidate and no candidate of the table lies strictly between `t` and `n`. */
  ghost predicate IsNearest(rows: seq<Casino>, t: Casino, increase: bool, n: Casino) {
    n in rows && IsCandidate(t, n, increase) &&
    forall i :: 0 <= i < |rows| && IsCandidate(t, rows[i], increase) ==>
      InOrder(ScanOrder(increase), n.info.rate, rows[i].info.rate)
  }

  /**
   The neighbour query, `ORDER BY casino_rate ASC|DESC LIMIT 1` over the
   candidates: the first candidate in scan order. Which of several equally
   near candidates it returns is not promised; this scan keeps the earliest in
   table order.
   */
  function FindNeighbour(rows: seq<Casino>, t: Casino, increase: bool): (r: Option<Casino>)
    ensures r.Some? ==> IsNearest(rows, t, increase, r.value)
    ensures r.None? <==> forall i :: 0 <= i < |rows| ==> !IsCandidate(t, rows[i], increase)
  {
    if rows == [] then None
    else
      var rest := FindNeighbour(rows[1..], t, increase);
      assert forall i :: 1 <= i < |rows| ==> rows[i] == rows[1..][i - 1];
      if !IsCandidate(t, rows[0], increase) then rest
      else if rest.Some? && !InOrder(ScanOrder(increase), rows[0].info.rate, rest.value.info.rate) then rest
      else Some(rows[0])
  }

  /** The two updates: the target takes the neighbour's rate, then the neighbour the target's old one. */
  function Exchange(rows: seq<Casino>, t: Casino, n: Casino): seq<Casino> {
    WithRate(WithRate(rows, t.id, n.info.rate), n.id, t.info.rate)
  }

  /** The row `c` with its rate replaced. */
  function Rerated(c: Casino, rate: int): Casino {
    c.(info := c.info.(rate := rate))
  }

  /** The handler's outcome and the table it leaves. */
  function SwapSpec(rows: seq<Casino>, id: int, increase: bool): (r: (SwapStatus, seq<Casino>))
    ensures r.0 == CasinoNotFound <==> !HasId(rows, id)
    ensures r.0 == NoNeighbour <==>
      HasId(rows, id) &&
      forall i :: 0 <= i < |rows| ==> !IsCandidate(FindById(rows, id).value, rows[i], increase)
    ensures r.0 != Swapped ==> r.1 == rows
  {
    match FindById(rows, id)
    case None => (CasinoNotFound, rows)
    case Some(t) =>
      match FindNeighbour(rows, t, increase)
      case None => (NoNeighbour, rows)
      case Some(n) => (Swapped, Exchange(rows, t, n))
  }

  /**
   A successful swap trades the rates of the target and of its nearest
   neighbour; every other row, and every other column of these two, stays.
   */
  lemma SwapExchanges(rows: seq<Casino>, id: int, increase: bool)
    requires SwapSpec(rows, id, increase).0 == Swapped
    ensures
      var t := FindById(rows, id).value;
      var n := FindNeighbour(rows, t, increase).value;
      var after := SwapSpec(rows, id, increase).1;
      t.id == id && IsNearest(rows, t, increase, n) && |after| == |rows| &&
      forall i :: 0 <= i < |rows| ==>
        after[i] == if rows[i].id == id then Rerated(rows[i], n.info.rate)
                    else if rows[i].id == n.id then Rerated(rows[i], t.info.rate)
                    else rows[i]
  {
  }

  function Rates(rows: seq<Casino>): (r: seq<int>)
    ensures |r| == |rows| && forall i :: 0 <= i < |rows| ==> r[i] == rows[i].info.rate
  {
    seq(|rows|, i requires 0 <= i < |rows| => rows[i].info.rate)
  }

  function Ids(rows: seq<Casino>): (r: seq<int>)
    ensures |r| == |rows| && forall i :: 0 <= i < |rows| ==> r[i] == rows[i].id
  {
    seq(|rows|, i requires 0 <= i < |rows| => rows[i].id)
  }

  /** The table after a successful swap, described by the positions of the target and of the neighbour. */
  ghost predicate TradedAt(rows: seq<Casino>, after: seq<Casino>, a: int, b: int)
    requires 0 <= a < |rows| && 0 <= b < |rows|
  {
    |after| == |rows| &&
    forall i :: 0 <= i < |rows| ==>
      after[i] == if i == a then Rerated(rows[a], rows[b].info.rate)
                  else if i == b then Rerated(rows[b], rows[a].info.rate)
                  else rows[i]
  }

  /** With unique keys a successful swap touches exactly two positions: the target's and the neighbour's. */
  lemma SwappedPositions(rows: seq<Casino>, id: int, increase: bool) returns (a: int, b: int)
    requires UniqueIds(rows)
    requires SwapSpec(rows, id, increase).0 == Swapped
    ensures 0 <= a < |rows| && 0 <= b < |rows| && a != b
    ensures rows[a] == FindById(rows, id).value && rows[a].id == id
    ensures rows[b] == FindNeighbour(rows, rows[a], increase).value
    ensures IsNearest(rows, rows[a], increase, rows[b])
    ensures TradedAt(rows, SwapSpec(rows, id, increase).1, a, b)
  {
    SwapExchanges(rows, id, increase);
    var after := SwapSpec(rows, id, increase).1;
    var t := FindById(rows, id).value;
    var n := FindNeighbour(rows, t, increase).value;
    a :| 0 <= a < |rows| && rows[a] == t;
    b :| 0 <= b < |rows| && rows[b] == n;
    forall i | 0 <= i < |rows|
      ensures after[i] == if i == a then Rerated(rows[a], rows[b].info.rate)
                          else if i == b then Rerated(rows[b], rows[a].info.rate)
                          else rows[i]
    {
      if i != a && i != b {
        assert rows[i].id != t.id && rows[i].id != n.id;
      }
    }
  }

  /** Trading the rates of rows `a` and `b` keeps the keys and the multiset of rates. */
  lemma TradeKeepsRates(rows: seq<Casino>, after: seq<Casino>, a: int, b: int)
    requires 0 <= a < |rows| && 0 <= b < |rows|
    requires TradedAt(rows, after, a, b)
    ensures Ids(after) == Ids(rows)
    ensures multiset(Rates(after)) == multiset(Rates(rows))
  {
    var rates := Rates(rows);
    var u := rates[a := rates[b]];
    assert Rates(after) == u[b := rates[a]];
    assert multiset(u) == multiset(rates) - multiset{rates[a]} + multiset{rates[b]};
  }

  /** A swap moves no row and no key, and the table keeps the same multiset of rates. */
  lemma SwapPreservesRates(rows: seq<Casino>, id: int, increase: bool)
    requires UniqueIds(rows)
    ensures Ids(SwapSpec(rows, id, increase).1) == Ids(rows)
    ensures multiset(Rates(SwapSpec(rows, id, increase).1)) == multiset(Rates(rows))
  {
    if SwapSpec(rows, id, increase).0 == Swapped {
      var a, b := SwappedPositions(rows, id, increase);
      TradeKeepsRates(rows, SwapSpec(rows, id, increase).1, a, b);
    }
  }

  /** No two rows of `country` share a rate. */
  ghost predicate DistinctRatesIn(rows: seq<Casino>, country: int) {
    forall i, j ::
      0 <= i < |rows| && 0 <= j < |rows| && i != j &&
      rows[i].info.countryId == country && rows[j].info.countryId == country ==>
      rows[i].info.rate != rows[j].info.rate
  }

  /**
   After the trade, no row but the old neighbour is a candidate for the way
   back at least as near as the old neighbour: a nearer one would have lain
   strictly between the target and the neighbour before the swap.
   */
  lemma OnlyOldNeighbourIsNearer(rows: seq<Casino>, rows1: seq<Casino>, a: int, b: int, k: int, increase: bool)
    requires 0 <= a < |rows| && 0 <= b < |rows| && 0 <= k < |rows| && a != b
    requires IsNearest(rows, rows[a], increase, rows[b])
    requires DistinctRatesIn(rows, rows[a].info.countryId)
    requires TradedAt(rows, rows1, a, b)
    requires IsCandidate(rows1[a], rows1[k], !increase)
    requires InOrder(ScanOrder(!increase), rows1[k].info.rate, rows1[b].info.rate)
    ensures k == b
  {
    if k != b {
      assert k != a;
      assert rows1[k] == rows[k];
      assert IsCandidate(rows[a], rows[k], increase);
    }
  }

  /**
   Where the country's rates are distinct, a swap in one direction followed by
   a swap of the same casino in the other direction restores the table.
   */
  lemma {:induction false} SwapRoundTrip(rows: seq<Casino>, id: int, increase: bool)
    requires UniqueIds(rows)
    requires HasId(rows, id)
    requires DistinctRatesIn(rows, FindById(rows, id).value.info.countryId)
    requires SwapSpec(rows, id, increase).0 == Swapped
    ensures SwapSpec(SwapSpec(rows, id, increase).1, id, !increase) == (Swapped, rows)
  {
    var a, b := SwappedPositions(rows, id, increase);
    var rows1 := SwapSpec(rows, id, increase).1;
    TradeKeepsRates(rows, rows1, a, b);
    IdsDetermineUniqueness(rows, rows1);
    FindByIdUnique(rows1, a);
    assert IsCandidate(rows1[a], rows1[b], !increase);
    var m := FindNeighbour(rows1, rows1[a], !increase);
    assert m.Some?;
    var back := m.value;
    assert back in rows1;
    var k :| 0 <= k < |rows1| && rows1[k] == back;
    OnlyOldNeighbourIsNearer(rows, rows1, a, b, k, increase);
    var a2, b2 := SwappedPositions(rows1, id, !increase);
    assert a2 == a && b2 == b;
    TradeTwiceRestores(rows, rows1, SwapSpec(rows1, id, !increase).1, a, b);
  }

  lemma IdsDetermineUniqueness(rows: seq<Casino>, rows1: seq<Casino>)
    requires UniqueIds(rows) && Ids(rows1) == Ids(rows)
    ensures UniqueIds(rows1)
  {
    forall i, j | 0 <= i < j < |rows1| ensures rows1[i].id != rows1[j].id {
      assert Ids(rows1)[i] == Ids(rows)[i] && Ids(rows1)[j] == Ids(rows)[j];
    }
  }

  /** Trading the same two rates twice restores the table. */
  lemma TradeTwiceRestores(rows: seq<Casino>, rows1: seq<Casino>, rows2: seq<Casino>, a: int, b: int)
    requires 0 <= a < |rows| && 0 <= b < |rows| && a != b
    requires TradedAt(rows, rows1, a, b) && TradedAt(rows1, rows2, a, b)
    ensures rows2 == rows
  {
    forall i | 0 <= i < |rows| ensures rows2[i] == rows[i] {}
  }

  /** A casino that already has the extreme rate of its country in the requested direction cannot move. */
  lemma AtEdgeCannotMove(rows: seq<Casino>, i: int, increase: bool)
    requires UniqueIds(rows)
    requires 0 <= i < |rows|
    requires forall j :: 0 <= j < |rows| && j != i && rows[j].info.countryId == rows[i].info.countryId ==>
      if increase then rows[j].info.rate < rows[i].info.rate else rows[j].info.rate > rows[i].info.rate
    ensures SwapSpec(rows, rows[i].id, increase) == (NoNeighbour, rows)
  {
    FindByIdUnique(rows, i);
    forall j | 0 <= j < |rows| ensures !IsCandidate(rows[i], rows[j], increase) {
      if j == i { assert rows[j].id == rows[i].id; }
    }
  }

  /**
   When the nearest neighbour has the same rate as the target, the two writes
   store the rates that are already there: the swap answers 200 and the table
   is the same. Pressing the same direction again then picks a neighbour of
   that rate again, so with duplicate rates a casino can stay in place.
   */
  lemma TiedSwapChangesNothing(rows: seq<Casino>, id: int, increase: bool)
    requires UniqueIds(rows)
    requires SwapSpec(rows, id, increase).0 == Swapped
    requires FindNeighbour(rows, FindById(rows, id).value, increase).value.info.rate == FindById(rows, id).value.info.rate
    ensures SwapSpec(rows, id, increase).1 == rows
  {
    var a, b := SwappedPositions(rows, id, increase);
    assert SwapSpec(rows, id, increase).1 == rows;
  }

  /**
   Two casinos A (rate 5) and B (rate 8) in country 1, and C (rate 6) in
   country 2: raising A trades its rate with B; C, though between them, is untouched.
   */
  lemma RaiseExample(info: CasinoInfo)
    ensures
      var a := Casino(1, info.(rate := 5, countryId := 1));
      var b := Casino(2, info.(rate := 8, countryId := 1));
      var c := Casino(3, info.(rate := 6, countryId := 2));
      SwapSpec([a, b, c], 1, true).0 == Swapped
    ensures
      var a := Casino(1, info.(rate := 5, countryId := 1));
      var b := Casino(2, info.(rate := 8, countryId := 1));
      var c := Casino(3, info.(rate := 6, countryId := 2));
      SwapSpec([a, b, c], 1, true).1 == [Rerated(a, 8), Rerated(b, 5), c]
  {
    var a := Casino(1, info.(rate := 5, countryId := 1));
    var b := Casino(2, info.(rate := 8, countryId := 1));
    var c := Casino(3, info.(rate := 6, countryId := 2));
    var rows := [a, b, c];
    FindByIdUnique(rows, 0);
    assert IsCandidate(a, rows[1], true);
    var i, j := SwappedPositions(rows, 1, true);
    assert i == 0;
    assert j == 1;
    var after := SwapSpec(rows, 1, true).1;
    assert after[0] == Rerated(a, 8) && after[1] == Rerated(b, 5) && after[2] == c;
    assert after == [Rerated(a, 8), Rerated(b, 5), c];
  }
}
