/** An optional value: a query that returns zero rows or one row. */
module Optional {
  datatype Option<+T> = None | Some(value: T)
}

/**
 The `casino` and `payment` tables of the listing backend, as values, and the
 plain queries its handlers run against them: lookup by key or by name,
 filtering (`WHERE`) and the two column updates.
 */
module Tables {
  import opened Optional

  /** The eight columns a client supplies when it creates or updates a casino. */
  datatype CasinoInfo = CasinoInfo(
    name: string,
    features: string,
    bonus: string,
    rate: int,          // casino_rate: the rank that orders the listing
    countryId: int,
    link: string,
    logoImg: string,
    paymentId: int)

  /** One row of the `casino` table; `id` is the serial key the database assigns. */
  datatype Casino = Casino(id: int, info: CasinoInfo)

  /** One row of the `payment` table, as the payments listing selects it. */
  datatype Payment = Payment(id: int, url: string, title: string)

  function Rate(c: Casino): int { c.info.rate }

  function PaymentId(p: Payment): int { p.id }

  /** `id` is the table's primary key: no two rows share one. */
  predicate UniqueIds(rows: seq<Casino>) {
    forall i, j :: 0 <= i < j < |rows| ==> rows[i].id != rows[j].id
  }

  predicate HasId(rows: seq<Casino>, id: int) {
    exists i :: 0 <= i < |rows| && rows[i].id == id
  }

  predicate NameTaken(rows: seq<Casino>, name: string) {
    exists i :: 0 <= i < |rows| && rows[i].info.name == name
  }

  /** `SELECT * FROM casino WHERE id = $1`, first row. */
  function FindById(rows: seq<Casino>, id: int): (r: Option<Casino>)
    ensures r.None? <==> !HasId(rows, id)
    ensures r.Some? ==> r.value in rows && r.value.id == id
  {
    if rows == [] then None
    else if rows[0].id == id then Some(rows[0])
    else
      var r := FindById(rows[1..], id);
      assert HasId(rows, id) ==> rows[0].id == id || HasId(rows[1..], id) by {
        if HasId(rows, id) {
          var i :| 0 <= i < |rows| && rows[i].id == id;
          if i > 0 { assert rows[1..][i - 1].id == id; }
        }
      }
      r
  }

  /** With unique keys the lookup finds exactly the row that carries the key. */
  lemma {:induction false} FindByIdUnique(rows: seq<Casino>, i: int)
    requires UniqueIds(rows)
    requires 0 <= i < |rows|
    ensures FindById(rows, rows[i].id) == Some(rows[i])
  {
    if i > 0 {
      assert rows[0].id != rows[i].id;
      assert rows[1..][i - 1] == rows[i];
      FindByIdUnique(rows[1..], i - 1);
    }
  }

  /** `SELECT * FROM casino WHERE casino_name = $1`, first row. */
  function FindByName(rows: seq<Casino>, name: string): (r: Option<Casino>)
    ensures r.None? <==> !NameTaken(rows, name)
    ensures r.Some? ==> r.value in rows && r.value.info.name == name
  {
    if rows == [] then None
    else if rows[0].info.name == name then Some(rows[0])
    else
      var r := FindByName(rows[1..], name);
      assert NameTaken(rows, name) ==> rows[0].info.name == name || NameTaken(rows[1..], name) by {
        if NameTaken(rows, name) {
          var i :| 0 <= i < |rows| && rows[i].info.name == name;
          if i > 0 { assert rows[1..][i - 1].info.name == name; }
        }
      }
      r
  }

  /** A `WHERE` clause: the rows that satisfy `p`, in table order, each as often as it occurs. */
  function Where<T(!new)>(s: seq<T>, p: T -> bool): (r: seq<T>)
    ensures forall x :: multiset(r)[x] == if p(x) then multiset(s)[x] else 0
    ensures forall i :: 0 <= i < |r| ==> p(r[i])
    ensures |r| <= |s|
  {
    if s == [] then []
    else
      var rest := Where(s[1..], p);
      assert s == [s[0]] + s[1..];
      if p(s[0]) then [s[0]] + rest else rest
  }

  /** A filter that keeps every row returns the table as it was. */
  lemma {:induction false} WhereAll<T(!new)>(s: seq<T>, p: T -> bool)
    requires forall i :: 0 <= i < |s| ==> p(s[i])
    ensures Where(s, p) == s
  {
    if s != [] {
      WhereAll(s[1..], p);
    }
  }

  /** `WHERE country_id = $1`. */
  function InCountry(rows: seq<Casino>, country: int): (r: seq<Casino>)
    ensures forall c :: multiset(r)[c] == if c.info.countryId == country then multiset(rows)[c] else 0
  {
    Where(rows, (c: Casino) => c.info.countryId == country)
  }

  /** `DELETE FROM casino WHERE id = $1`: the rows with another key, in table order. */
  function WithoutId(rows: seq<Casino>, id: int): (r: seq<Casino>)
    ensures forall c :: multiset(r)[c] == if c.id == id then 0 else multiset(rows)[c]
    ensures !HasId(rows, id) ==> r == rows
  {
    var keep := (c: Casino) => c.id != id;
    if HasId(rows, id) then Where(rows, keep)
    else
      WhereAll(rows, keep);
      Where(rows, keep)
  }

  /** Filtering rows keeps the keys unique. */
  lemma {:induction false} WhereKeepsUniqueIds(rows: seq<Casino>, p: Casino -> bool)
    requires UniqueIds(rows)
    ensures UniqueIds(Where(rows, p))
  {
    if rows != [] {
      var tail := rows[1..];
      assert UniqueIds(tail) by {
        forall i, j | 0 <= i < j < |tail| ensures tail[i].id != tail[j].id {
          assert tail[i] == rows[i + 1] && tail[j] == rows[j + 1];
        }
      }
      WhereKeepsUniqueIds(tail, p);
      var rest := Where(tail, p);
      forall k | 0 <= k < |rest| ensures rest[k].id != rows[0].id {
        assert multiset(rest)[rest[k]] > 0;
        var m :| 0 <= m < |tail| && tail[m] == rest[k];
        assert tail[m] == rows[m + 1];
      }
    }
  }

  /** `UPDATE casino SET casino_rate = $1 WHERE id = $2`. */
  function WithRate(rows: seq<Casino>, id: int, rate: int): (r: seq<Casino>)
    ensures |r| == |rows|
    ensures forall i :: 0 <= i < |rows| ==>
      r[i] == if rows[i].id == id then rows[i].(info := rows[i].info.(rate := rate)) else rows[i]
  {
    seq(|rows|, i requires 0 <= i < |rows| =>
      if rows[i].id == id then rows[i].(info := rows[i].info.(rate := rate)) else rows[i])
  }

  /** `UPDATE casino SET <all eight columns> WHERE id = $6`. */
  function WithInfo(rows: seq<Casino>, id: int, info: CasinoInfo): (r: seq<Casino>)
    ensures |r| == |rows|
    ensures forall i :: 0 <= i < |rows| ==> r[i] == if rows[i].id == id then Casino(id, info) else rows[i]
  {
    seq(|rows|, i requires 0 <= i < |rows| => if rows[i].id == id then Casino(id, info) else rows[i])
  }

  /**
   With unique keys the rate update reaches the one row with the key, keeps
   that row's key, and writing the old rate back restores the whole table.
   */
  lemma RateUpdateUndone(rows: seq<Casino>, i: int, rate: int)
    requires UniqueIds(rows) && 0 <= i < |rows|
    ensures
      var after := WithRate(rows, rows[i].id, rate);
      after[i].id == rows[i].id && after[i].info.rate == rate &&
      WithRate(after, rows[i].id, rows[i].info.rate) == rows
  {
    var id := rows[i].id;
    var after := WithRate(rows, id, rate);
    var back := WithRate(after, id, rows[i].info.rate);
    forall j | 0 <= j < |rows| ensures back[j] == rows[j] {
      if rows[j].id == id {
        assert j == i;
      }
    }
  }

  /**
   With unique keys the full update gives the row with the key the new columns
   and keeps its key, and writing the old columns back restores the whole table.
   */
  lemma InfoUpdateUndone(rows: seq<Casino>, i: int, info: CasinoInfo)
    requires UniqueIds(rows) && 0 <= i < |rows|
    ensures
      var after := WithInfo(rows, rows[i].id, info);
      after[i] == Casino(rows[i].id, info) &&
      WithInfo(after, rows[i].id, rows[i].info) == rows
  {
    var id := rows[i].id;
    var after := WithInfo(rows, id, info);
    var back := WithInfo(after, id, rows[i].info);
    forall j | 0 <= j < |rows| ensures back[j] == rows[j] {
      if rows[j].id == id {
        assert j == i;
      }
    }
  }

  /** With unique keys a row occurs exactly once in the table. */
  lemma {:induction false} UniqueRowOnce(rows: seq<Casino>, i: int)
    requires UniqueIds(rows)
    requires 0 <= i < |rows|
    ensures multiset(rows)[rows[i]] == 1
  {
    assert rows == [rows[0]] + rows[1..];
    if i == 0 {
      assert forall k :: 0 <= k < |rows[1..]| ==> rows[1..][k].id != rows[0].id;
    } else {
      assert rows[1..][i - 1] == rows[i];
      assert rows[0] != rows[i];
      UniqueRowOnce(rows[1..], i - 1);
    }
  }
}
