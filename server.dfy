/**
 The request handlers of the listing backend over one in-memory database:
 the `casino` table (updated in place by swap, create, update and delete),
 the read-only `payment` table, and the key sequence that numbers inserts.
 Each handler runs as one sequential step.
 */
module Server {
  import opened Optional
  import opened Tables
  import opened Paging
  import opened RankSwap
  import opened Crud

  /** The body of a 200 listing answer. */
  datatype Listing<T> = Listing(data: seq<T>, total: nat, currentPage: nat, totalPages: nat)

  /** The listings that answer 404 when the requested page is empty. */
  datatype ListResult<T> = Found(listing: Listing<T>) | NothingFound
  {
    function Code(): int { if Found? then 200 else 404 }
  }

  class Database {
    var casinos: seq<Casino>
    var payments: seq<Payment>
    var nextId: int

    /** Keys are unique, and the key sequence is past every key in use. */
    ghost predicate Valid()
      reads this
    {
      UniqueIds(casinos) && forall i :: 0 <= i < |casinos| ==> casinos[i].id < nextId
    }

    /** Opens the tables as they stand, with the key sequence at `nextId`. */
    constructor (casinos: seq<Casino>, payments: seq<Payment>, nextId: int)
      requires UniqueIds(casinos) && forall i :: 0 <= i < |casinos| ==> casinos[i].id < nextId
      ensures Valid()
      ensures this.casinos == casinos && this.payments == payments && this.nextId == nextId
    {
      this.casinos := casinos;
      this.payments := payments;
      this.nextId := nextId;
    }

    /** `UPDATE casino SET casino_rate = $1 WHERE id = $2`. */
    method UpdateRate(id: int, rate: int)
      requires Valid()
      modifies this`casinos
      ensures Valid()
      ensures casinos == WithRate(old(casinos), id, rate)
    {
      casinos := WithRate(casinos, id, rate);
    }

    /**
     `PUT /casinos/:id/swap`: look the casino up, find its neighbour, then write
     the neighbour's rate into the casino and the casino's old rate into the neighbour.
     */
    method Swap(id: int, increase: bool) returns (status: SwapStatus)
      requires Valid()
      modifies this`casinos
      ensures Valid()
      ensures (status, casinos) == SwapSpec(old(casinos), id, increase)
      ensures status.Code() == 404 <==> !HasId(old(casinos), id)
      ensures status.Code() == 400 <==>
        (HasId(old(casinos), id) &&
         forall i :: 0 <= i < |old(casinos)| ==> !IsCandidate(FindById(old(casinos), id).value, old(casinos)[i], increase))
    {
      var found := FindById(casinos, id);
      if found.None? {
        return CasinoNotFound;
      }
      var current := found.value;
      var currentRate := current.info.rate;
      var neighbour := FindNeighbour(casinos, current, increase);
      if neighbour.None? {
        return NoNeighbour;
      }
      var target := neighbour.value;
      UpdateRate(id, target.info.rate);
      UpdateRate(target.id, currentRate);
      status := Swapped;
    }

    /** `POST /casinos`: insert unless a casino of that name exists. */
    method Create(info: CasinoInfo) returns (r: CreateResult)
      requires Valid()
      modifies this`casinos, this`nextId
      ensures Valid()
      ensures (r, casinos) == CreateSpec(old(casinos), old(nextId), info)
      ensures nextId == if r.Created? then old(nextId) + 1 else old(nextId)
      ensures r.Code() == 200 <==> NameTaken(old(casinos), info.name)
    {
      var existing := FindByName(casinos, info.name);
      if existing.Some? {
        return AlreadyExists(existing.value.info.name);
      }
      var c := Casino(nextId, info);
      casinos := casinos + [c];
      nextId := nextId + 1;
      r := Created(c);
    }

    /** `PUT /casinos/:id`: replace all eight columns of the row with that key. */
    method Update(id: int, info: CasinoInfo) returns (r: Option<Casino>)
      requires Valid()
      modifies this`casinos
      ensures Valid()
      ensures (r, casinos) == UpdateSpec(old(casinos), id, info)
    {
      var before := casinos;
      casinos := WithInfo(casinos, id, info);
      r := FindById(casinos, id);
      if r.None? {
        assert casinos == before;
      }
    }

    /** `DELETE /casinos/:id`. */
    method Delete(id: int) returns (deleted: bool)
      requires Valid()
      modifies this`casinos
      ensures Valid()
      ensures (deleted, casinos) == DeleteSpec(old(casinos), id)
    {
      var before := casinos;
      deleted := HasId(casinos, id);
      casinos := WithoutId(casinos, id);
      if deleted {
        WhereKeepsUniqueIds(before, (c: Casino) => c.id != id);
      }
      forall k | 0 <= k < |casinos| ensures casinos[k].id < nextId {
        assert multiset(casinos)[casinos[k]] > 0;
        assert casinos[k] in before;
      }
    }

    /** `GET /casinos`: one page of the whole table by rate; answers 200 even when the page is empty. */
    method ListCasinos(q: PageQuery) returns (resp: Listing<Casino>)
      requires q.Limit() > 0 && q.Page() >= 1
      ensures resp.data == PageOf(casinos, Rate, OrderDirection(q.Sort()), q.Page(), q.Limit())
      ensures resp.total == |casinos| && resp.currentPage == q.Page()
      ensures resp.totalPages == TotalPages(|casinos|, q.Limit())
      ensures resp.data != [] <==> resp.currentPage <= resp.totalPages
    {
      var limit := q.Limit();
      var page := q.Page();
      var dir := OrderDirection(q.Sort());
      var offset := Offset(page, limit);
      var data := Slice(SortBy(casinos, Rate, dir), offset, limit);
      var total := |casinos|;
      resp := Listing(data, total, page, TotalPages(total, limit));
      PageNonEmptyIff(casinos, Rate, dir, page, limit);
    }

    /** `GET /casinos/country/:country_id`: one page of that country's casinos by rate, or 404. */
    method ListByCountry(country: int, q: PageQuery) returns (resp: ListResult<Casino>)
      requires q.Limit() > 0 && q.Page() >= 1
      ensures resp.Code() == 404 <==> q.Page() > TotalPages(|InCountry(casinos, country)|, q.Limit())
      ensures resp.Found? ==>
        var matching := InCountry(casinos, country);
        resp.listing == Listing(
          PageOf(matching, Rate, OrderDirection(q.Sort()), q.Page(), q.Limit()),
          |matching|, q.Page(), TotalPages(|matching|, q.Limit()))
    {
      var limit := q.Limit();
      var page := q.Page();
      var dir := OrderDirection(q.Sort());
      var offset := Offset(page, limit);
      var matching := InCountry(casinos, country);
      var data := Slice(SortBy(matching, Rate, dir), offset, limit);
      var total := |matching|;
      PageNonEmptyIff(matching, Rate, dir, page, limit);
      if |data| > 0 {
        resp := Found(Listing(data, total, page, TotalPages(total, limit)));
      } else {
        resp := NothingFound;
      }
    }

    /** `GET /payments`: one page of the payment table by id, or 404. */
    method ListPayments(q: PageQuery) returns (resp: ListResult<Payment>)
      requires q.Limit() > 0 && q.Page() >= 1
      ensures resp.Code() == 404 <==> q.Page() > TotalPages(|payments|, q.Limit())
      ensures resp.Found? ==>
        resp.listing == Listing(
          PageOf(payments, PaymentId, OrderDirection(q.Sort()), q.Page(), q.Limit()),
          |payments|, q.Page(), TotalPages(|payments|, q.Limit()))
    {
      var limit := q.Limit();
      var page := q.Page();
      var dir := OrderDirection(q.Sort());
      var offset := Offset(page, limit);
      var data := Slice(SortBy(payments, PaymentId, dir), offset, limit);
      var total := |payments|;
      PageNonEmptyIff(payments, PaymentId, dir, page, limit);
      if |data| > 0 {
        resp := Found(Listing(data, total, page, TotalPages(total, limit)));
      } else {
        resp := NothingFound;
      }
    }
  }
}
