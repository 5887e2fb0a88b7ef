/**
 * An in-memory product store standing in for the database client: one table of product rows
 * keyed by id and an auto-increment counter. It offers the five calls the service makes —
 * count and scan of the available rows, point lookup of an available row, insert and
 * update — and every call is specified by the catalogue functions.
 */
module ProductStore {
  import opened Wrappers
  import opened Catalogue
  import Pagination

  class Store {
    var rows: map<int, Product>
    var nextId: int

    /** The table as a value. */
    function Snapshot(): Table
      reads this
    {
      Table(rows, nextId)
    }

    predicate Valid()
      reads this
    {
      Catalogue.Valid(Snapshot())
    }

    /** An empty table whose first id will be 1. */
    constructor ()
      ensures Valid() && rows == map[] && nextId == 1
    {
      rows := map[];
      nextId := 1;
    }

    /** The number of available rows, which is also the length of a full scan. */
    method Count() returns (n: nat)
      requires Valid()
      ensures n == |AvailableIds(rows)|
      ensures n == |Listing(Snapshot())|
    {
      n := |AvailableIds(rows)|;
      ListingIsAvailableRows(Snapshot());
    }

    /** At most `take` available rows, in id order, after skipping the first `skip` of them. */
    method FindMany(skip: int, take: int) returns (data: seq<Product>)
      requires Valid()
      requires skip >= 0 && take >= 0
      ensures data == Pagination.Window(Listing(Snapshot()), skip, take)
      ensures |data| <= take
      ensures forall p :: p in data ==> p.available && p.id in rows && rows[p.id] == p
    {
      data := Pagination.Window(Listing(Snapshot()), skip, take);
      Pagination.WindowBounds(Listing(Snapshot()), skip, take);
      ListingIsAvailableRows(Snapshot());
    }

    /** The row under `id` when it exists and is available; nothing otherwise. */
    method FindUnique(id: int) returns (r: Option<Product>)
      ensures r.Some? <==> id in rows && rows[id].available
      ensures r.Some? ==> r.value == rows[id]
    {
      if id in rows && rows[id].available {
        r := Some(rows[id]);
      } else {
        r := None;
      }
    }

    /** Adds an available row under the next id and returns it. */
    method Insert(name: string, price: int) returns (p: Product)
      requires Valid()
      modifies this
      ensures Valid()
      ensures Catalogue.Create(old(Snapshot()), name, price) == Outcome(Snapshot(), Success(p))
    {
      p := Product(nextId, name, price, true);
      rows := rows[p.id := p];
      nextId := nextId + 1;
    }

    /**
     * Overwrites the given columns of the row under `id` and returns the new row; fails and
     * changes nothing when there is no such row.
     */
    method Update(id: int, f: Fields) returns (r: Option<Product>)
      requires Valid()
      modifies this
      ensures Valid()
      ensures nextId == old(nextId)
      ensures r.None? <==> id !in old(rows)
      ensures r.None? ==> rows == old(rows)
      ensures r.Some? ==> r.value == Write(old(rows)[id], f) && rows == old(rows)[id := r.value]
    {
      if id in rows {
        r := Some(Write(rows[id], f));
        rows := rows[id := r.value];
      } else {
        r := None;
      }
    }
  }
}
