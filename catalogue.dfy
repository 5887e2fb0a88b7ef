/**
 * The product catalogue as a value: the rows of the product table keyed by id, the next id
 * the store will assign, and the effect of each service operation on them. The store and
 * service classes are specified by these functions; the lemmas here state what holds over
 * any sequence of operations (soft delete is one-way, rows and ids are never lost or reused).
 */
module Catalogue {
  import opened Wrappers

  /** A row of the product table. `price` is kept as an integer amount. */
  datatype Product = Product(id: int, name: string, price: int, available: bool)

  /** The caller-facing failure of the service. */
  datatype ServiceError = NotFound(message: string)

  const ProductNotFound: string := "Product not found"

  /** The columns an update writes; an absent column keeps its value. */
  datatype Fields = Fields(name: Option<string>, price: Option<int>, available: Option<bool>)

  /** The client-settable part of an update request: `name` and `price`, both optional. */
  datatype ProductPatch = ProductPatch(name: Option<string>, price: Option<int>)

  /** The whole table and the id counter of the store. */
  datatype Table = Table(rows: map<int, Product>, nextId: int)

  /** What a mutating operation leaves behind and what it returns. */
  datatype Outcome = Outcome(table: Table, result: Result<Product, ServiceError>)

  /** Every row is stored under its own id, and ids are handed out from 1 upwards. */
  predicate Valid(t: Table) {
    t.nextId >= 1 &&
    forall id :: id in t.rows ==> 1 <= id < t.nextId && t.rows[id].id == id
  }

  /** The ids of the rows that reads can see. */
  function AvailableIds(rows: map<int, Product>): set<int> {
    set id | id in rows && rows[id].available
  }

  /** The available rows whose id is below `n`, in ascending id order. */
  function ListBelow(rows: map<int, Product>, n: int): seq<Product>
    decreases n
  {
    if n <= 1 then []
    else ListBelow(rows, n - 1) + (if n - 1 in rows && rows[n - 1].available then [rows[n - 1]] else [])
  }

  /** The available rows in the order a scan of the table returns them. */
  function Listing(t: Table): seq<Product> {
    ListBelow(t.rows, t.nextId)
  }

  /** A row with some of its columns overwritten. */
  function Write(p: Product, f: Fields): Product {
    p.(name := f.name.GetOr(p.name), price := f.price.GetOr(p.price), available := f.available.GetOr(p.available))
  }

  /** The not-found gate of `findOne`: the row under `id` if it is available. */
  function Find(t: Table, id: int): Result<Product, ServiceError> {
    if id in t.rows && t.rows[id].available then Success(t.rows[id]) else Failure(NotFound(ProductNotFound))
  }

  /** `create`: a new available row under the next id. */
  function Create(t: Table, name: string, price: int): Outcome {
    var p := Product(t.nextId, name, price, true);
    Outcome(Table(t.rows[p.id := p], t.nextId + 1), Success(p))
  }

  /** Overwrites the columns of an existing row, as the store's update does after the gate. */
  function Rewrite(t: Table, id: int, f: Fields): Outcome
    requires id in t.rows
  {
    var p := Write(t.rows[id], f);
    Outcome(t.(rows := t.rows[id := p]), Success(p))
  }

  /** `update`: the gate, then a write of `name` and `price` only. */
  function Update(t: Table, id: int, patch: ProductPatch): Outcome {
    match Find(t, id)
    case Failure(e) => Outcome(t, Failure(e))
    case Success(_) => Rewrite(t, id, Fields(patch.name, patch.price, None))
  }

  /** `remove`: the gate, then a soft delete that clears `available`. */
  function Remove(t: Table, id: int): Outcome {
    match Find(t, id)
    case Failure(e) => Outcome(t, Failure(e))
    case Success(_) => Rewrite(t, id, Fields(None, None, Some(false)))
  }

  /** The operations that change the catalogue. */
  datatype Command =
    | CreateCmd(name: string, price: int)
    | UpdateCmd(id: int, patch: ProductPatch)
    | RemoveCmd(id: int)

  function Apply(t: Table, c: Command): Table {
    match c
    case CreateCmd(name, price) => Create(t, name, price).table
    case UpdateCmd(id, patch) => Update(t, id, patch).table
    case RemoveCmd(id) => Remove(t, id).table
  }

  /** The table after the commands, applied in order. */
  function Run(t: Table, cs: seq<Command>): Table
    decreases |cs|
  {
    if cs == [] then t else Run(Apply(t, cs[0]), cs[1..])
  }

  // ---------------------------------------------------------------------------------------
  // Listing

  /** The available ids in `[1, n)`. */
  function AvailableBelow(rows: map<int, Product>, n: int): set<int> {
    set id | id in rows && 1 <= id < n && rows[id].available
  }

  /** A scan below `n` holds the available rows with id in `[1, n)`, and nothing else. */
  lemma {:induction false} ListBelowMembers(rows: map<int, Product>, n: int)
    requires forall id :: id in rows ==> rows[id].id == id
    ensures forall p :: p in ListBelow(rows, n) ==> p.id in AvailableBelow(rows, n) && rows[p.id] == p
    ensures forall id :: id in AvailableBelow(rows, n) ==> rows[id] in ListBelow(rows, n)
    decreases n
  {
    if n > 1 {
      ListBelowMembers(rows, n - 1);
      assert forall id :: id in AvailableBelow(rows, n) ==> id in AvailableBelow(rows, n - 1) || id == n - 1;
    }
  }

  /** A scan below `n` is in strictly ascending id order, and each id is below `n`. */
  lemma {:induction false} ListBelowAscending(rows: map<int, Product>, n: int)
    requires forall id :: id in rows ==> rows[id].id == id
    ensures forall i :: 0 <= i < |ListBelow(rows, n)| ==> ListBelow(rows, n)[i].id < n
    ensures forall i, j :: 0 <= i < j < |ListBelow(rows, n)| ==> ListBelow(rows, n)[i].id < ListBelow(rows, n)[j].id
    decreases n
  {
    if n > 1 {
      ListBelowAscending(rows, n - 1);
    }
  }

  /** A scan below `n` has one entry per available id in `[1, n)`. */
  lemma {:induction false} ListBelowLength(rows: map<int, Product>, n: int)
    ensures |ListBelow(rows, n)| == |AvailableBelow(rows, n)|
    decreases n
  {
    if n <= 1 {
      assert AvailableBelow(rows, n) == {};
    } else {
      ListBelowLength(rows, n - 1);
      if n - 1 in rows && rows[n - 1].available {
        assert AvailableBelow(rows, n) == AvailableBelow(rows, n - 1) + {n - 1};
      } else {
        assert AvailableBelow(rows, n) == AvailableBelow(rows, n - 1);
      }
    }
  }

  /**
   * The listing of a valid table holds every available row once, and nothing else, in
   * ascending id order; its length is the number of available rows.
   */
  lemma ListingIsAvailableRows(t: Table)
    requires Valid(t)
    ensures |Listing(t)| == |AvailableIds(t.rows)|
    ensures forall p :: p in Listing(t) ==> p.available && p.id in t.rows && t.rows[p.id] == p
    ensures forall id :: id in AvailableIds(t.rows) ==> t.rows[id] in Listing(t)
    ensures forall i, j :: 0 <= i < j < |Listing(t)| ==> Listing(t)[i].id < Listing(t)[j].id
  {
    assert AvailableBelow(t.rows, t.nextId) == AvailableIds(t.rows);
    ListBelowMembers(t.rows, t.nextId);
    ListBelowAscending(t.rows, t.nextId);
    ListBelowLength(t.rows, t.nextId);
  }

  // ---------------------------------------------------------------------------------------
  // One operation

  /** `create` keeps the table valid, adds exactly one row under a fresh id, and that row is found. */
  lemma CreateAddsOneRow(t: Table, name: string, price: int)
    requires Valid(t)
    ensures var o := Create(t, name, price);
      Valid(o.table) && o.result.Success? &&
      o.result.value.id !in t.rows &&
      o.table.rows == t.rows[o.result.value.id := o.result.value] &&
      o.result.value == Product(o.result.value.id, name, price, true) &&
      Find(o.table, o.result.value.id) == o.result
  {
  }

  /**
   * `update` fails with NotFound and changes nothing unless the row is available; otherwise
   * it changes only that row's `name` and `price` (each only when given) and returns it.
   */
  lemma UpdateWritesOnlyNameAndPrice(t: Table, id: int, patch: ProductPatch)
    requires Valid(t)
    ensures var o := Update(t, id, patch);
      Valid(o.table) &&
      (o.result.Failure? <==> Find(t, id).Failure?) &&
      (o.result.Failure? ==> o.table == t && o.result.error == NotFound(ProductNotFound)) &&
      (o.result.Success? ==>
        o.table.nextId == t.nextId &&
        o.table.rows == t.rows[id := o.result.value] &&
        o.result.value == t.rows[id].(name := patch.name.GetOr(t.rows[id].name),
                                      price := patch.price.GetOr(t.rows[id].price)) &&
        o.result.value.id == id && o.result.value.available)
  {
  }

  /**
   * `remove` fails with NotFound and changes nothing unless the row is available; otherwise
   * it keeps the row, clears only its `available` flag, and returns the row so changed.
   */
  lemma RemoveIsSoftDelete(t: Table, id: int)
    requires Valid(t)
    ensures var o := Remove(t, id);
      Valid(o.table) &&
      (o.result.Failure? <==> Find(t, id).Failure?) &&
      (o.result.Failure? ==> o.table == t && o.result.error == NotFound(ProductNotFound)) &&
      (o.result.Success? ==>
        o.table.nextId == t.nextId &&
        o.table.rows == t.rows[id := t.rows[id].(available := false)] &&
        o.result.value == t.rows[id].(available := false))
  {
  }

  /** Every command keeps the table valid. */
  lemma ApplyKeepsValid(t: Table, c: Command)
    requires Valid(t)
    ensures Valid(Apply(t, c))
  {
    match c
    case CreateCmd(name, price) => CreateAddsOneRow(t, name, price);
    case UpdateCmd(id, patch) => UpdateWritesOnlyNameAndPrice(t, id, patch);
    case RemoveCmd(id) => RemoveIsSoftDelete(t, id);
  }

  // ---------------------------------------------------------------------------------------
  // Any sequence of operations

  /**
   * No row ever disappears or changes id, and the id counter never goes back, so an id once
   * handed out is never handed out again.
   */
  lemma {:induction false} RowsAreNeverLost(t: Table, cs: seq<Command>)
    requires Valid(t)
    ensures Valid(Run(t, cs))
    ensures t.nextId <= Run(t, cs).nextId
    ensures forall id :: id in t.rows ==> id in Run(t, cs).rows && Run(t, cs).rows[id].id == id
    decreases |cs|
  {
    if cs != [] {
      ApplyKeepsValid(t, cs[0]);
      RowsAreNeverLost(Apply(t, cs[0]), cs[1..]);
    }
  }

  /** Once a row is unavailable, every command leaves it present and unavailable. */
  lemma {:induction false} SoftDeleteIsOneWay(t: Table, cs: seq<Command>, id: int)
    requires Valid(t)
    requires id in t.rows && !t.rows[id].available
    ensures id in Run(t, cs).rows && !Run(t, cs).rows[id].available
    decreases |cs|
  {
    if cs != [] {
      var next := Apply(t, cs[0]);
      ApplyKeepsValid(t, cs[0]);
      match cs[0] {
        case CreateCmd(name, price) => assert next.rows[id] == t.rows[id];
        case UpdateCmd(k, patch) => assert next.rows[id].available == t.rows[id].available;
        case RemoveCmd(k) => assert !next.rows[id].available;
      }
      SoftDeleteIsOneWay(next, cs[1..], id);
    }
  }

  /**
   * Removal is permanent: after a successful `remove(id)` and any later commands, `findOne(id)`,
   * `update(id, ...)` and `remove(id)` all fail with NotFound and change nothing.
   */
  lemma RemovalIsPermanent(t: Table, id: int, cs: seq<Command>)
    requires Valid(t)
    requires Remove(t, id).result.Success?
    ensures var u := Run(Remove(t, id).table, cs);
      Find(u, id) == Failure(NotFound(ProductNotFound)) &&
      Remove(u, id) == Outcome(u, Failure(NotFound(ProductNotFound))) &&
      forall patch :: Update(u, id, patch) == Outcome(u, Failure(NotFound(ProductNotFound)))
  {
    RemoveIsSoftDelete(t, id);
    SoftDeleteIsOneWay(Remove(t, id).table, cs, id);
  }
}
