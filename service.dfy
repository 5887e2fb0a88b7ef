/**
 * The product service: create, paginated list, find by id, update and soft delete over the
 * product store. `findOne` is the not-found gate that `update` and `remove` pass through
 * before they write; every read sees only available rows.
 */
module ProductsService {
  import opened Wrappers
  import opened Catalogue
  import opened Pagination
  import opened ProductStore

  /** The pagination metadata returned beside a page of rows. */
  datatype Meta = Meta(page: int, limit: int, total: nat, lastPage: nat)

  /** The answer of `findAll`. */
  datatype PageOfProducts = PageOfProducts(data: seq<Product>, meta: Meta)

  class ProductsService {
    const store: Store

    constructor (store: Store)
      ensures this.store == store
    {
      this.store := store;
    }

    /** Inserts an available product with the given name and price and returns it. */
    method Create(name: string, price: int) returns (p: Product)
      requires store.Valid()
      modifies store
      ensures store.Valid()
      ensures Catalogue.Create(old(store.Snapshot()), name, price) == Outcome(store.Snapshot(), Success(p))
      ensures p.name == name && p.price == price && p.available
      ensures p.id !in old(store.rows) && store.rows == old(store.rows)[p.id := p]
    {
      p := store.Insert(name, price);
    }

    /**
     * One page of the available products: `total` is their number, `lastPage` is
     * `ceil(total / limit)`, and the data are at most `limit` of them, taken in id order from
     * row `skip` on; there are none exactly when `skip >= total`.
     */
    method FindAll(request: Page) returns (r: PageOfProducts)
      requires store.Valid() && request.Valid()
      ensures r.meta.page == request.page && r.meta.limit == request.limit
      ensures r.meta.total == |AvailableIds(store.rows)|
      ensures r.meta.total == 0 ==> r.meta.lastPage == 0
      ensures r.meta.lastPage * request.limit >= r.meta.total
      ensures r.meta.lastPage == 0 || (r.meta.lastPage - 1) * request.limit < r.meta.total
      ensures r.data == Window(Listing(store.Snapshot()), Skip(request), request.limit)
      ensures |r.data| <= request.limit
      ensures forall p :: p in r.data ==> p.available && p.id in store.rows && store.rows[p.id] == p
      ensures r.data == [] <==> Skip(request) >= r.meta.total
    {
      var total := store.Count();
      var lastPage := LastPage(total, request.limit);
      SkipProperties(request);
      var data := store.FindMany(Skip(request), request.limit);
      WindowBounds(Listing(store.Snapshot()), Skip(request), request.limit);
      r := PageOfProducts(data, Meta(request.page, request.limit, total, lastPage));
    }

    /** The product under `id` if it is available; NotFound "Product not found" otherwise. */
    method FindOne(id: int) returns (r: Result<Product, ServiceError>)
      ensures r == Find(store.Snapshot(), id)
      ensures r.Success? <==> id in store.rows && store.rows[id].available
      ensures r.Success? ==> r.value == store.rows[id]
      ensures r.Failure? ==> r.error == NotFound(ProductNotFound)
    {
      var found := store.FindUnique(id);
      if found.None? {
        return Failure(NotFound(ProductNotFound));
      }
      r := Success(found.value);
    }

    /**
     * Passes the gate, then writes the given `name` and `price` of that product and nothing
     * else; a missing or removed product gives NotFound and no change.
     */
    method Update(id: int, patch: ProductPatch) returns (r: Result<Product, ServiceError>)
      requires store.Valid()
      modifies store
      ensures store.Valid()
      ensures Catalogue.Update(old(store.Snapshot()), id, patch) == Outcome(store.Snapshot(), r)
      ensures r.Failure? <==> !(id in old(store.rows) && old(store.rows)[id].available)
      ensures r.Failure? ==> r.error == NotFound(ProductNotFound) && store.Snapshot() == old(store.Snapshot())
      ensures r.Success? ==>
        r.value == old(store.rows)[id].(name := patch.name.GetOr(old(store.rows)[id].name),
                                        price := patch.price.GetOr(old(store.rows)[id].price)) &&
        store.rows == old(store.rows)[id := r.value] && store.nextId == old(store.nextId)
    {
      var found := FindOne(id);
      if found.Failure? {
        return Failure(found.error);
      }
      var written := store.Update(id, Fields(patch.name, patch.price, None));
      r := Success(written.value);
    }

    /**
     * Passes the gate, then soft-deletes the product: the row stays, only `available`
     * becomes false, and the row so changed is returned; a missing or already removed
     * product gives NotFound and no change.
     */
    method Remove(id: int) returns (r: Result<Product, ServiceError>)
      requires store.Valid()
      modifies store
      ensures store.Valid()
      ensures Catalogue.Remove(old(store.Snapshot()), id) == Outcome(store.Snapshot(), r)
      ensures r.Failure? <==> !(id in old(store.rows) && old(store.rows)[id].available)
      ensures r.Failure? ==> r.error == NotFound(ProductNotFound) && store.Snapshot() == old(store.Snapshot())
      ensures r.Success? ==>
        r.value == old(store.rows)[id].(available := false) &&
        store.rows == old(store.rows)[id := r.value] && store.nextId == old(store.nextId)
    {
      var found := FindOne(id);
      if found.Failure? {
        return Failure(found.error);
      }
      var written := store.Update(id, Fields(None, None, Some(false)));
      r := Success(written.value);
    }
  }

  /**
   * Three products created, the third removed: the first page of ten lists products 1 and 2,
   * `total` is 2, `lastPage` is 1, and product 3 is not found.
   */
  lemma ThreeProductsOneRemoved(a: string, b: string, c: string)
    ensures var t := Run(Table(map[], 1), [CreateCmd(a, 10), CreateCmd(b, 20), CreateCmd(c, 30), RemoveCmd(3)]);
      Window(Listing(t), Skip(Page(1, 10)), 10) == [Product(1, a, 10, true), Product(2, b, 20, true)] &&
      |AvailableIds(t.rows)| == 2 && LastPage(|AvailableIds(t.rows)|, 10) == 1 &&
      Find(t, 3) == Failure(NotFound(ProductNotFound))
  {
    var cs := [CreateCmd(a, 10), CreateCmd(b, 20), CreateCmd(c, 30), RemoveCmd(3)];
    var t0 := Table(map[], 1);
    var t1 := Apply(t0, cs[0]);
    var t2 := Apply(t1, cs[1]);
    var t3 := Apply(t2, cs[2]);
    var t := Apply(t3, cs[3]);
    assert t3 == Table(map[1 := Product(1, a, 10, true), 2 := Product(2, b, 20, true), 3 := Product(3, c, 30, true)], 4);
    assert t == t3.(rows := t3.rows[3 := Product(3, c, 30, false)]);
    assert cs[1..][1..][1..][1..] == [];
    assert Run(t0, cs) == Run(t1, cs[1..]) == Run(t2, cs[1..][1..]) == Run(t3, cs[1..][1..][1..]) == t;
    assert Listing(t) == [Product(1, a, 10, true), Product(2, b, 20, true)];
    assert AvailableIds(t.rows) == {1, 2};
  }
}
