/**
  The products table and the single-row operations of ProductService
  (app/services/product_service.py): create, update, delete, delete all,
  the existing-SKU query of the importer and the paginated listing.
  The table is the ordered sequence of its rows; a new row gets SQLite's
  rowid, one more than the largest id present (1 in an empty table).
*/
module Catalog {
  import opened Wrappers
  import Text

  datatype Product = Product(id: nat, name: string, sku: string, description: string, active: bool)

  /** Ids are positive and increase in table order (so they are unique). */
  predicate IdsIncreasing(ps: seq<Product>) {
    && (forall i :: 0 <= i < |ps| ==> ps[i].id >= 1)
    && (forall i, j :: 0 <= i < j < |ps| ==> ps[i].id < ps[j].id)
  }

  /** The UNIQUE constraint on the `sku` column. */
  predicate SkusDistinct(ps: seq<Product>) {
    forall i, j :: 0 <= i < j < |ps| ==> ps[i].sku != ps[j].sku
  }

  /** Every writer stores SKUs lower-cased. */
  predicate SkusLowercase(ps: seq<Product>) {
    forall i :: 0 <= i < |ps| ==> Text.IsLowercase(ps[i].sku)
  }

  predicate WellFormed(ps: seq<Product>) {
    IdsIncreasing(ps) && SkusDistinct(ps) && SkusLowercase(ps)
  }

  /** The largest id in the table, 0 when it is empty. */
  function MaxId(ps: seq<Product>): (m: nat)
    ensures forall i :: 0 <= i < |ps| ==> ps[i].id <= m
    ensures ps == [] ==> m == 0
  {
    if ps == [] then 0
    else
      var m := MaxId(ps[..|ps| - 1]);
      if ps[|ps| - 1].id > m then ps[|ps| - 1].id else m
  }

  /** The largest id is the id of some row: SQLite's `max(rowid)`. */
  lemma {:induction false} MaxIdAttained(ps: seq<Product>)
    requires ps != []
    ensures exists i :: 0 <= i < |ps| && ps[i].id == MaxId(ps)
  {
    var init := ps[..|ps| - 1];
    if ps[|ps| - 1].id <= MaxId(init) && init != [] {
      MaxIdAttained(init);
      var i :| 0 <= i < |init| && init[i].id == MaxId(init);
      assert ps[i] == init[i];
    }
  }

  /** The id SQLite assigns to the next inserted row: positive and above every stored id. */
  function NextId(ps: seq<Product>): (id: nat)
    ensures id >= 1
    ensures forall i :: 0 <= i < |ps| ==> ps[i].id < id
  {
    MaxId(ps) + 1
  }

  /** The table after inserting one row: the stored rows stay, the new one comes last with a fresh id. */
  function Inserted(ps: seq<Product>, name: string, sku: string, description: string, active: bool): (r: seq<Product>)
    ensures |r| == |ps| + 1 && r[..|ps|] == ps
    ensures r[|ps|].name == name && r[|ps|].sku == sku && r[|ps|].description == description && r[|ps|].active == active
    ensures forall i :: 0 <= i < |ps| ==> ps[i].id < r[|ps|].id
  {
    ps + [Product(NextId(ps), name, sku, description, active)]
  }

  /** The stored SKUs. */
  function SkuSet(ps: seq<Product>): set<string> {
    set i | 0 <= i < |ps| :: ps[i].sku
  }

  /** `SELECT LOWER(sku) FROM products`; in a well-formed table, exactly the stored SKUs. */
  function ExistingSkus(ps: seq<Product>): (s: set<string>)
    ensures SkusLowercase(ps) ==> s == SkuSet(ps)
    ensures forall i :: 0 <= i < |ps| ==> Text.Lower(ps[i].sku) in s
  {
    set i | 0 <= i < |ps| :: Text.Lower(ps[i].sku)
  }

  /** Inserting a lower-case SKU not yet stored keeps the table well formed. */
  lemma InsertedWellFormed(ps: seq<Product>, name: string, sku: string, description: string, active: bool)
    requires WellFormed(ps)
    requires Text.IsLowercase(sku) && sku !in SkuSet(ps)
    ensures WellFormed(Inserted(ps, name, sku, description, active))
  {
    var qs := Inserted(ps, name, sku, description, active);
    forall i, j | 0 <= i < j < |qs| ensures qs[i].sku != qs[j].sku {
      if j == |ps| {
        assert qs[i].sku == ps[i].sku && ps[i].sku in SkuSet(ps);
      }
    }
  }

  /** `Product.sku.ilike(sku)` holds for some row. */
  predicate SkuTaken(ps: seq<Product>, sku: string) {
    exists i :: 0 <= i < |ps| && Text.Lower(ps[i].sku) == Text.Lower(sku)
  }

  /** `Product.sku.ilike(sku)` holds for some row whose id is not `id`. */
  predicate SkuTakenByOther(ps: seq<Product>, sku: string, id: nat) {
    exists i :: 0 <= i < |ps| && ps[i].id != id && Text.Lower(ps[i].sku) == Text.Lower(sku)
  }

  /** The position of the row with the given id, the first if several. */
  function FindProduct(ps: seq<Product>, id: nat): (r: Option<nat>)
    ensures r.Some? ==> r.value < |ps| && ps[r.value].id == id
    ensures r.Some? ==> forall j :: 0 <= j < r.value ==> ps[j].id != id
    ensures r.None? ==> forall j :: 0 <= j < |ps| ==> ps[j].id != id
  {
    if ps == [] then None
    else if ps[0].id == id then Some(0)
    else match FindProduct(ps[1..], id)
      case None => None
      case Some(k) => Some(k + 1)
  }

  /** The fields `update_product` assigns: those given, the SKU lower-cased. */
  function Patched(p: Product, name: Option<string>, sku: Option<string>,
                   description: Option<string>, active: Option<bool>): (q: Product)
    ensures q.id == p.id
    ensures q.name == (if name.Some? then name.value else p.name)
    ensures q.sku == (if sku.Some? then Text.Lower(sku.value) else p.sku)
    ensures q.description == (if description.Some? then description.value else p.description)
    ensures q.active == (if active.Some? then active.value else p.active)
  {
    Product(p.id, name.GetOr(p.name), if sku.Some? then Text.Lower(sku.value) else p.sku,
            description.GetOr(p.description), active.GetOr(p.active))
  }

  /** The errors the service raises: its own ValueError, or the database's IntegrityError at commit. */
  datatype ServiceError = SkuExists(sku: string) | IntegrityError

  class ProductTable {
    var products: seq<Product>

    ghost predicate Valid()
      reads this
    {
      WellFormed(products)
    }

    constructor ()
      ensures products == [] && Valid()
    {
      products := [];
    }
  }

  /**
    `create_product`: refused when some stored SKU equals `sku` ignoring case;
    otherwise exactly one row is added, with the SKU lower-cased and a fresh id.
  */
  method CreateProduct(table: ProductTable, name: string, sku: string, description: string, active: bool)
    returns (r: Result<Product, ServiceError>)
    requires table.Valid()
    modifies table
    ensures table.Valid()
    ensures r.Failure? <==> SkuTaken(old(table.products), sku)
    ensures r.Failure? ==> r.error == SkuExists(sku) && table.products == old(table.products)
    ensures r.Success? ==>
      && r.value == Product(NextId(old(table.products)), name, Text.Lower(sku), description, active)
      && table.products == old(table.products) + [r.value]
      && forall i :: 0 <= i < |old(table.products)| ==> old(table.products)[i].id < r.value.id
  {
    if SkuTaken(table.products, sku) {
      return Failure(SkuExists(sku));
    }
    var p := Product(NextId(table.products), name, Text.Lower(sku), description, active);
    Text.LowerIdempotent(sku);
    assert Text.Lower(sku) !in SkuSet(table.products);
    InsertedWellFormed(table.products, name, Text.Lower(sku), description, active);
    table.products := table.products + [p];
    r := Success(p);
  }

  /**
    `update_product`: `Success(None)` for an unknown id. A non-empty SKU that
    differs from the stored one is checked against the other rows, ignoring
    case. The given fields are then assigned; a commit that would break the
    UNIQUE constraint fails with IntegrityError: that happens exactly when the
    new SKU is empty, the one value the service check lets through, and
    another row already stores the empty SKU.
  */
  method UpdateProduct(table: ProductTable, productId: nat, name: Option<string>, sku: Option<string>,
                       description: Option<string>, active: Option<bool>)
    returns (r: Result<Option<Product>, ServiceError>)
    requires table.Valid()
    modifies table
    ensures table.Valid()
    ensures r == Success(None) <==> FindProduct(old(table.products), productId).None?
    ensures r.Failure? || r == Success(None) ==> table.products == old(table.products)
    ensures r.Failure? && r.error.SkuExists? <==>
      && FindProduct(old(table.products), productId).Some?
      && sku.Some? && sku.value != ""
      && Text.Lower(sku.value) != old(table.products)[FindProduct(old(table.products), productId).value].sku
      && SkuTakenByOther(old(table.products), sku.value, productId)
    ensures r.Failure? && r.error.SkuExists? ==> r.error.sku == sku.value
    ensures r == Failure(IntegrityError) <==>
      && FindProduct(old(table.products), productId).Some?
      && sku == Some("")
      && exists j :: 0 <= j < |old(table.products)| && j != FindProduct(old(table.products), productId).value
                     && old(table.products)[j].sku == ""
    ensures r.Success? && r.value.Some? ==>
      var k := FindProduct(old(table.products), productId).value;
      && r.value.value == Patched(old(table.products)[k], name, sku, description, active)
      && table.products == old(table.products)[k := r.value.value]
  {
    var found := FindProduct(table.products, productId);
    if found.None? {
      return Success(None);
    }
    var k := found.value;
    var p := table.products[k];
    if sku.Some? && sku.value != "" && Text.Lower(sku.value) != p.sku {
      if SkuTakenByOther(table.products, sku.value, productId) {
        return Failure(SkuExists(sku.value));
      }
    }
    var q := Patched(p, name, sku, description, active);
    if exists j :: 0 <= j < |table.products| && j != k && table.products[j].sku == q.sku {
      ghost var j :| 0 <= j < |table.products| && j != k && table.products[j].sku == q.sku;
      assert Text.Lower(table.products[j].sku) == table.products[j].sku;
      assert table.products[j].id != productId;
      return Failure(IntegrityError);
    }
    ReplacedWellFormed(table.products, k, q);
    table.products := table.products[k := q];
    r := Success(Some(q));
  }

  /** Replacing a row by one with the same id and a lower-case SKU no other row has keeps the table well formed. */
  lemma ReplacedWellFormed(ps: seq<Product>, k: nat, q: Product)
    requires WellFormed(ps) && k < |ps|
    requires q.id == ps[k].id && Text.IsLowercase(q.sku)
    requires forall j :: 0 <= j < |ps| && j != k ==> ps[j].sku != q.sku
    ensures WellFormed(ps[k := q])
  {
  }

  /** `delete_product`: false and no change for an unknown id; else that row alone is removed. */
  method DeleteProduct(table: ProductTable, productId: nat) returns (deleted: bool)
    requires table.Valid()
    modifies table
    ensures table.Valid()
    ensures deleted <==> exists i :: 0 <= i < |old(table.products)| && old(table.products)[i].id == productId
    ensures !deleted ==> table.products == old(table.products)
    ensures deleted ==>
      var k := FindProduct(old(table.products), productId).value;
      table.products == old(table.products)[..k] + old(table.products)[k + 1..]
    ensures forall p :: p in table.products <==> p in old(table.products) && p.id != productId
  {
    var found := FindProduct(table.products, productId);
    if found.None? {
      return false;
    }
    var k := found.value;
    RemovedWellFormed(table.products, k);
    table.products := table.products[..k] + table.products[k + 1..];
    deleted := true;
  }

  /**
    Removing the row at `k` keeps the table well formed and removes exactly
    the rows with that row's id: ids are unique, so no other row goes.
  */
  lemma RemovedWellFormed(ps: seq<Product>, k: nat)
    requires WellFormed(ps) && k < |ps|
    ensures WellFormed(ps[..k] + ps[k + 1..])
    ensures forall p :: p in ps[..k] + ps[k + 1..] <==> p in ps && p.id != ps[k].id
  {
    var r := ps[..k] + ps[k + 1..];
    assert forall i :: 0 <= i < |r| ==> r[i] == (if i < k then ps[i] else ps[i + 1]);
  }

  /** `delete_all_products`: answers how many rows there were and leaves none. */
  method DeleteAllProducts(table: ProductTable) returns (count: nat)
    modifies table
    ensures count == |old(table.products)|
    ensures table.products == [] && table.Valid()
  {
    count := |table.products|;
    table.products := [];
  }

  // ---- get_products_paginated ----

  /** `(total + per_page - 1) // per_page`, the number of pages needed for `total` rows. */
  function TotalPages(total: nat, perPage: nat): (pages: nat)
    requires perPage > 0
    ensures pages * perPage >= total
    ensures pages > 0 ==> (pages - 1) * perPage < total
  {
    (total + perPage - 1) / perPage
  }

  /** The row offset of a page; SQLite reads a negative OFFSET as 0. */
  function Offset(page: int, perPage: nat): nat {
    if page <= 1 then 0 else (page - 1) * perPage
  }

  /** `.offset((page-1)*per_page).limit(per_page)` over the matching rows. */
  function PageSlice(items: seq<Product>, page: int, perPage: nat): (r: seq<Product>)
    ensures |r| <= perPage
    ensures |r| == if Offset(page, perPage) >= |items| then 0
                   else if Offset(page, perPage) + perPage <= |items| then perPage
                   else |items| - Offset(page, perPage)
    ensures forall t :: 0 <= t < |r| ==> Offset(page, perPage) + t < |items| && r[t] == items[Offset(page, perPage) + t]
  {
    var o := Offset(page, perPage);
    if o >= |items| then [] else items[o..if o + perPage <= |items| then o + perPage else |items|]
  }

  /** Every row lies on page `k / perPage + 1`, a page that exists, at position `k % perPage`. */
  lemma PagesCoverAll(items: seq<Product>, perPage: nat, k: nat)
    requires perPage > 0 && k < |items|
    ensures 1 <= k / perPage + 1 <= TotalPages(|items|, perPage)
    ensures var page := PageSlice(items, k / perPage + 1, perPage);
      k % perPage < |page| && page[k % perPage] == items[k]
  {
    var q, m := k / perPage, k % perPage;
    assert k == q * perPage + m;
    assert Offset(q + 1, perPage) == q * perPage;
  }

  /** A page number of 1 or less gives offset 0, so SQLite serves the first page. */
  lemma NonPositivePageIsFirst(items: seq<Product>, page: int, perPage: nat)
    requires page <= 1
    ensures PageSlice(items, page, perPage) == PageSlice(items, 1, perPage)
  {
  }

  /** The search term applies when given and non-empty (`if search:`). */
  function SearchTerm(search: Option<string>): Option<string> {
    if search.Some? && search.value != "" then search else None
  }

  /**
    The `active` filter: absent, empty or "none" (any case) means no filter;
    "true" (any case) keeps active rows and every other value keeps inactive rows.
  */
  function ActiveFilter(active: Option<string>): (f: Option<bool>)
    ensures f.None? <==> active.None? || active.value == "" || Text.Lower(active.value) == "none"
    ensures f == Some(true) <==> active.Some? && Text.Lower(active.value) == "true"
  {
    if active.Some? && Text.Lower(active.value) != "" && Text.Lower(active.value) != "none" then
      Some(Text.Lower(active.value) == "true")
    else None
  }

  /** A row passes the filters when the term occurs, ignoring case, in its name, SKU or description and its flag agrees. */
  predicate Matches(p: Product, term: Option<string>, activeFlag: Option<bool>) {
    && (term.None? || Text.ContainsIgnoringCase(p.name, term.value)
                   || Text.ContainsIgnoringCase(p.sku, term.value)
                   || Text.ContainsIgnoringCase(p.description, term.value))
    && (activeFlag.None? || p.active == activeFlag.value)
  }

  /**
    The rows that pass the filters, in table order: with ids increasing along
    the table, they increase along the result too, which with the membership
    clause fixes the result.
  */
  function Matching(ps: seq<Product>, term: Option<string>, activeFlag: Option<bool>): (r: seq<Product>)
    ensures |r| <= |ps|
    ensures forall p :: p in r <==> p in ps && Matches(p, term, activeFlag)
    ensures IdsIncreasing(ps) ==> IdsIncreasing(r)
  {
    if ps == [] then []
    else
      var rest := Matching(ps[1..], term, activeFlag);
      assert forall p :: p in ps <==> p == ps[0] || p in ps[1..];
      if Matches(ps[0], term, activeFlag) then
        assert IdsIncreasing(ps) ==> forall t :: 0 <= t < |rest| ==> ps[0].id < rest[t].id by {
          if IdsIncreasing(ps) {
            forall t | 0 <= t < |rest| ensures ps[0].id < rest[t].id {
              assert rest[t] in rest;
              var m :| 0 <= m < |ps[1..]| && ps[1..][m] == rest[t];
              assert ps[m + 1] == rest[t];
            }
          }
        }
        [ps[0]] + rest
      else rest
  }

  datatype PageResult = PageResult(products: seq<Product>, total: nat, page: int, perPage: nat, totalPages: nat)

  /** `get_products_paginated`: one page of the matching rows, their count and the page count; reads only. */
  function GetProductsPaginated(table: ProductTable, page: int, perPage: nat,
                                search: Option<string>, active: Option<string>): (r: PageResult)
    reads table
    requires perPage > 0
    ensures var all := Matching(table.products, SearchTerm(search), ActiveFilter(active));
      && r.total == |all|
      && r.products == PageSlice(all, page, perPage)
      && r.page == page && r.perPage == perPage
      && r.totalPages * perPage >= r.total
      && (r.totalPages > 0 ==> (r.totalPages - 1) * perPage < r.total)
      && |r.products| <= perPage
      && (forall t :: 0 <= t < |r.products| ==>
            Offset(page, perPage) + t < r.total && r.products[t] == all[Offset(page, perPage) + t])
  {
    var all := Matching(table.products, SearchTerm(search), ActiveFilter(active));
    PageResult(PageSlice(all, page, perPage), |all|, page, perPage, TotalPages(|all|, perPage))
  }

  /** 50 rows at 20 per page make 3 pages, the first holding 20 rows. */
  lemma PaginationExample(items: seq<Product>)
    requires |items| == 50
    ensures TotalPages(|items|, 20) == 3
    ensures |PageSlice(items, 1, 20)| == 20
  {
  }
}
