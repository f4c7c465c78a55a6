/** The request handlers of the inventory application, as operations on an
    in-memory store: a product table, an append-only movement ledger, and
    one id counter per table. */
module Views {
  import opened Models

  /** What a state-changing handler reports back. */
  datatype Outcome = Done | NotFound | StorageError

  /** The `product_info` entry of the stock report. */
  datatype ProductInfo = ProductInfo(name: string, quantity: int, price: Price)

  /** One line of the product listing, with its 1-based display index. */
  datatype IndexRow = IndexRow(
    id: nat,
    index: nat,
    name: string,
    price: Price,
    quantity: int,
    location: string)

  // ---------------------------------------------------------------------
  // Lookups
  // ---------------------------------------------------------------------

  /** The position of the product with primary key `id`, if any. */
  function FindProduct(ps: seq<Product>, id: nat): (r: Option<nat>)
    ensures r.Some? ==> r.value < |ps| && ps[r.value].id == id
    ensures r.Some? ==> forall j :: 0 <= j < r.value ==> ps[j].id != id
    ensures r.None? <==> id !in ProductIds(ps)
  {
    if ps == [] then None
    else if ps[0].id == id then Some(0)
    else match FindProduct(ps[1..], id)
      case None => None
      case Some(k) => Some(k + 1)
  }

  /** The first product with the merge key (name, price, location), the row
      a `filter_by(...).first()` query returns. */
  function FindByKey(ps: seq<Product>, name: string, price: Price, location: string): (r: Option<nat>)
    ensures r.Some? ==> r.value < |ps| && HasKey(ps[r.value], name, price, location)
    ensures r.Some? ==> forall j :: 0 <= j < r.value ==> !HasKey(ps[j], name, price, location)
    ensures r.None? ==> forall j :: 0 <= j < |ps| ==> !HasKey(ps[j], name, price, location)
  {
    if ps == [] then None
    else if HasKey(ps[0], name, price, location) then Some(0)
    else match FindByKey(ps[1..], name, price, location)
      case None => None
      case Some(k) => Some(k + 1)
  }

  // ---------------------------------------------------------------------
  // Form normalisation and the cascade filter
  // ---------------------------------------------------------------------

  /** A location field of the movement form: a missing or empty field is
      stored as an absent location, anything else as given. */
  function FormLocation(field: Option<string>): (r: Option<string>)
    ensures r.None? <==> (field.None? || field.value == "")
    ensures r.Some? ==> r == field
  {
    match field
    case None => None
    case Some(s) => if s == "" then None else Some(s)
  }

  /** The movement ledger after the rows with `product_id == id` are deleted. */
  function WithoutMovementsOf(ms: seq<Movement>, id: nat): (r: seq<Movement>)
    ensures forall m :: m in r <==> m in ms && m.productId != id
  {
    if ms == [] then []
    else
      assert ms == [ms[0]] + ms[1..];
      var rest := WithoutMovementsOf(ms[1..], id);
      if ms[0].productId == id then rest else [ms[0]] + rest
  }

  /** The filter keeps every other movement as often as it occurred, and
      drops every occurrence of the product's movements. */
  lemma {:induction false} WithoutMovementsOfCounts(ms: seq<Movement>, id: nat, m: Movement)
    ensures multiset(WithoutMovementsOf(ms, id))[m] == if m.productId == id then 0 else multiset(ms)[m]
  {
    if ms != [] {
      assert ms == [ms[0]] + ms[1..];
      WithoutMovementsOfCounts(ms[1..], id, m);
    }
  }

  // ---------------------------------------------------------------------
  // Ordering of the movement list
  // ---------------------------------------------------------------------

  /** Timestamps never increase along the list: newest first. */
  ghost predicate NewestFirst(s: seq<Movement>)
  {
    forall i, j :: 0 <= i < j < |s| ==> s[i].timestamp >= s[j].timestamp
  }

  function InsertNewestFirst(m: Movement, s: seq<Movement>): (r: seq<Movement>)
    requires NewestFirst(s)
    ensures NewestFirst(r)
    ensures multiset(r) == multiset(s) + multiset{m}
  {
    if s == [] then [m]
    else if m.timestamp >= s[0].timestamp then [m] + s
    else
      assert s == [s[0]] + s[1..];
      var rest := InsertNewestFirst(m, s[1..]);
      NoNewerThan(rest, s[1..], m, s[0].timestamp);
      [s[0]] + rest
  }

  /** A list holding the elements of `tail` and `m`, all no newer than `t`,
      holds nothing newer than `t`. */
  lemma NoNewerThan(r: seq<Movement>, tail: seq<Movement>, m: Movement, t: int)
    requires multiset(r) == multiset(tail) + multiset{m}
    requires m.timestamp <= t
    requires forall k :: 0 <= k < |tail| ==> tail[k].timestamp <= t
    ensures forall k :: 0 <= k < |r| ==> r[k].timestamp <= t
  {
    forall k | 0 <= k < |r|
      ensures r[k].timestamp <= t
    {
      assert r[k] in multiset(r);
      assert r[k] == m || r[k] in tail;
    }
  }

  /** The movements ordered by descending timestamp; the order among equal
      timestamps is not part of the contract. */
  function SortNewestFirst(ms: seq<Movement>): (r: seq<Movement>)
    ensures NewestFirst(r)
    ensures multiset(r) == multiset(ms)
  {
    if ms == [] then []
    else
      assert ms == [ms[0]] + ms[1..];
      InsertNewestFirst(ms[0], SortNewestFirst(ms[1..]))
  }

  // ---------------------------------------------------------------------
  // Grouping by location
  // ---------------------------------------------------------------------

  function Info(p: Product): ProductInfo
  {
    ProductInfo(p.name, p.quantity, p.price)
  }

  /** The locations in use by some product. */
  function Locations(ps: seq<Product>): set<string>
  {
    set p | p in ps :: p.location
  }

  /** The report entries of the products at `loc`, in table order. */
  function Group(ps: seq<Product>, loc: string): seq<ProductInfo>
  {
    if ps == [] then []
    else
      var g := Group(ps[..|ps| - 1], loc);
      if ps[|ps| - 1].location == loc then g + [Info(ps[|ps| - 1])] else g
  }

  /** The positions in the table of the products at `loc`, ascending. */
  function Positions(ps: seq<Product>, loc: string): (pos: seq<nat>)
    ensures forall k :: 0 <= k < |pos| ==> pos[k] < |ps| && ps[pos[k]].location == loc
    ensures forall i :: 0 <= i < |ps| && ps[i].location == loc ==> i in pos
    ensures forall k, l :: 0 <= k < l < |pos| ==> pos[k] < pos[l]
  {
    if ps == [] then []
    else
      var prev := Positions(ps[..|ps| - 1], loc);
      if ps[|ps| - 1].location == loc then prev + [|ps| - 1] else prev
  }

  /** The group of `loc` lists exactly the products at `loc`, in table order:
      entry k of the group is the product at the k-th such position. */
  lemma {:induction false} GroupFollowsPositions(ps: seq<Product>, loc: string)
    ensures |Group(ps, loc)| == |Positions(ps, loc)|
    ensures forall k :: 0 <= k < |Group(ps, loc)| ==> Group(ps, loc)[k] == Info(ps[Positions(ps, loc)[k]])
  {
    if ps != [] {
      var init := ps[..|ps| - 1];
      GroupFollowsPositions(init, loc);
      assert forall i :: 0 <= i < |init| ==> init[i] == ps[i];
    }
  }

  /** A location no product uses has an empty group. */
  lemma {:induction false} GroupOfUnusedLocation(ps: seq<Product>, loc: string)
    requires loc !in Locations(ps)
    ensures Group(ps, loc) == []
  {
    if ps != [] {
      var init := ps[..|ps| - 1];
      assert forall p :: p in init ==> p in ps;
      GroupOfUnusedLocation(init, loc);
    }
  }

  // ---------------------------------------------------------------------
  // The store
  // ---------------------------------------------------------------------

  class Inventory {
    var products: seq<Product>
    var movements: seq<Movement>
    var nextProductId: nat
    var nextMovementId: nat

    /** The declared keys hold of the current tables. */
    ghost predicate Valid()
      reads this
    {
      TablesConsistent(products, movements, nextProductId, nextMovementId)
    }

    /** An empty database. */
    constructor ()
      ensures Valid()
      ensures products == [] && movements == []
    {
      products := [];
      movements := [];
      nextProductId := 1;
      nextMovementId := 1;
    }

    /** `add_product`: merge into the first row with the same (name, price,
        location), or insert a new row with a fresh id. */
    method AddProduct(name: string, price: Price, quantity: int, location: string)
      requires Valid()
      modifies this
      ensures Valid()
      ensures movements == old(movements) && nextMovementId == old(nextMovementId)
      ensures var found := FindByKey(old(products), name, price, location);
        if found.Some? then
          var i := found.value;
          && products == old(products)[i := old(products)[i].(quantity := old(products)[i].quantity + quantity)]
          && nextProductId == old(nextProductId)
        else
          && products == old(products) + [Product(old(nextProductId), name, price, quantity, location)]
          && old(nextProductId) !in ProductIds(old(products))
          && nextProductId == old(nextProductId) + 1
      ensures old(KeysUnique(products)) ==> KeysUnique(products)
    {
      var found := FindByKey(products, name, price, location);
      if found.Some? {
        var i := found.value;
        var p := products[i];
        MergeKeepsTables(products, movements, nextProductId, nextMovementId, i, quantity);
        products := products[i := p.(quantity := p.quantity + quantity)];
      } else {
        var p := Product(nextProductId, name, price, quantity, location);
        InsertKeepsTables(products, movements, nextProductId, nextMovementId, p);
        products := products + [p];
        nextProductId := nextProductId + 1;
      }
    }

    /** `shift_product`: relocate the product and log one movement from its
        old location to the new one, carrying its whole quantity. */
    method ShiftProduct(id: nat, newLocation: string, now: int) returns (outcome: Outcome)
      requires Valid()
      modifies this
      ensures Valid()
      ensures outcome == Done || outcome == NotFound
      ensures outcome == NotFound <==> id !in ProductIds(old(products))
      ensures outcome == NotFound ==> unchanged(this)
      ensures outcome == Done ==>
        var i := FindProduct(old(products), id).value;
        var p := old(products)[i];
        && products == old(products)[i := p.(location := newLocation)]
        && movements == old(movements) + [Movement(old(nextMovementId), now, Some(p.location), Some(newLocation), id, p.quantity)]
        && nextProductId == old(nextProductId)
        && nextMovementId == old(nextMovementId) + 1
    {
      var found := FindProduct(products, id);
      if found.None? {
        return NotFound;
      }
      var i := found.value;
      var p := products[i];
      var oldLocation := p.location;
      var logged := Movement(nextMovementId, now, Some(oldLocation), Some(newLocation), p.id, p.quantity);
      ShiftKeepsTables(products, movements, nextProductId, nextMovementId, i, newLocation, logged);
      products := products[i := p.(location := newLocation)];
      movements := movements + [logged];
      nextMovementId := nextMovementId + 1;
      outcome := Done;
    }

    /** `add_movement`: a free-form ledger entry. The product table is left
        alone and the quantity is not checked against stock. */
    method AddMovement(productId: nat, fromLocation: Option<string>, toLocation: Option<string>, qty: int, now: int)
      requires Valid()
      requires productId in ProductIds(products)
      modifies this
      ensures Valid()
      ensures products == old(products) && nextProductId == old(nextProductId)
      ensures movements == old(movements) + [Movement(old(nextMovementId), now, FormLocation(fromLocation), FormLocation(toLocation), productId, qty)]
      ensures nextMovementId == old(nextMovementId) + 1
    {
      var logged := Movement(nextMovementId, now, FormLocation(fromLocation), FormLocation(toLocation), productId, qty);
      LogKeepsTables(products, movements, nextProductId, nextMovementId, logged);
      movements := movements + [logged];
      nextMovementId := nextMovementId + 1;
    }

    /** `delete_product`: delete the product's movements, then the product,
        as one transaction; `commitSucceeds` says whether the storage layer
        accepts it, and on failure everything is rolled back. */
    method DeleteProduct(id: nat, commitSucceeds: bool) returns (outcome: Outcome)
      requires Valid()
      modifies this
      ensures Valid()
      ensures outcome == NotFound <==> id !in ProductIds(old(products))
      ensures outcome == StorageError <==> id in ProductIds(old(products)) && !commitSucceeds
      ensures outcome != Done ==> unchanged(this)
      ensures outcome == Done ==>
        var i := FindProduct(old(products), id).value;
        && products == old(products)[..i] + old(products)[i + 1..]
        && movements == WithoutMovementsOf(old(movements), id)
        && nextProductId == old(nextProductId)
        && nextMovementId == old(nextMovementId)
      ensures outcome == Done ==> id !in ProductIds(products)
      ensures outcome == Done ==> forall m :: m in movements ==> m.productId != id
    {
      var found := FindProduct(products, id);
      if found.None? {
        return NotFound;
      }
      var i := found.value;
      var remainingMovements := WithoutMovementsOf(movements, id);
      var remainingProducts := products[..i] + products[i + 1..];
      if !commitSucceeds {
        return StorageError;
      }
      DeleteKeepsTables(products, movements, nextProductId, nextMovementId, i);
      products := remainingProducts;
      movements := remainingMovements;
      outcome := Done;
    }

    /** `view_movement`: every movement, newest first. */
    method ViewMovement() returns (listing: seq<Movement>)
      ensures multiset(listing) == multiset(movements)
      ensures NewestFirst(listing)
    {
      listing := SortNewestFirst(movements);
    }

    /** `index`: the product listing, numbered from 1, with "N/A" shown for
        an empty location. */
    method Index() returns (rows: seq<IndexRow>)
      ensures |rows| == |products|
      ensures forall k :: 0 <= k < |rows| ==>
        && rows[k].index == k + 1
        && rows[k].id == products[k].id
        && rows[k].name == products[k].name
        && rows[k].price == products[k].price
        && rows[k].quantity == products[k].quantity
        && rows[k].location == (if products[k].location == "" then "N/A" else products[k].location)
    {
      rows := [];
      for idx := 0 to |products|
        invariant |rows| == idx
        invariant forall k :: 0 <= k < idx ==>
          && rows[k].index == k + 1
          && rows[k].id == products[k].id
          && rows[k].name == products[k].name
          && rows[k].price == products[k].price
          && rows[k].quantity == products[k].quantity
          && rows[k].location == (if products[k].location == "" then "N/A" else products[k].location)
      {
        var p := products[idx];
        var shown := if p.location != "" then p.location else "N/A";
        rows := rows + [IndexRow(p.id, idx + 1, p.name, p.price, p.quantity, shown)];
      }
    }

    /** `product_report`: the products grouped by location; the keys are
        exactly the locations in use. */
    method ProductReport() returns (balances: map<string, seq<ProductInfo>>)
      ensures balances.Keys == Locations(products)
      ensures forall loc :: loc in balances ==> balances[loc] == Group(products, loc)
    {
      balances := map[];
      for i := 0 to |products|
        invariant balances.Keys == Locations(products[..i])
        invariant forall loc :: loc in balances ==> balances[loc] == Group(products[..i], loc)
      {
        var p := products[i];
        assert products[..i + 1] == products[..i] + [p];
        assert products[..i + 1][..i] == products[..i];
        assert Locations(products[..i + 1]) == Locations(products[..i]) + {p.location};
        if p.location !in balances {
          GroupOfUnusedLocation(products[..i], p.location);
          balances := balances[p.location := []];
        }
        balances := balances[p.location := balances[p.location] + [Info(p)]];
      }
      assert products[..|products|] == products;
    }
  }

  /** Replacing a row by one with the same id keeps the table's ids. */
  lemma ReplaceRowKeepsIds(ps: seq<Product>, i: nat, p: Product)
    requires i < |ps| && p.id == ps[i].id
    ensures ProductIds(ps[i := p]) == ProductIds(ps)
    ensures ProductIdsDistinct(ps) ==> ProductIdsDistinct(ps[i := p])
  {
    var qs := ps[i := p];
    assert forall k :: 0 <= k < |qs| ==> qs[k].id == ps[k].id;
  }

  /** The merge branch of `add_product` keeps the invariant and, as it leaves
      every merge key alone, keeps the keys unique. */
  lemma MergeKeepsTables(ps: seq<Product>, ms: seq<Movement>, np: nat, nm: nat, i: nat, quantity: int)
    requires TablesConsistent(ps, ms, np, nm) && i < |ps|
    ensures TablesConsistent(ps[i := ps[i].(quantity := ps[i].quantity + quantity)], ms, np, nm)
    ensures KeysUnique(ps) ==> KeysUnique(ps[i := ps[i].(quantity := ps[i].quantity + quantity)])
  {
    var qs := ps[i := ps[i].(quantity := ps[i].quantity + quantity)];
    ReplaceRowKeepsIds(ps, i, qs[i]);
    assert forall k :: 0 <= k < |qs| ==> qs[k].id == ps[k].id;
    assert forall k :: 0 <= k < |qs| ==> qs[k].(quantity := 0) == ps[k].(quantity := 0);
  }

  /** The insert branch of `add_product` keeps the invariant, and keeps the
      keys unique when no row had the new row's key. */
  lemma InsertKeepsTables(ps: seq<Product>, ms: seq<Movement>, np: nat, nm: nat, p: Product)
    requires TablesConsistent(ps, ms, np, nm) && p.id == np
    ensures np !in ProductIds(ps)
    ensures TablesConsistent(ps + [p], ms, np + 1, nm)
    ensures KeysUnique(ps) && FindByKey(ps, p.name, p.price, p.location).None? ==> KeysUnique(ps + [p])
  {
  }

  /** `shift_product` keeps the invariant: the shifted row keeps its id and
      the logged movement has a fresh id and refers to that row. */
  lemma ShiftKeepsTables(ps: seq<Product>, ms: seq<Movement>, np: nat, nm: nat, i: nat, loc: string, logged: Movement)
    requires TablesConsistent(ps, ms, np, nm) && i < |ps|
    requires logged.id == nm && logged.productId == ps[i].id
    ensures TablesConsistent(ps[i := ps[i].(location := loc)], ms + [logged], np, nm + 1)
  {
    var qs := ps[i := ps[i].(location := loc)];
    ReplaceRowKeepsIds(ps, i, qs[i]);
    assert forall k :: 0 <= k < |qs| ==> qs[k].id == ps[k].id;
    LogKeepsTables(qs, ms, np, nm, logged);
  }

  /** Appending a movement with a fresh id that refers to an existing product
      keeps the invariant. */
  lemma LogKeepsTables(ps: seq<Product>, ms: seq<Movement>, np: nat, nm: nat, logged: Movement)
    requires TablesConsistent(ps, ms, np, nm)
    requires logged.id == nm && logged.productId in ProductIds(ps)
    ensures TablesConsistent(ps, ms + [logged], np, nm + 1)
  {
  }

  /** The cascade filter keeps the movement ids distinct. */
  lemma {:induction false} FilterKeepsIdsDistinct(ms: seq<Movement>, id: nat)
    requires MovementIdsDistinct(ms)
    ensures MovementIdsDistinct(WithoutMovementsOf(ms, id))
  {
    if ms != [] {
      var tail := ms[1..];
      assert MovementIdsDistinct(tail) by {
        forall i, j | 0 <= i < j < |tail| ensures tail[i].id != tail[j].id {
          assert tail[i] == ms[i + 1] && tail[j] == ms[j + 1];
        }
      }
      FilterKeepsIdsDistinct(tail, id);
      var rest := WithoutMovementsOf(tail, id);
      if ms[0].productId != id {
        var r := [ms[0]] + rest;
        forall k | 0 <= k < |rest| ensures rest[k].id != ms[0].id {
          assert rest[k] in tail;
          var j :| 0 <= j < |tail| && tail[j] == rest[k];
          assert tail[j] == ms[j + 1];
        }
        forall i, j | 0 <= i < j < |r| ensures r[i].id != r[j].id {
          if i == 0 {
            assert r[j] == rest[j - 1];
          } else {
            assert r[i] == rest[i - 1] && r[j] == rest[j - 1];
          }
        }
      }
    }
  }

  /** Removing row i keeps exactly the ids of the other rows. */
  lemma RemoveRowIds(ps: seq<Product>, i: nat)
    requires ProductIdsDistinct(ps) && i < |ps|
    ensures ProductIdsDistinct(ps[..i] + ps[i + 1..])
    ensures ProductIds(ps[..i] + ps[i + 1..]) == ProductIds(ps) - {ps[i].id}
  {
    var rest := ps[..i] + ps[i + 1..];
    assert forall k :: 0 <= k < |rest| ==> rest[k] == (if k < i then ps[k] else ps[k + 1]);
    forall id | id in ProductIds(ps) - {ps[i].id}
      ensures id in ProductIds(rest)
    {
      var j :| 0 <= j < |ps| && ps[j].id == id;
      if j < i { assert rest[j] == ps[j]; } else { assert rest[j - 1] == ps[j]; }
    }
  }

  /** `delete_product` keeps the invariant: removing row i and every movement
      referring to it leaves no dangling reference, and the id is gone. */
  lemma DeleteKeepsTables(ps: seq<Product>, ms: seq<Movement>, np: nat, nm: nat, i: nat)
    requires TablesConsistent(ps, ms, np, nm) && i < |ps|
    ensures TablesConsistent(ps[..i] + ps[i + 1..], WithoutMovementsOf(ms, ps[i].id), np, nm)
    ensures ps[i].id !in ProductIds(ps[..i] + ps[i + 1..])
  {
    var rest := ps[..i] + ps[i + 1..];
    var kept := WithoutMovementsOf(ms, ps[i].id);
    RemoveRowIds(ps, i);
    assert forall k :: 0 <= k < |rest| ==> rest[k] in ps;
    FilterKeepsIdsDistinct(ms, ps[i].id);
    forall k | 0 <= k < |kept| ensures kept[k].id < nm {
      assert kept[k] in ms;
    }
  }
}
