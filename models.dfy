/** The record shapes of the inventory store: the `product` and
    `product_movement` tables, the default location list, and the
    predicates that say what the declared keys mean for a table. */
module Models {

  datatype Option<+T> = None | Some(value: T)

  /** Prices are only ever compared for equality (as part of the merge key),
      so an integer stands in for the stored floating-point value. */
  type Price = int

  /** A row of the `product` table. Every column is declared NOT NULL, so no
      field is optional. The location is a plain string, not a reference. */
  datatype Product = Product(
    id: nat,
    name: string,
    price: Price,
    quantity: int,
    location: string)

  /** A row of the `product_movement` table. Both location columns are
      nullable; the product reference and the quantity are not. The
      timestamp is an instant supplied by whoever creates the row. */
  datatype Movement = Movement(
    id: nat,
    timestamp: int,
    fromLocation: Option<string>,
    toLocation: Option<string>,
    productId: nat,
    qty: int)

  /** The fixed list of locations offered by the forms. */
  const LOCATIONS: seq<string> :=
    ["Chennai", "Coimbatore", "Madurai", "Trichy", "Salem", "Bangalore"]

  lemma LocationsAreSixDistinctNames()
    ensures |LOCATIONS| == 6
    ensures forall i, j :: 0 <= i < j < |LOCATIONS| ==> LOCATIONS[i] != LOCATIONS[j]
  {
  }

  /** The ids of the rows of the product table. */
  function ProductIds(ps: seq<Product>): set<nat>
  {
    set p | p in ps :: p.id
  }

  /** `id` is the primary key of the product table. */
  ghost predicate ProductIdsDistinct(ps: seq<Product>)
  {
    forall i, j :: 0 <= i < j < |ps| ==> ps[i].id != ps[j].id
  }

  /** `id` is the primary key of the movement table. */
  ghost predicate MovementIdsDistinct(ms: seq<Movement>)
  {
    forall i, j :: 0 <= i < j < |ms| ==> ms[i].id != ms[j].id
  }

  /** `product_id` is a foreign key: it is one of the ids of the product table. */
  ghost predicate MovementsReferTo(ms: seq<Movement>, ids: set<nat>)
  {
    forall m :: m in ms ==> m.productId in ids
  }

  /** The store invariant: both primary keys distinct and below the next id
      to be handed out, and every movement referring to an existing product. */
  ghost predicate TablesConsistent(ps: seq<Product>, ms: seq<Movement>, nextProductId: nat, nextMovementId: nat)
  {
    && ProductIdsDistinct(ps)
    && MovementIdsDistinct(ms)
    && (forall i :: 0 <= i < |ps| ==> ps[i].id < nextProductId)
    && (forall i :: 0 <= i < |ms| ==> ms[i].id < nextMovementId)
    && MovementsReferTo(ms, ProductIds(ps))
  }

  /** True when `p` carries the merge key (name, price, location). */
  predicate HasKey(p: Product, name: string, price: Price, location: string)
  {
    p.name == name && p.price == price && p.location == location
  }

  /** No two rows share the merge key (name, price, location). */
  ghost predicate KeysUnique(ps: seq<Product>)
  {
    forall i, j :: 0 <= i < j < |ps| ==> !HasKey(ps[j], ps[i].name, ps[i].price, ps[i].location)
  }
}
