/** Clients of the store: what a caller can conclude from the handlers'
    contracts alone. */
module Scenarios {
  import opened Models
  import opened Views

  /** Adding the same (name, price, location) twice, when no such row exists
      yet, yields one new row holding the sum of the two quantities. */
  method AddTwiceAccumulates(inv: Inventory, name: string, price: Price, q1: int, q2: int, location: string)
    requires inv.Valid()
    requires FindByKey(inv.products, name, price, location).None?
    modifies inv
    ensures inv.Valid()
    ensures inv.products == old(inv.products) + [Product(old(inv.nextProductId), name, price, q1 + q2, location)]
    ensures inv.movements == old(inv.movements)
  {
    inv.AddProduct(name, price, q1, location);
    var n := |old(inv.products)|;
    assert HasKey(inv.products[n], name, price, location);
    inv.AddProduct(name, price, q2, location);
  }

  /** Stock a widget in Chennai twice, shift it to Coimbatore, then delete
      the product. */
  method ChennaiScenario()
  {
    var inv := new Inventory();
    inv.AddProduct("Widget", 999, 5, "Chennai");
    inv.AddProduct("Widget", 999, 3, "Chennai");
    assert HasKey(inv.products[0], "Widget", 999, "Chennai");
    assert |inv.products| == 1 && inv.products[0].quantity == 8;
    var id := inv.products[0].id;
    var mid := inv.nextMovementId;
    var outcome := inv.ShiftProduct(id, "Coimbatore", 100);
    assert id in ProductIds(inv.products);
    assert outcome == Done;
    assert inv.products == [Product(id, "Widget", 999, 8, "Coimbatore")];
    assert inv.movements == [Movement(mid, 100, Some("Chennai"), Some("Coimbatore"), id, 8)];
    outcome := inv.DeleteProduct(id, true);
    assert outcome == Done;
    assert inv.products == [] && inv.movements == [];
  }

  /** The merge key is unique after any sequence of additions, but a shift
      can move a row onto the key of another one; a later addition then merges
      into the first of the two. */
  method ShiftCanDuplicateKey()
  {
    var inv := new Inventory();
    inv.AddProduct("Widget", 999, 5, "Chennai");
    assert HasKey(inv.products[0], "Widget", 999, "Chennai");
    inv.AddProduct("Widget", 999, 2, "Salem");
    assert |inv.products| == 2 && KeysUnique(inv.products);
    var outcome := inv.ShiftProduct(inv.products[0].id, "Salem", 100);
    assert outcome == Done;
    assert HasKey(inv.products[1], inv.products[0].name, inv.products[0].price, inv.products[0].location);
    assert !KeysUnique(inv.products);
    inv.AddProduct("Widget", 999, 1, "Salem");
    assert HasKey(inv.products[0], "Widget", 999, "Salem");
    assert inv.products[0].quantity == 6 && inv.products[1].quantity == 2;
  }
}
