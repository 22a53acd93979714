/**
 * The shop page of frontend/main.js: the cart the customer fills
 * (`agregarAlCarrito`) next to the product list loaded from the server, and
 * the order request the cart becomes (`comprarCarrito`).
 */
module Cart {
  import opened Shared
  import Models
  import Orders

  /** An entry of `productosDisponibles` as far as the cart uses it; `stock` is the page's local count. */
  datatype Listed = Listed(id: int, title: string, stock: int)

  /** An entry of `carrito`; the source calls the quantity `stock_quantity`. */
  datatype CartEntry = CartEntry(id: int, title: string, quantity: int)

  /** What `agregarAlCarrito` shows in the error line. */
  datatype AddNotice =
    | InvalidSelection        // "Selecciona producto y cantidad válida."
    | NotListed               // the id is not in the product list: returns without a message
    | NoUnitsLeft             // "No quedan unidades del producto"
    | OnlyAvailable(n: int)   // "Solo hay {n} unidades disponibles de este producto."
    | Added

  /** What `comprarCarrito` ends with. */
  datatype CheckoutNotice =
    | EmptyCart               // "El carrito está vacío."
    | OrderPlaced             // "Pedido creado con ID: {id}"
    | OrderFailed             // the server's detail, or "Error al crear pedido"

  /** `productosDisponibles.find(p => p.id === id)`: the first product with that id. */
  function FindProduct(ps: seq<Listed>, id: int): (r: Option<nat>)
    ensures r.Some? ==> r.value < |ps| && ps[r.value].id == id
    ensures r.Some? ==> forall j :: 0 <= j < r.value ==> ps[j].id != id
    ensures r.None? ==> forall j :: 0 <= j < |ps| ==> ps[j].id != id
  {
    if ps == [] then None
    else if ps[0].id == id then Some(0)
    else match FindProduct(ps[1..], id)
      case None => None
      case Some(j) => Some(j + 1)
  }

  /** `carrito.find(item => item.id === id)`: the position of the first entry with that id. */
  function CartIndex(cart: seq<CartEntry>, id: int): (r: Option<nat>)
    ensures r.Some? ==> r.value < |cart| && cart[r.value].id == id
    ensures r.Some? ==> forall j :: 0 <= j < r.value ==> cart[j].id != id
    ensures r.None? ==> forall e :: e in cart ==> e.id != id
  {
    if cart == [] then None
    else if cart[0].id == id then Some(0)
    else match CartIndex(cart[1..], id)
      case None => None
      case Some(j) => Some(j + 1)
  }

  /**
   * The cart after adding `q` units of product `id`: an existing entry
   * grows in place; otherwise a new entry goes at the end.
   */
  function AddEntry(cart: seq<CartEntry>, id: int, title: string, q: int): (r: seq<CartEntry>)
    ensures forall e :: e in r ==> e in cart || (e.id == id && (e.quantity == q || exists f :: f in cart && f.id == id && e.quantity == f.quantity + q))
    ensures CartIndex(cart, id).None? ==> r == cart + [CartEntry(id, title, q)]
    ensures CartIndex(cart, id).Some? ==>
      var k := CartIndex(cart, id).value;
      r == cart[k := cart[k].(quantity := cart[k].quantity + q)]
  {
    match CartIndex(cart, id)
    case Some(k) => cart[k := cart[k].(quantity := cart[k].quantity + q)]
    case None => cart + [CartEntry(id, title, q)]
  }

  /** The number of units of product `id` in the cart. */
  function CartQty(cart: seq<CartEntry>, id: int): int {
    if cart == [] then 0
    else (if cart[0].id == id then cart[0].quantity else 0) + CartQty(cart[1..], id)
  }

  /** `carrito.map(({id, stock_quantity}) => ({product_id: id, quantity: stock_quantity}))`. */
  function Payload(cart: seq<CartEntry>): (r: seq<Orders.Line>)
    ensures |r| == |cart|
    ensures forall k :: 0 <= k < |cart| ==> r[k].productId == cart[k].id && r[k].quantity == cart[k].quantity
  {
    if cart == [] then [] else [Orders.Line(cart[0].id, cart[0].quantity)] + Payload(cart[1..])
  }

  /** `!prodId || isNaN(cantidad) || cantidad <= 0`; `None` stands for NaN from `parseInt`. */
  predicate InvalidInput(prodId: Option<int>, cantidad: Option<int>) {
    prodId.None? || prodId.value == 0 || cantidad.None? || cantidad.value <= 0
  }

  ghost predicate UniqueIds(ps: seq<Listed>) {
    forall i, j :: 0 <= i < j < |ps| ==> ps[i].id != ps[j].id
  }

  /** At most one entry per product id. */
  ghost predicate UniqueEntries(cart: seq<CartEntry>) {
    forall j, k :: 0 <= j < k < |cart| ==> cart[j].id != cart[k].id
  }

  ghost predicate IsListed(ps: seq<Listed>, id: int) {
    exists i :: 0 <= i < |ps| && ps[i].id == id
  }

  /**
   * The page's invariant against the list as it was loaded: the local list
   * differs from it only in stock; for every product, the units in the
   * cart plus the local stock make the loaded stock, and the local stock
   * is never negative; the cart holds one entry per product, each for a
   * listed product and a positive quantity.
   */
  ghost predicate Conserved(cart: seq<CartEntry>, ps: seq<Listed>, loaded: seq<Listed>) {
    && |ps| == |loaded|
    && UniqueIds(loaded)
    && (forall i :: 0 <= i < |ps| ==> ps[i] == loaded[i].(stock := ps[i].stock))
    && (forall i :: 0 <= i < |ps| ==> 0 <= ps[i].stock && ps[i].stock + CartQty(cart, ps[i].id) == loaded[i].stock)
    && UniqueEntries(cart)
    && (forall e :: e in cart ==> e.quantity > 0 && IsListed(loaded, e.id))
  }

  lemma {:induction false} CartQtyAppend(cart: seq<CartEntry>, e: CartEntry, x: int)
    ensures CartQty(cart + [e], x) == CartQty(cart, x) + (if e.id == x then e.quantity else 0)
  {
    if cart != [] {
      assert (cart + [e])[1..] == cart[1..] + [e];
      CartQtyAppend(cart[1..], e, x);
    }
  }

  lemma {:induction false} CartQtyUpdate(cart: seq<CartEntry>, k: nat, e: CartEntry, x: int)
    requires k < |cart|
    ensures CartQty(cart[k := e], x) ==
      CartQty(cart, x) - (if cart[k].id == x then cart[k].quantity else 0) + (if e.id == x then e.quantity else 0)
  {
    if k > 0 {
      assert cart[k := e][1..] == cart[1..][k - 1 := e];
      CartQtyUpdate(cart[1..], k - 1, e, x);
    } else {
      assert cart[k := e][1..] == cart[1..];
    }
  }

  /** Adding `q` units of `id` raises the cart's count of `id` by `q` and no other count. */
  lemma CartQtyAddEntry(cart: seq<CartEntry>, id: int, title: string, q: int, x: int)
    ensures CartQty(AddEntry(cart, id, title, q), x) == CartQty(cart, x) + (if x == id then q else 0)
  {
    match CartIndex(cart, id)
    case Some(k) => CartQtyUpdate(cart, k, cart[k].(quantity := cart[k].quantity + q), x);
    case None => CartQtyAppend(cart, CartEntry(id, title, q), x);
  }

  /** Adding never creates a second entry for a product. */
  lemma AddEntryKeepsUnique(cart: seq<CartEntry>, id: int, title: string, q: int)
    requires UniqueEntries(cart)
    ensures UniqueEntries(AddEntry(cart, id, title, q))
    ensures CartIndex(cart, id).Some? ==> |AddEntry(cart, id, title, q)| == |cart|
    ensures CartIndex(cart, id).None? ==> AddEntry(cart, id, title, q) == cart + [CartEntry(id, title, q)]
  {
    var r := AddEntry(cart, id, title, q);
    if CartIndex(cart, id).None? {
      forall j, k | 0 <= j < k < |r|
        ensures r[j].id != r[k].id
      {
        if k == |cart| {
          assert cart[j] in cart;
        }
      }
    }
  }

  /**
   * A successful `agregarAlCarrito` keeps the invariant: the units leave the
   * local stock and enter the cart, and the local stock never goes below 0
   * because the quantity was checked against it.
   */
  lemma AddKeepsConserved(cart: seq<CartEntry>, ps: seq<Listed>, loaded: seq<Listed>, i: nat, q: int)
    requires Conserved(cart, ps, loaded)
    requires i < |ps| && 0 < q <= ps[i].stock
    ensures Conserved(AddEntry(cart, ps[i].id, ps[i].title, q), ps[i := ps[i].(stock := ps[i].stock - q)], loaded)
  {
    var id := ps[i].id;
    var cart' := AddEntry(cart, id, ps[i].title, q);
    var ps' := ps[i := ps[i].(stock := ps[i].stock - q)];
    AddEntryKeepsUnique(cart, id, ps[i].title, q);
    forall j | 0 <= j < |ps'|
      ensures 0 <= ps'[j].stock && ps'[j].stock + CartQty(cart', ps'[j].id) == loaded[j].stock
    {
      CartQtyAddEntry(cart, id, ps[i].title, q, ps[j].id);
      if j != i {
        assert loaded[j].id != loaded[i].id by {
          if j < i {
            assert loaded[j].id != loaded[i].id;
          } else {
            assert loaded[i].id != loaded[j].id;
          }
        }
      }
    }
    forall e | e in cart'
      ensures e.quantity > 0 && IsListed(loaded, e.id)
    {
      if e !in cart {
        assert loaded[i].id == id;
      }
    }
  }

  /** The request asks, for every product, for exactly the units the cart holds of it. */
  lemma {:induction false} PayloadRequests(cart: seq<CartEntry>, x: int)
    ensures Orders.Requested(Payload(cart), x) == CartQty(cart, x)
  {
    if cart != [] {
      PayloadRequests(cart[1..], x);
    }
  }

  lemma {:induction false} CartQtyOfAbsent(cart: seq<CartEntry>, x: int)
    requires forall e :: e in cart ==> e.id != x
    ensures CartQty(cart, x) == 0
  {
    if cart != [] {
      assert cart[0] in cart;
      CartQtyOfAbsent(cart[1..], x);
    }
  }

  /** The server still has every loaded product, with at least the stock the page loaded. */
  ghost predicate ServerHasLoaded(products: map<Models.ProductId, Models.Product>, loaded: seq<Listed>) {
    forall i :: 0 <= i < |loaded| ==> loaded[i].id in products && products[loaded[i].id].stock >= loaded[i].stock
  }

  /**
   * A cart built on the page is an order `create_order` accepts, as long as
   * the server has not lost stock since the list was loaded: every line
   * names an existing product, and no product is asked for beyond its
   * stock even when summed over the lines.
   */
  lemma CartIsFeasible(cart: seq<CartEntry>, ps: seq<Listed>, loaded: seq<Listed>,
                       db: Models.Db, customer: Orders.Principal)
    requires Conserved(cart, ps, loaded)
    requires ServerHasLoaded(db.products, loaded)
    requires cart != []
    ensures Orders.Feasible(db.products, Payload(cart))
    ensures Orders.PlaceOrder(db, Some(customer), Payload(cart)).response == Orders.OrderCreated(db.nextOrder)
  {
    var lines := Payload(cart);
    forall k | 0 <= k < |lines|
      ensures lines[k].productId in db.products && lines[k].quantity >= 0
    {
      assert cart[k] in cart;
      var i :| 0 <= i < |loaded| && loaded[i].id == cart[k].id;
    }
    forall pid | pid in db.products
      ensures Orders.Requested(lines, pid) <= db.products[pid].stock
    {
      PayloadRequests(cart, pid);
      var i := FindProduct(loaded, pid);
      if i.Some? {
        assert ps[i.value].id == pid;
      } else {
        forall e | e in cart
          ensures e.id != pid
        {
          var j :| 0 <= j < |loaded| && loaded[j].id == e.id;
        }
        CartQtyOfAbsent(cart, pid);
      }
    }
    Orders.WalkSucceedsIff(db.nextOrder, Orders.Progress(db.products, db.items, 0), lines);
  }

  class CartPage {
    /** `carrito`. */
    var carrito: seq<CartEntry>
    /** `productosDisponibles`, whose stock counts the page lowers as units go into the cart. */
    var productos: seq<Listed>
    /** The list as the server sent it. */
    ghost var loaded: seq<Listed>

    ghost predicate Valid()
      reads this
    {
      Conserved(carrito, productos, loaded)
    }

    /** The page right after `cargarProductos` received `products`, with an empty cart. */
    constructor (products: seq<Listed>)
      requires UniqueIds(products)
      requires forall i :: 0 <= i < |products| ==> products[i].stock >= 0
      ensures carrito == [] && productos == products && loaded == products
      ensures Valid()
    {
      carrito := [];
      productos := products;
      loaded := products;
    }

    /** `agregarAlCarrito`, with the two form fields as `parseInt` reads them. */
    method AddToCart(prodId: Option<int>, cantidad: Option<int>) returns (notice: AddNotice)
      requires Valid()
      modifies this
      ensures Valid() && loaded == old(loaded)
      ensures InvalidInput(prodId, cantidad) ==> notice == InvalidSelection
      ensures !InvalidInput(prodId, cantidad) ==>
        match FindProduct(old(productos), prodId.value)
        case None => notice == NotListed
        case Some(i) =>
          var p := old(productos)[i];
          && (p.stock == 0 ==> notice == NoUnitsLeft)
          && (p.stock != 0 && cantidad.value > p.stock ==> notice == OnlyAvailable(p.stock))
          && (notice == Added <==> p.stock != 0 && cantidad.value <= p.stock)
          && (notice == Added ==>
                && carrito == AddEntry(old(carrito), prodId.value, p.title, cantidad.value)
                && productos == old(productos)[i := p.(stock := p.stock - cantidad.value)])
      ensures notice != Added ==> carrito == old(carrito) && productos == old(productos)
    {
      if InvalidInput(prodId, cantidad) {
        return InvalidSelection;
      }
      var id, q := prodId.value, cantidad.value;
      var found := FindProduct(productos, id);
      if found.None? {
        return NotListed;
      }
      var i := found.value;
      var prod := productos[i];
      if prod.stock == 0 {
        return NoUnitsLeft;
      }
      var existente := CartIndex(carrito, id);
      if q > prod.stock {
        return OnlyAvailable(prod.stock);
      }
      Commit(id, i, existente, q);
      return Added;
    }

    /**
     * The last step of `agregarAlCarrito`: the units go into the cart entry
     * found earlier, or into a new entry at the end, and leave the
     * product's local stock.
     */
    method Commit(id: int, i: nat, existente: Option<nat>, q: int)
      requires Valid()
      requires i < |productos| && productos[i].id == id && 0 < q <= productos[i].stock
      requires existente == CartIndex(carrito, id)
      modifies this
      ensures Valid() && loaded == old(loaded)
      ensures carrito == AddEntry(old(carrito), id, old(productos)[i].title, q)
      ensures productos == old(productos)[i := old(productos)[i].(stock := old(productos)[i].stock - q)]
    {
      var prod := productos[i];
      ghost var next := AddEntry(carrito, id, prod.title, q);
      var cart;
      if existente.Some? {
        var k := existente.value;
        cart := carrito[k := carrito[k].(quantity := carrito[k].quantity + q)];
        assert cart == next;
      } else {
        cart := carrito + [CartEntry(id, prod.title, q)];
        assert cart == next;
      }
      AddKeepsConserved(carrito, productos, loaded, i, q);
      carrito, productos := cart, productos[i := prod.(stock := prod.stock - q)];
    }

    /**
     * `comprarCarrito`. `created` is whether the server answered with a
     * created order. On success the cart is emptied and the page reloads
     * the list, which the model takes to be the local list.
     */
    method Checkout(created: bool) returns (request: Option<seq<Orders.Line>>, notice: CheckoutNotice)
      requires Valid()
      modifies this
      ensures Valid() && productos == old(productos)
      ensures old(carrito) == [] ==> request.None? && notice == EmptyCart
      ensures old(carrito) != [] ==> request == Some(Payload(old(carrito)))
      ensures notice == OrderPlaced <==> old(carrito) != [] && created
      ensures notice == OrderPlaced ==> carrito == [] && loaded == productos
      ensures notice != OrderPlaced ==> carrito == old(carrito) && loaded == old(loaded)
    {
      if |carrito| == 0 {
        return None, EmptyCart;
      }
      request := Some(Payload(carrito));
      if created {
        carrito := [];
        loaded := productos;
        notice := OrderPlaced;
      } else {
        notice := OrderFailed;
      }
    }
  }
}
