/**
 * The records of api/models.py: users, products, orders and order items,
 * the database that holds them, what deleting a row does to the rows that
 * refer to it, and the price-snapshot rule of `OrderItem.save`.
 */
module Models {
  import opened Shared

  /** Money columns are `DecimalField(max_digits=10, decimal_places=2)`; the model counts cents. */
  type Cents = int

  type UserId = nat
  type ProductId = int
  type OrderId = nat

  /** `Order.STATUS_CHOICES`. */
  datatype Status = Pending | Paid | Shipped | Delivered | Cancelled

  /** `status = CharField(max_length=10, choices=STATUS_CHOICES, default='PENDING')`. */
  const DefaultStatus := Pending
  const StatusMaxLength := 10

  /** The code stored in the status column for each choice. */
  function StatusCode(s: Status): (code: string)
    ensures 0 < |code| <= StatusMaxLength
  {
    match s
    case Pending => "PENDING"
    case Paid => "PAID"
    case Shipped => "SHIPPED"
    case Delivered => "DELIVERED"
    case Cancelled => "CANCELLED"
  }

  /** The choice a stored code stands for; `None` for a value outside the choices. */
  function ParseStatus(code: string): (r: Option<Status>)
    ensures r.Some? ==> StatusCode(r.value) == code
  {
    if code == "PENDING" then Some(Pending)
    else if code == "PAID" then Some(Paid)
    else if code == "SHIPPED" then Some(Shipped)
    else if code == "DELIVERED" then Some(Delivered)
    else if code == "CANCELLED" then Some(Cancelled)
    else None
  }

  /** Every choice is read back as itself, so the five codes are pairwise distinct. */
  lemma StatusCodeRoundTrip(s: Status)
    ensures ParseStatus(StatusCode(s)) == Some(s)
  {
  }

  /** `CustomUser`: email is the login key and is unique; `is_staff` defaults to false. */
  datatype User = User(username: string, email: string, firstName: string, lastName: string, isStaff: bool)

  /** `Product`: `stock_quantity` is a `PositiveIntegerField` (zero allowed), hence `nat`. */
  datatype Product = Product(title: string, description: string, price: Cents, stock: nat)

  /** `Order`: owned by one user. */
  datatype Order = Order(user: UserId, status: Status, total: Cents)

  /** `OrderItem`: `product` becomes `None` when the product row is deleted. */
  datatype OrderItem = OrderItem(order: OrderId, product: Option<ProductId>, quantity: nat, price: Cents)

  /** `Order.objects.create(user=user, status='PENDING')`: `total_amount` takes its default 0.00. */
  function NewOrder(user: UserId): Order {
    Order(user, DefaultStatus, 0)
  }

  /**
   * The tables. Items are kept in insertion order; the next-key counters
   * stand for the auto-increment primary keys.
   */
  datatype Db = Db(
    users: map<UserId, User>,
    products: map<ProductId, Product>,
    orders: map<OrderId, Order>,
    items: seq<OrderItem>,
    nextUser: UserId,
    nextProduct: nat,
    nextOrder: OrderId)

  /** An item's foreign keys point at existing rows. */
  ghost predicate ItemLinked(db: Db, it: OrderItem) {
    it.order in db.orders && (it.product.Some? ==> it.product.value in db.products)
  }

  /** Referential integrity, and every key below the counter that will issue the next one. */
  ghost predicate Integrity(db: Db) {
    && (forall u :: u in db.users ==> u < db.nextUser)
    && (forall p :: p in db.products ==> p < db.nextProduct)
    && (forall o :: o in db.orders ==> o < db.nextOrder && db.orders[o].user in db.users)
    && (forall it :: it in db.items ==> ItemLinked(db, it))
  }

  /** `on_delete=SET_NULL`: the items that referred to product `pid` lose the reference and nothing else. */
  function UnlinkProduct(items: seq<OrderItem>, pid: ProductId): (r: seq<OrderItem>)
    ensures |r| == |items|
    ensures forall k :: 0 <= k < |items| ==>
      r[k] == if items[k].product == Some(pid) then items[k].(product := None) else items[k]
  {
    if items == [] then []
    else
      var it := items[0];
      [if it.product == Some(pid) then it.(product := None) else it] + UnlinkProduct(items[1..], pid)
  }

  /** `on_delete=CASCADE`: the items that belong to none of the orders in `gone`, in their order. */
  function ItemsOutside(items: seq<OrderItem>, gone: set<OrderId>): (r: seq<OrderItem>)
    ensures |r| <= |items|
    ensures forall it :: it in r <==> it in items && it.order !in gone
    ensures forall it :: multiset(r)[it] == if it.order in gone then 0 else multiset(items)[it]
  {
    if items == [] then []
    else
      assert items == [items[0]] + items[1..];
      if items[0].order in gone then ItemsOutside(items[1..], gone)
      else [items[0]] + ItemsOutside(items[1..], gone)
  }

  /** Deleting product `pid`: its row goes, and the items that referred to it lose the reference. */
  function DeleteProduct(db: Db, pid: ProductId): (r: Db)
    ensures r.products == db.products - {pid} && r.users == db.users && r.orders == db.orders
    ensures |r.items| == |db.items|
    ensures forall k :: 0 <= k < |db.items| ==>
      r.items[k] == if db.items[k].product == Some(pid) then db.items[k].(product := None) else db.items[k]
    ensures forall it :: it in r.items ==> it.product != Some(pid)
  {
    db.(products := db.products - {pid}, items := UnlinkProduct(db.items, pid))
  }

  /** Deleting order `oid`: its row goes, and every copy of each of its items with it. */
  function DeleteOrder(db: Db, oid: OrderId): (r: Db)
    ensures r.orders == db.orders - {oid} && r.users == db.users && r.products == db.products
    ensures forall it :: multiset(r.items)[it] == if it.order == oid then 0 else multiset(db.items)[it]
  {
    db.(orders := db.orders - {oid}, items := ItemsOutside(db.items, {oid}))
  }

  /** The orders owned by `uid`. */
  function OrdersOf(db: Db, uid: UserId): set<OrderId> {
    set o | o in db.orders && db.orders[o].user == uid
  }

  /** Deleting a user cascades to their orders, and from those to the orders' items. */
  function DeleteUser(db: Db, uid: UserId): (r: Db)
    ensures r.users == db.users - {uid} && r.products == db.products
    ensures r.orders == db.orders - OrdersOf(db, uid)
    ensures forall o :: o in r.orders ==> r.orders[o].user != uid
    ensures forall it :: multiset(r.items)[it] == if it.order in OrdersOf(db, uid) then 0 else multiset(db.items)[it]
  {
    var gone := OrdersOf(db, uid);
    db.(users := db.users - {uid}, orders := db.orders - gone, items := ItemsOutside(db.items, gone))
  }

  /**
   * Deleting a product keeps every item, with its order, quantity and
   * price_at_purchase; only the reference to that product is cleared.
   */
  lemma DeleteProductKeepsItems(db: Db, pid: ProductId)
    requires Integrity(db)
    ensures var r := DeleteProduct(db, pid);
      && Integrity(r)
      && |r.items| == |db.items|
      && (forall k :: 0 <= k < |db.items| ==>
            && r.items[k].order == db.items[k].order
            && r.items[k].quantity == db.items[k].quantity
            && r.items[k].price == db.items[k].price
            && r.items[k].product != Some(pid)
            && (db.items[k].product != Some(pid) ==> r.items[k].product == db.items[k].product))
  {
    var r := DeleteProduct(db, pid);
    forall it | it in r.items
      ensures ItemLinked(r, it)
    {
      var k :| 0 <= k < |r.items| && r.items[k] == it;
      assert db.items[k] in db.items;
    }
  }

  /**
   * Deleting an order removes exactly it and its items, every other order
   * and every copy of every other item stays, and integrity is kept.
   */
  lemma DeleteOrderRemovesItems(db: Db, oid: OrderId)
    requires Integrity(db)
    ensures var r := DeleteOrder(db, oid);
      && Integrity(r)
      && r.orders == db.orders - {oid}
      && (forall it :: multiset(r.items)[it] == if it.order == oid then 0 else multiset(db.items)[it])
  {
  }

  /**
   * Deleting a user removes exactly them, their orders and those orders'
   * items; every other user, order and copy of an item stays, and
   * integrity is kept.
   */
  lemma DeleteUserCascades(db: Db, uid: UserId)
    requires Integrity(db)
    ensures var r := DeleteUser(db, uid);
      && Integrity(r)
      && r.users == db.users - {uid}
      && r.orders == db.orders - OrdersOf(db, uid)
      && (forall o :: o in r.orders ==> r.orders[o].user != uid)
      && (forall it :: multiset(r.items)[it] == if it.order in OrdersOf(db, uid) then 0 else multiset(db.items)[it])
  {
  }

  /** The related product as an `OrderItem` instance holds it: its key and the row as loaded. */
  datatype ProductRef = ProductRef(id: ProductId, row: Product)

  /** `not self.price_at_purchase`: true while the price is unset (None) or zero. */
  predicate PriceUnset(price: Option<Cents>) {
    price.None? || price.value == 0
  }

  /** The price `OrderItem.save` leaves in place before writing the row. */
  function SnapshotPrice(price: Option<Cents>, product: Option<ProductRef>): (r: Option<Cents>)
    ensures r.Some? <==> price.Some? || product.Some?
    ensures !PriceUnset(price) ==> r == price
    ensures PriceUnset(price) && product.None? ==> r == price
  {
    if PriceUnset(price) && product.Some? then Some(product.value.row.price) else price
  }

  /** An unset or zero price is replaced by the attached product's current price. */
  lemma SnapshotTakesProductPrice(price: Option<Cents>, product: Option<ProductRef>)
    requires PriceUnset(price) && product.Some?
    ensures SnapshotPrice(price, product) == Some(product.value.row.price)
  {
  }

  /**
   * A set price is never overwritten: whatever the product's price is now,
   * and whether or not the product still exists, saving keeps the snapshot.
   */
  lemma SnapshotSurvivesRepricing(price: Option<Cents>, now: Option<ProductRef>, later: Option<ProductRef>)
    requires !PriceUnset(price)
    ensures SnapshotPrice(price, now) == price
    ensures SnapshotPrice(price, later) == price
  {
  }

  /** Saving twice stores what saving once stores. */
  lemma SnapshotIdempotent(price: Option<Cents>, product: Option<ProductRef>)
    ensures SnapshotPrice(SnapshotPrice(price, product), product) == SnapshotPrice(price, product)
  {
  }

  /** An `OrderItem` instance before and after it is saved. */
  class ItemRow {
    var order: OrderId
    var product: Option<ProductRef>
    var quantity: nat
    var priceAtPurchase: Option<Cents>

    constructor (order: OrderId, product: Option<ProductRef>, quantity: nat, priceAtPurchase: Option<Cents>)
      ensures this.order == order && this.product == product
      ensures this.quantity == quantity && this.priceAtPurchase == priceAtPurchase
    {
      this.order := order;
      this.product := product;
      this.quantity := quantity;
      this.priceAtPurchase := priceAtPurchase;
    }

    /**
     * `OrderItem.save`: fill in the price from the product when it is
     * unset, then write the row. The column is NOT NULL, so a row whose
     * price is still unset is refused and `None` is returned.
     */
    method Save() returns (row: Option<OrderItem>)
      modifies this`priceAtPurchase
      ensures priceAtPurchase == SnapshotPrice(old(priceAtPurchase), product)
      ensures row.Some? <==> priceAtPurchase.Some?
      ensures row.Some? ==> row.value == OrderItem(order, ProductKey(product), quantity, priceAtPurchase.value)
    {
      if PriceUnset(priceAtPurchase) && product.Some? {
        priceAtPurchase := Some(product.value.row.price);
      }
      if priceAtPurchase.Some? {
        row := Some(OrderItem(order, ProductKey(product), quantity, priceAtPurchase.value));
      } else {
        row := None;
      }
    }
  }

  /**
   * `OrderItem.objects.create(order=…, product=product, quantity=…,
   * price_at_purchase=product.price)`: the row is saved once and carries
   * the product's current price.
   */
  method CreateItem(order: OrderId, product: ProductRef, quantity: nat) returns (item: OrderItem)
    ensures item == OrderItem(order, Some(product.id), quantity, product.row.price)
  {
    var row := new ItemRow(order, Some(product), quantity, Some(product.row.price));
    var saved := row.Save();
    item := saved.value;
  }

  /** The foreign-key column of a related product. */
  function ProductKey(product: Option<ProductRef>): Option<ProductId> {
    match product
    case Some(p) => Some(p.id)
    case None => None
  }
}
