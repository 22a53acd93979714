/**
 * The order and catalog endpoints of api/routers.py over the tables of
 * `Models`: `create_order` (one atomic transaction), the guards of
 * `register_user` and `create_product`, and the owner-scoped `get_order`.
 */
module Orders {
  import opened Shared
  import opened Models

  /** One entry of `OrderCreateSchema.items` (`product_id: int`, `quantity: int`). */
  datatype Line = Line(productId: ProductId, quantity: int)

  /** The caller `request.auth` stands for; `None` when there is none. */
  datatype Principal = Principal(id: UserId, isStaff: bool)

  /** What an endpoint answers. */
  datatype Response =
    | OrderCreated(orderId: OrderId)
    | AuthRequired                              // "Authentication required"
    | EmptyOrder                                // "Order must contain at least one item"
    | ProductNotFound(productId: ProductId)     // "Product with id {id} not found"
    | NotEnoughStock(title: string, available: nat)  // "Not enough stock for {title}. Available: {n}"
    | DatabaseError                             // an uncaught exception (a column constraint, or create_user's own check): 500
    | UserCreated(userId: UserId)
    | EmailTaken                                // "Email already registered"
    | PermissionDenied                          // "You do not have permission to perform this action"
    | ProductCreated(productId: ProductId)
    | OrderFound(orderId: OrderId, order: Order, items: seq<OrderItem>)
    | OrderNotFound
  {
    function HttpStatus(): int {
      match this
      case OrderCreated(_) => 200
      case AuthRequired => 401
      case EmptyOrder => 400
      case ProductNotFound(_) => 404
      case NotEnoughStock(_, _) => 400
      case DatabaseError => 500
      case UserCreated(_) => 200
      case EmailTaken => 400
      case PermissionDenied => 403
      case ProductCreated(_) => 200
      case OrderFound(_, _, _) => 200
      case OrderNotFound => 404
    }
  }

  /** The database after a request, and the answer. */
  datatype Outcome = Outcome(db: Db, response: Response)

  // ---------------------------------------------------------------------
  // create_order

  /** The state the loop of `create_order` carries: product rows, item rows, running total. */
  datatype Progress = Progress(products: map<ProductId, Product>, items: seq<OrderItem>, total: Cents)

  /** How the loop ends. */
  datatype WalkEnd =
    | Done(last: Progress)
    | Missing(last: Progress, productId: ProductId)
    | Short(title: string, available: nat)
    | NegativeQuantity

  /**
   * The loop over the requested lines, in the caller's order, for order
   * `oid`: each product is read again, its stock checked, its price copied
   * into a new item, its stock decreased, and the amount added to the total.
   */
  function Walk(oid: OrderId, p: Progress, lines: seq<Line>): WalkEnd
    decreases |lines|
  {
    if lines == [] then Done(p)
    else
      var line := lines[0];
      if line.productId !in p.products then Missing(p, line.productId)
      else
        var product := p.products[line.productId];
        if product.stock < line.quantity then Short(product.title, product.stock)
        else if line.quantity < 0 then NegativeQuantity
        else
          var q: nat := line.quantity;
          Walk(oid, Progress(
            p.products[line.productId := product.(stock := product.stock - q)],
            p.items + [OrderItem(oid, Some(line.productId), q, product.price)],
            p.total + product.price * q), lines[1..])
  }

  /**
   * `create_order` under `@transaction.atomic`. A rollback restores the
   * database as it was before the call. A missing product returns without
   * marking the rollback (the `set_rollback` call is commented out), so the
   * block exits normally and commits: the order row, with its total still
   * 0, and everything the earlier lines did, stay.
   */
  function PlaceOrder(db: Db, auth: Option<Principal>, lines: seq<Line>): (out: Outcome)
    ensures out.db.users == db.users && out.db.nextUser == db.nextUser && out.db.nextProduct == db.nextProduct
    ensures out.db.products.Keys == db.products.Keys
    ensures !out.response.OrderCreated? && !out.response.ProductNotFound? ==> out.db == db
    ensures out.response.OrderCreated? || out.response.ProductNotFound? ==>
      auth.Some? && lines != [] && out.db.nextOrder == db.nextOrder + 1
      && db.nextOrder in out.db.orders && out.db.orders[db.nextOrder].user == auth.value.id
      && out.db.orders[db.nextOrder].status == Pending
    ensures out.response.OrderCreated? ==> out.response.orderId == db.nextOrder
  {
    if auth.None? then Outcome(db, AuthRequired)
    else if lines == [] then Outcome(db, EmptyOrder)
    else
      var oid := db.nextOrder;
      var started := db.(orders := db.orders[oid := NewOrder(auth.value.id)], nextOrder := oid + 1);
      WalkShape(oid, Progress(db.products, db.items, 0), lines);
      match Walk(oid, Progress(db.products, db.items, 0), lines)
      case Done(p) =>
        Outcome(started.(products := p.products, items := p.items,
                        orders := db.orders[oid := NewOrder(auth.value.id).(total := p.total)]),
                OrderCreated(oid))
      case Missing(p, pid) => Outcome(started.(products := p.products, items := p.items), ProductNotFound(pid))
      case Short(title, available) => Outcome(db, NotEnoughStock(title, available))
      case NegativeQuantity => Outcome(db, DatabaseError)
  }

  /**
   * Whichever way the loop ends it has only lowered stock, never added or
   * removed a product; a walk that runs to the end appended one item per
   * line, and a walk that stops at a missing product appended fewer.
   */
  lemma {:induction false} WalkShape(oid: OrderId, p: Progress, lines: seq<Line>)
    ensures var r := Walk(oid, p, lines);
      && (r.Done? || r.Missing? ==> r.last.products.Keys == p.products.Keys)
      && (r.Done? ==> |r.last.items| == |p.items| + |lines|)
      && (r.Missing? ==> r.productId !in p.products && |r.last.items| < |p.items| + |lines|)
    decreases |lines|
  {
    if lines != [] && lines[0].productId in p.products {
      var line := lines[0];
      var product := p.products[line.productId];
      if product.stock >= line.quantity >= 0 {
        var q: nat := line.quantity;
        WalkShape(oid, Progress(
          p.products[line.productId := product.(stock := product.stock - q)],
          p.items + [OrderItem(oid, Some(line.productId), q, product.price)],
          p.total + product.price * q), lines[1..]);
      }
    }
  }

  /** The sum of the requested quantities of product `pid`. */
  function Requested(lines: seq<Line>, pid: ProductId): int {
    if lines == [] then 0
    else (if lines[0].productId == pid then lines[0].quantity else 0) + Requested(lines[1..], pid)
  }

  /** price_at_purchase × quantity. */
  function Amount(it: OrderItem): Cents {
    it.price * it.quantity
  }

  function ItemsTotal(items: seq<OrderItem>): Cents {
    if items == [] then 0 else Amount(items[0]) + ItemsTotal(items[1..])
  }

  /** The sum of the amounts of the items of order `oid`. */
  function OrderTotal(items: seq<OrderItem>, oid: OrderId): Cents {
    if items == [] then 0
    else (if items[0].order == oid then Amount(items[0]) else 0) + OrderTotal(items[1..], oid)
  }

  /** Every line names an existing product and asks for a quantity of at least 0. */
  ghost predicate LinesWellFormed(products: map<ProductId, Product>, lines: seq<Line>) {
    forall k :: 0 <= k < |lines| ==> lines[k].productId in products && lines[k].quantity >= 0
  }

  /** The lines can all be served: for every product, the sum requested is within its stock. */
  ghost predicate Feasible(products: map<ProductId, Product>, lines: seq<Line>) {
    && LinesWellFormed(products, lines)
    && (forall pid :: pid in products ==> Requested(lines, pid) <= products[pid].stock)
  }

  lemma {:induction false} RequestedNonNegative(products: map<ProductId, Product>, lines: seq<Line>, pid: ProductId)
    requires LinesWellFormed(products, lines)
    ensures Requested(lines, pid) >= 0
  {
    if lines != [] {
      assert LinesWellFormed(products, lines[1..]) by {
        forall k | 0 <= k < |lines| - 1
          ensures lines[1..][k].productId in products && lines[1..][k].quantity >= 0
        {
          assert lines[1..][k] == lines[k + 1];
        }
      }
      RequestedNonNegative(products, lines[1..], pid);
    }
  }

  /** A walk that ends `Done` met only well-formed lines. */
  lemma {:induction false} WalkDoneLines(oid: OrderId, p: Progress, lines: seq<Line>)
    requires Walk(oid, p, lines).Done?
    ensures LinesWellFormed(p.products, lines)
    ensures Walk(oid, p, lines).last.products.Keys == p.products.Keys
    decreases |lines|
  {
    if lines != [] {
      var line := lines[0];
      var product := p.products[line.productId];
      var q: nat := line.quantity;
      var next := Progress(
        p.products[line.productId := product.(stock := product.stock - q)],
        p.items + [OrderItem(oid, Some(line.productId), q, product.price)],
        p.total + product.price * q);
      WalkDoneLines(oid, next, lines[1..]);
      forall k | 0 <= k < |lines|
        ensures lines[k].productId in p.products && lines[k].quantity >= 0
      {
        if k > 0 { assert lines[k] == lines[1..][k - 1]; }
      }
    }
  }

  /**
   * A walk that ends `Done` appended one item per line, in the caller's
   * order, each holding its line's product and quantity and the price the
   * product had when it was read; the earlier items are untouched.
   */
  lemma {:induction false} WalkDoneItems(oid: OrderId, p: Progress, lines: seq<Line>)
    requires Walk(oid, p, lines).Done?
    ensures LinesWellFormed(p.products, lines)
    ensures var e := Walk(oid, p, lines).last;
      && |e.items| == |p.items| + |lines|
      && e.items[..|p.items|] == p.items
      && (forall k :: 0 <= k < |lines| ==>
            e.items[|p.items| + k] == OrderItem(oid, Some(lines[k].productId), lines[k].quantity, p.products[lines[k].productId].price))
    decreases |lines|
  {
    WalkDoneLines(oid, p, lines);
    if lines != [] {
      var line := lines[0];
      var product := p.products[line.productId];
      var q: nat := line.quantity;
      var next := Progress(
        p.products[line.productId := product.(stock := product.stock - q)],
        p.items + [OrderItem(oid, Some(line.productId), q, product.price)],
        p.total + product.price * q);
      WalkDoneItems(oid, next, lines[1..]);
      var e := Walk(oid, p, lines).last;
      assert e == Walk(oid, next, lines[1..]).last;
      assert e.items[..|p.items|] == e.items[..|next.items|][..|p.items|];
      forall k | 0 <= k < |lines|
        ensures e.items[|p.items| + k] == OrderItem(oid, Some(lines[k].productId), lines[k].quantity, p.products[lines[k].productId].price)
      {
        if k == 0 {
          assert e.items[|p.items|] == e.items[..|next.items|][|p.items|];
        } else {
          assert lines[k] == lines[1..][k - 1];
          var pid := lines[k].productId;
          assert next.products[pid].price == p.products[pid].price;
        }
      }
    }
  }

  /** A walk that ends `Done` added the amounts of the items it appended to the total. */
  lemma {:induction false} WalkDoneTotal(oid: OrderId, p: Progress, lines: seq<Line>)
    requires Walk(oid, p, lines).Done?
    ensures |Walk(oid, p, lines).last.items| >= |p.items|
    ensures Walk(oid, p, lines).last.total == p.total + ItemsTotal(Walk(oid, p, lines).last.items[|p.items|..])
    decreases |lines|
  {
    WalkDoneItems(oid, p, lines);
    if lines != [] {
      var line := lines[0];
      var product := p.products[line.productId];
      var q: nat := line.quantity;
      var it := OrderItem(oid, Some(line.productId), q, product.price);
      var next := Progress(
        p.products[line.productId := product.(stock := product.stock - q)],
        p.items + [it],
        p.total + product.price * q);
      WalkDoneTotal(oid, next, lines[1..]);
      var e := Walk(oid, p, lines).last;
      assert e == Walk(oid, next, lines[1..]).last;
      var added := e.items[|p.items|..];
      assert added[0] == e.items[|p.items| + 0] == it;
      assert added[1..] == e.items[|next.items|..];
    }
  }

  /**
   * A walk that ends `Done` lowered each product's stock by exactly the sum
   * of the quantities requested for it, and changed nothing else in the row.
   */
  lemma {:induction false} WalkDoneStock(oid: OrderId, p: Progress, lines: seq<Line>)
    requires Walk(oid, p, lines).Done?
    ensures var e := Walk(oid, p, lines).last;
      && e.products.Keys == p.products.Keys
      && (forall pid :: pid in p.products ==>
            e.products[pid] == p.products[pid].(stock := e.products[pid].stock)
            && e.products[pid].stock == p.products[pid].stock - Requested(lines, pid))
    decreases |lines|
  {
    WalkDoneLines(oid, p, lines);
    if lines != [] {
      var line := lines[0];
      var product := p.products[line.productId];
      var q: nat := line.quantity;
      var next := Progress(
        p.products[line.productId := product.(stock := product.stock - q)],
        p.items + [OrderItem(oid, Some(line.productId), q, product.price)],
        p.total + product.price * q);
      WalkDoneStock(oid, next, lines[1..]);
    }
  }

  /**
   * The loop runs to the end exactly when the lines are feasible: every
   * product exists, no quantity is negative, and for each product the sum
   * requested, over all lines naming it, is within its stock at the start.
   */
  lemma {:induction false} WalkSucceedsIff(oid: OrderId, p: Progress, lines: seq<Line>)
    ensures Walk(oid, p, lines).Done? <==> Feasible(p.products, lines)
    decreases |lines|
  {
    if Walk(oid, p, lines).Done? {
      WalkDoneStock(oid, p, lines);
      WalkDoneLines(oid, p, lines);
    } else if Feasible(p.products, lines) {
      var line := lines[0];
      var product := p.products[line.productId];
      RequestedNonNegative(p.products, lines[1..], line.productId) by {
        assert LinesWellFormed(p.products, lines[1..]) by {
          forall k | 0 <= k < |lines| - 1
            ensures lines[1..][k].productId in p.products && lines[1..][k].quantity >= 0
          {
            assert lines[1..][k] == lines[k + 1];
          }
        }
      }
      assert Requested(lines, line.productId) <= product.stock;
      var q: nat := line.quantity;
      var next := Progress(
        p.products[line.productId := product.(stock := product.stock - q)],
        p.items + [OrderItem(oid, Some(line.productId), q, product.price)],
        p.total + product.price * q);
      assert Feasible(next.products, lines[1..]) by {
        forall k | 0 <= k < |lines| - 1
          ensures lines[1..][k].productId in next.products && lines[1..][k].quantity >= 0
        {
          assert lines[1..][k] == lines[k + 1];
        }
      }
      WalkSucceedsIff(oid, next, lines[1..]);
      assert false;
    }
  }

  /**
   * When the loop stops for lack of stock, the stock it reports is the
   * product's stock at the start minus what the earlier lines took of the
   * same product: the check is cumulative over repeated product ids.
   */
  lemma {:induction false} WalkShortReportsRemaining(oid: OrderId, p: Progress, lines: seq<Line>)
    requires Walk(oid, p, lines).Short?
    ensures exists k ::
      && 0 <= k < |lines| && lines[k].productId in p.products
      && Walk(oid, p, lines).title == p.products[lines[k].productId].title
      && Walk(oid, p, lines).available == p.products[lines[k].productId].stock - Requested(lines[..k], lines[k].productId)
      && Walk(oid, p, lines).available < lines[k].quantity
    decreases |lines|
  {
    var line := lines[0];
    var product := p.products[line.productId];
    if product.stock < line.quantity {
      assert lines[..0] == [];
      assert Requested(lines[..0], line.productId) == 0;
    } else {
      var q: nat := line.quantity;
      var next := Progress(
        p.products[line.productId := product.(stock := product.stock - q)],
        p.items + [OrderItem(oid, Some(line.productId), q, product.price)],
        p.total + product.price * q);
      WalkShortReportsRemaining(oid, next, lines[1..]);
      var k :| 0 <= k < |lines[1..]| && lines[1..][k].productId in next.products
        && Walk(oid, next, lines[1..]).title == next.products[lines[1..][k].productId].title
        && Walk(oid, next, lines[1..]).available == next.products[lines[1..][k].productId].stock - Requested(lines[1..][..k], lines[1..][k].productId)
        && Walk(oid, next, lines[1..]).available < lines[1..][k].quantity;
      assert lines[1..][k] == lines[k + 1];
      assert lines[..k + 1][1..] == lines[1..][..k];
      assert lines[..k + 1][0] == line;
    }
  }

  /** A walk that stops at a missing product only appended items of order `oid`. */
  lemma {:induction false} WalkMissingAppends(oid: OrderId, p: Progress, lines: seq<Line>)
    requires Walk(oid, p, lines).Missing?
    ensures var e := Walk(oid, p, lines).last;
      && Walk(oid, p, lines).productId !in p.products
      && |e.items| >= |p.items| && e.items[..|p.items|] == p.items
      && (forall k :: |p.items| <= k < |e.items| ==>
            e.items[k].order == oid && e.items[k].product.Some? && e.items[k].product.value in p.products)
      && e.products.Keys == p.products.Keys
    decreases |lines|
  {
    var line := lines[0];
    if line.productId in p.products {
      var product := p.products[line.productId];
      var q: nat := line.quantity;
      var next := Progress(
        p.products[line.productId := product.(stock := product.stock - q)],
        p.items + [OrderItem(oid, Some(line.productId), q, product.price)],
        p.total + product.price * q);
      WalkMissingAppends(oid, next, lines[1..]);
      var e := Walk(oid, p, lines).last;
      assert e.items[..|p.items|] == e.items[..|next.items|][..|p.items|];
      assert e.items[|p.items|] == e.items[..|next.items|][|p.items|];
    }
  }

  /** Unauthenticated and empty requests are refused before anything is written. */
  lemma PlaceOrderGuards(db: Db, auth: Option<Principal>, lines: seq<Line>)
    requires auth.None? || lines == []
    ensures PlaceOrder(db, auth, lines).db == db
    ensures PlaceOrder(db, auth, lines).response == if auth.None? then AuthRequired else EmptyOrder
    ensures PlaceOrder(db, auth, lines).response.HttpStatus() == if auth.None? then 401 else 400
  {
  }

  /**
   * A created order is a new PENDING order of the caller whose total is the
   * sum of price_at_purchase × quantity over its items; its items are the
   * requested lines, in order, each priced at the product's current price;
   * every product's stock fell by the sum requested for it, and that sum
   * was within the stock, so no stock went below zero.
   */
  lemma PlaceOrderCreates(db: Db, auth: Option<Principal>, lines: seq<Line>)
    requires Integrity(db)
    requires PlaceOrder(db, auth, lines).response.OrderCreated?
    ensures auth.Some? && lines != []
    ensures var out := PlaceOrder(db, auth, lines).db;
      var oid := db.nextOrder;
      && PlaceOrder(db, auth, lines).response == OrderCreated(oid)
      && oid !in db.orders
      && |out.items| == |db.items| + |lines|
      && out.orders == db.orders[oid := Order(auth.value.id, Pending, ItemsTotal(out.items[|db.items|..]))]
      && out.users == db.users
      && Feasible(db.products, lines)
      && out.items[..|db.items|] == db.items
      && (forall k :: 0 <= k < |lines| ==>
            out.items[|db.items| + k] == OrderItem(oid, Some(lines[k].productId), lines[k].quantity, db.products[lines[k].productId].price))
      && out.products.Keys == db.products.Keys
      && (forall pid :: pid in db.products ==>
            out.products[pid] == db.products[pid].(stock := out.products[pid].stock)
            && out.products[pid].stock == db.products[pid].stock - Requested(lines, pid))
  {
    var oid := db.nextOrder;
    var start := Progress(db.products, db.items, 0);
    WalkDoneItems(oid, start, lines);
    WalkDoneTotal(oid, start, lines);
    WalkDoneStock(oid, start, lines);
    WalkSucceedsIff(oid, start, lines);
  }

  /**
   * Two orders that together ask for more of a product than it has in stock
   * cannot both be created, whichever callers place them: once the first
   * is created the second is refused.
   */
  lemma NoOversell(db: Db, first: Option<Principal>, a: seq<Line>, second: Option<Principal>, b: seq<Line>, pid: ProductId)
    requires Integrity(db)
    requires PlaceOrder(db, first, a).response.OrderCreated?
    requires pid in db.products
    requires Requested(a, pid) + Requested(b, pid) > db.products[pid].stock
    ensures !PlaceOrder(PlaceOrder(db, first, a).db, second, b).response.OrderCreated?
  {
    PlaceOrderCreates(db, first, a);
    var mid := PlaceOrder(db, first, a).db;
    WalkSucceedsIff(mid.nextOrder, Progress(mid.products, mid.items, 0), b);
  }

  /** A line asking for more than is left rolls everything back; the answer names the product and what was left. */
  lemma PlaceOrderShortStock(db: Db, auth: Option<Principal>, lines: seq<Line>)
    requires PlaceOrder(db, auth, lines).response.NotEnoughStock?
    ensures PlaceOrder(db, auth, lines).db == db
    ensures !Feasible(db.products, lines)
    ensures var r := PlaceOrder(db, auth, lines).response;
      exists k :: 0 <= k < |lines| && lines[k].productId in db.products
        && r.title == db.products[lines[k].productId].title
        && r.available == db.products[lines[k].productId].stock - Requested(lines[..k], lines[k].productId)
        && r.available < lines[k].quantity
  {
    var start := Progress(db.products, db.items, 0);
    WalkSucceedsIff(db.nextOrder, start, lines);
    WalkShortReportsRemaining(db.nextOrder, start, lines);
  }

  /** The walk from line `i` on decides that line first, as one turn of the loop does. */
  lemma WalkAt(oid: OrderId, p: Progress, lines: seq<Line>, i: nat)
    requires i < |lines|
    ensures var line := lines[i];
      Walk(oid, p, lines[i..]) ==
        if line.productId !in p.products then Missing(p, line.productId)
        else
          var product := p.products[line.productId];
          if product.stock < line.quantity then Short(product.title, product.stock)
          else if line.quantity < 0 then NegativeQuantity
          else Walk(oid, Progress(
            p.products[line.productId := product.(stock := product.stock - line.quantity)],
            p.items + [OrderItem(oid, Some(line.productId), line.quantity, product.price)],
            p.total + product.price * line.quantity), lines[i + 1..])
  {
    assert lines[i..][0] == lines[i] && lines[i..][1..] == lines[i + 1..];
  }

  /**
   * A walk that stops at a missing product is the walk that ran to the end
   * of the lines before that one: the progress it reports is exactly what
   * those earlier lines committed.
   */
  lemma {:induction false} WalkMissingIsDonePrefix(oid: OrderId, p: Progress, lines: seq<Line>)
    requires Walk(oid, p, lines).Missing?
    ensures exists k ::
      && 0 <= k < |lines|
      && lines[k].productId == Walk(oid, p, lines).productId
      && Walk(oid, p, lines[..k]) == Done(Walk(oid, p, lines).last)
    decreases |lines|
  {
    var w := Walk(oid, p, lines);
    var line := lines[0];
    if line.productId !in p.products {
      assert lines[..0] == [];
      assert lines[0].productId == w.productId && Walk(oid, p, lines[..0]) == Done(w.last);
    } else {
      var product := p.products[line.productId];
      var q: nat := line.quantity;
      var next := Progress(
        p.products[line.productId := product.(stock := product.stock - q)],
        p.items + [OrderItem(oid, Some(line.productId), q, product.price)],
        p.total + product.price * q);
      assert w == Walk(oid, next, lines[1..]);
      WalkMissingIsDonePrefix(oid, next, lines[1..]);
      var j :| 0 <= j < |lines[1..]| && lines[1..][j].productId == w.productId
        && Walk(oid, next, lines[1..][..j]) == Done(w.last);
      var k := j + 1;
      assert lines[..k][0] == line;
      assert lines[..k][1..] == lines[1..][..j];
      assert Walk(oid, p, lines[..k]) == Walk(oid, next, lines[1..][..j]);
      assert lines[k] == lines[1..][j];
    }
  }

  /**
   * A walk that stops at a missing product has appended one item per
   * earlier line and lowered the stock by what those lines requested; the
   * earlier lines were all satisfiable.
   */
  lemma WalkMissingCommits(oid: OrderId, p: Progress, lines: seq<Line>)
    requires Walk(oid, p, lines).Missing?
    ensures Walk(oid, p, lines).last.products.Keys == p.products.Keys
    ensures var e := Walk(oid, p, lines).last;
      exists k ::
        && 0 <= k < |lines|
        && lines[k].productId == Walk(oid, p, lines).productId
        && Feasible(p.products, lines[..k])
        && |e.items| == |p.items| + k
        && e.items[..|p.items|] == p.items
        && (forall j :: 0 <= j < k ==>
              e.items[|p.items| + j] == OrderItem(oid, Some(lines[j].productId), lines[j].quantity, p.products[lines[j].productId].price))
        && (forall pid :: pid in p.products ==>
              e.products[pid] == p.products[pid].(stock := p.products[pid].stock - Requested(lines[..k], pid)))
  {
    var w := Walk(oid, p, lines);
    WalkShape(oid, p, lines);
    WalkMissingIsDonePrefix(oid, p, lines);
    var k :| 0 <= k < |lines| && lines[k].productId == w.productId && Walk(oid, p, lines[..k]) == Done(w.last);
    WalkDonePrefix(oid, p, lines, k);
  }

  /** What a walk over the first `k` lines that runs to the end committed, stated in terms of the whole list. */
  lemma WalkDonePrefix(oid: OrderId, p: Progress, lines: seq<Line>, k: nat)
    requires k <= |lines| && Walk(oid, p, lines[..k]).Done?
    ensures var e := Walk(oid, p, lines[..k]).last;
      && Feasible(p.products, lines[..k])
      && |e.items| == |p.items| + k
      && e.items[..|p.items|] == p.items
      && (forall j :: 0 <= j < k ==>
            lines[j].productId in p.products && lines[j].quantity >= 0
            && e.items[|p.items| + j] == OrderItem(oid, Some(lines[j].productId), lines[j].quantity, p.products[lines[j].productId].price))
      && (forall pid :: pid in p.products ==>
            pid in e.products && e.products[pid] == p.products[pid].(stock := p.products[pid].stock - Requested(lines[..k], pid)))
  {
    var done := lines[..k];
    var e := Walk(oid, p, done).last;
    WalkDoneItems(oid, p, done);
    WalkDoneStock(oid, p, done);
    WalkSucceedsIff(oid, p, done);
    forall j | 0 <= j < k
      ensures lines[j].productId in p.products && lines[j].quantity >= 0
      ensures e.items[|p.items| + j] == OrderItem(oid, Some(lines[j].productId), lines[j].quantity, p.products[lines[j].productId].price)
    {
      assert done[j] == lines[j];
    }
  }


  /**
   * A missing product answers 404 and commits what came before it: the
   * order row stays, PENDING with total 0, next to one item per earlier
   * line and the stock decrements of those lines; the earlier lines were
   * all satisfiable.
   */
  lemma PlaceOrderMissingCommits(db: Db, auth: Option<Principal>, lines: seq<Line>)
    requires PlaceOrder(db, auth, lines).response.ProductNotFound?
    ensures auth.Some?
    ensures var out := PlaceOrder(db, auth, lines).db;
      var oid := db.nextOrder;
      && PlaceOrder(db, auth, lines).response.productId !in db.products
      && out.orders == db.orders[oid := Order(auth.value.id, Pending, 0)]
      && out.nextOrder == oid + 1
      && out.products.Keys == db.products.Keys
    ensures var out := PlaceOrder(db, auth, lines).db;
      var oid := db.nextOrder;
      exists k ::
        && 0 <= k < |lines|
        && lines[k].productId == PlaceOrder(db, auth, lines).response.productId
        && Feasible(db.products, lines[..k])
        && |out.items| == |db.items| + k
        && out.items[..|db.items|] == db.items
        && (forall j :: 0 <= j < k ==>
              out.items[|db.items| + j] == OrderItem(oid, Some(lines[j].productId), lines[j].quantity, db.products[lines[j].productId].price))
        && (forall pid :: pid in db.products ==>
              out.products[pid] == db.products[pid].(stock := db.products[pid].stock - Requested(lines[..k], pid)))
  {
    var start := Progress(db.products, db.items, 0);
    var w := Walk(db.nextOrder, start, lines);
    var result := PlaceOrder(db, auth, lines);
    assert w.Missing? && result.response.productId == w.productId;
    assert result.db.items == w.last.items && result.db.products == w.last.products;
    WalkShape(db.nextOrder, start, lines);
    WalkMissingCommits(db.nextOrder, start, lines);
  }

  /** An authenticated caller is a registered user; under that, every outcome keeps referential integrity. */
  lemma PlaceOrderKeepsIntegrity(db: Db, auth: Option<Principal>, lines: seq<Line>)
    requires Integrity(db)
    requires auth.Some? ==> auth.value.id in db.users
    ensures Integrity(PlaceOrder(db, auth, lines).db)
  {
    var out := PlaceOrder(db, auth, lines);
    var oid := db.nextOrder;
    var start := Progress(db.products, db.items, 0);
    if out.response.OrderCreated? {
      PlaceOrderCreates(db, auth, lines);
      forall it | it in out.db.items
        ensures ItemLinked(out.db, it)
      {
        var k :| 0 <= k < |out.db.items| && out.db.items[k] == it;
        if k < |db.items| {
          assert it == out.db.items[..|db.items|][k] == db.items[k];
          assert db.items[k] in db.items;
        } else {
          var j := k - |db.items|;
          var line := lines[j];
          assert it == out.db.items[|db.items| + j];
          assert it.order == oid && oid in out.db.orders;
        }
      }
    } else if out.response.ProductNotFound? {
      WalkMissingAppends(oid, start, lines);
      forall it | it in out.db.items
        ensures ItemLinked(out.db, it)
      {
        var k :| 0 <= k < |out.db.items| && out.db.items[k] == it;
        if k < |db.items| {
          assert it == out.db.items[..|db.items|][k] == db.items[k];
          assert db.items[k] in db.items;
        } else {
          assert it.order == oid && it.product.Some? && it.product.value in db.products;
        }
      }
    }
  }

  // ---------------------------------------------------------------------
  // Order totals and the missing-product path

  /** Every order's total_amount is the sum of its items' amounts. */
  ghost predicate TotalsMatch(db: Db) {
    forall o :: o in db.orders ==> db.orders[o].total == OrderTotal(db.items, o)
  }

  lemma {:induction false} OrderTotalAppend(a: seq<OrderItem>, b: seq<OrderItem>, oid: OrderId)
    ensures OrderTotal(a + b, oid) == OrderTotal(a, oid) + OrderTotal(b, oid)
  {
    if a != [] {
      assert (a + b)[1..] == a[1..] + b;
      OrderTotalAppend(a[1..], b, oid);
    } else {
      assert a + b == b;
    }
  }

  /** Items all of one order add up, for that order, to their plain total, and to nothing for any other. */
  lemma {:induction false} OrderTotalOfOneOrder(items: seq<OrderItem>, oid: OrderId, other: OrderId)
    requires forall k :: 0 <= k < |items| ==> items[k].order == oid
    requires other != oid
    ensures OrderTotal(items, oid) == ItemsTotal(items)
    ensures OrderTotal(items, other) == 0
  {
    if items != [] {
      OrderTotalOfOneOrder(items[1..], oid, other);
    }
  }

  /** Items of none of the orders in `db` add up to nothing for an order that is not there. */
  lemma {:induction false} OrderTotalOfAbsentOrder(items: seq<OrderItem>, oid: OrderId)
    requires forall k :: 0 <= k < |items| ==> items[k].order != oid
    ensures OrderTotal(items, oid) == 0
  {
    if items != [] {
      OrderTotalOfAbsentOrder(items[1..], oid);
    }
  }

  /** Every answer other than the missing-product one keeps order totals equal to their items' sums. */
  lemma PlaceOrderKeepsTotals(db: Db, auth: Option<Principal>, lines: seq<Line>)
    requires Integrity(db) && TotalsMatch(db)
    requires !PlaceOrder(db, auth, lines).response.ProductNotFound?
    ensures TotalsMatch(PlaceOrder(db, auth, lines).db)
  {
    var out := PlaceOrder(db, auth, lines);
    if out.response.OrderCreated? {
      PlaceOrderCreates(db, auth, lines);
      var oid := db.nextOrder;
      var added := out.db.items[|db.items|..];
      assert out.db.items == db.items + added;
      forall k | 0 <= k < |added|
        ensures added[k].order == oid
      {
        var line := lines[k];
        assert added[k] == out.db.items[|db.items| + k];
      }
      OrderTotalOfAbsentOrder(db.items, oid) by {
        forall k | 0 <= k < |db.items|
          ensures db.items[k].order != oid
        {
          assert db.items[k] in db.items;
        }
      }
      forall o | o in out.db.orders
        ensures out.db.orders[o].total == OrderTotal(out.db.items, o)
      {
        OrderTotalAppend(db.items, added, o);
        if o == oid {
          OrderTotalOfOneOrder(added, oid, oid + 1);
        } else {
          OrderTotalOfOneOrder(added, oid, o);
        }
      }
    }
  }

  /**
   * `create_order` with the missing-product branch marking the rollback as
   * the other error branches do: every failure leaves the database as it was.
   */
  function PlaceOrderAtomic(db: Db, auth: Option<Principal>, lines: seq<Line>): (out: Outcome)
    ensures out.response == PlaceOrder(db, auth, lines).response
    ensures out.response.OrderCreated? ==> out.db == PlaceOrder(db, auth, lines).db
    ensures !out.response.OrderCreated? ==> out.db == db
  {
    var out := PlaceOrder(db, auth, lines);
    if out.response.ProductNotFound? then Outcome(db, out.response) else out
  }

  /** All or nothing: with the rollback in place, a failed request changes nothing and order totals always match their items. */
  lemma AtomicKeepsTotals(db: Db, auth: Option<Principal>, lines: seq<Line>)
    requires Integrity(db) && TotalsMatch(db)
    ensures TotalsMatch(PlaceOrderAtomic(db, auth, lines).db)
    ensures !PlaceOrderAtomic(db, auth, lines).response.OrderCreated? ==> PlaceOrderAtomic(db, auth, lines).db == db
  {
    if !PlaceOrder(db, auth, lines).response.ProductNotFound? {
      PlaceOrderKeepsTotals(db, auth, lines);
    }
  }

  /**
   * As written, the missing-product path commits an order whose total_amount
   * (0.00) disagrees with the items stored for it: a 5.00 product bought
   * twice and then an unknown product id leave a PENDING order of total 0
   * holding 10.00 worth of items.
   */
  lemma PartialCommitBreaksTotals()
    ensures var db := Db(map[1 := User("ana", "ana@example.com", "", "", false)],
                         map[1 := Product("Lamp", "", 500, 5)], map[], [], 2, 2, 1);
      var out := PlaceOrder(db, Some(Principal(1, false)), [Line(1, 2), Line(99, 1)]);
      && Integrity(db) && TotalsMatch(db)
      && out.response == ProductNotFound(99)
      && out.db.orders[1].total == 0
      && OrderTotal(out.db.items, 1) == 1000
      && out.db.products[1].stock == 3
      && !TotalsMatch(out.db)
  {
    var db := Db(map[1 := User("ana", "ana@example.com", "", "", false)],
                 map[1 := Product("Lamp", "", 500, 5)], map[], [], 2, 2, 1);
    var lines := [Line(1, 2), Line(99, 1)];
    var it := OrderItem(1, Some(1), 2, 500);
    var after := Progress(map[1 := Product("Lamp", "", 500, 3)], [it], 1000);
    assert Walk(1, after, lines[1..]) == Missing(after, 99);
    assert Walk(1, Progress(db.products, [], 0), lines) == Missing(after, 99);
    assert OrderTotal([it], 1) == 1000;
  }

  /** The worked example: two units of a 9.99 product with five in stock. */
  lemma TwoUnitsExample()
    ensures var db := Db(map[3 := User("ana", "ana@example.com", "", "", false)],
                         map[7 := Product("Mug", "", 999, 5)], map[], [], 4, 8, 1);
      var out := PlaceOrder(db, Some(Principal(3, false)), [Line(7, 2)]);
      && out.response == OrderCreated(1)
      && out.db.orders[1] == Order(3, Pending, 1998)
      && out.db.products[7].stock == 3
      && out.db.items == [OrderItem(1, Some(7), 2, 999)]
  {
    var lines := [Line(7, 2)];
    var after := Progress(map[7 := Product("Mug", "", 999, 3)], [OrderItem(1, Some(7), 2, 999)], 1998);
    assert Walk(1, after, lines[1..]) == Done(after);
  }

  /** Asking for ten of a product with three left changes nothing and reports the three. */
  lemma TenOfThreeExample()
    ensures var db := Db(map[3 := User("ana", "ana@example.com", "", "", false)],
                         map[7 := Product("Mug", "", 999, 3)], map[], [], 4, 8, 1);
      var out := PlaceOrder(db, Some(Principal(3, false)), [Line(7, 10)]);
      && out.response == NotEnoughStock("Mug", 3)
      && out.db == db
  {
  }

  // ---------------------------------------------------------------------
  // register_user, create_product, get_order

  /** `UserCreateSchema`. */
  datatype Registration = Registration(
    username: string, email: string, password: string,
    firstName: Option<string>, lastName: Option<string>)

  predicate EmailRegistered(users: map<UserId, User>, email: string) {
    exists u :: u in users && users[u].email == email
  }

  predicate UsernameTaken(users: map<UserId, User>, username: string) {
    exists u :: u in users && users[u].username == username
  }

  /** No two users share an email (the unique constraint on `CustomUser.email`). */
  ghost predicate UniqueEmails(users: map<UserId, User>) {
    forall u, v :: u in users && v in users && users[u].email == users[v].email ==> u == v
  }

  /**
   * `register_user`: a registered email is refused; otherwise `create_user`
   * inserts the user. `create_user` itself raises on an empty username, and
   * the unique username column refuses a taken one; both escape as a 500.
   * The password is stored only as a hash, which the model leaves out.
   */
  function Register(db: Db, r: Registration): (out: Outcome)
    ensures out.response.UserCreated? || out.db == db
    ensures out.response == EmailTaken <==> EmailRegistered(db.users, r.email)
    ensures out.response == DatabaseError <==>
      !EmailRegistered(db.users, r.email) && (r.username == "" || UsernameTaken(db.users, r.username))
  {
    if EmailRegistered(db.users, r.email) then Outcome(db, EmailTaken)
    else if r.username == "" then Outcome(db, DatabaseError)
    else if UsernameTaken(db.users, r.username) then Outcome(db, DatabaseError)
    else
      var uid := db.nextUser;
      var user := User(r.username, r.email, r.firstName.GetOr(""), r.lastName.GetOr(""), false);
      Outcome(db.(users := db.users[uid := user], nextUser := uid + 1), UserCreated(uid))
  }

  /**
   * Registration succeeds exactly when neither the email nor the username is
   * taken; it adds one non-staff user and keeps emails unique and the
   * tables consistent. A taken email answers 400 and changes nothing.
   */
  lemma RegisterKeepsEmailsUnique(db: Db, r: Registration)
    requires Integrity(db) && UniqueEmails(db.users)
    ensures var out := Register(db, r);
      && Integrity(out.db) && UniqueEmails(out.db.users)
      && (out.response.UserCreated? <==>
            !EmailRegistered(db.users, r.email) && r.username != "" && !UsernameTaken(db.users, r.username))
      && (out.response == EmailTaken <==> EmailRegistered(db.users, r.email))
      && (!out.response.UserCreated? ==> out.db == db)
      && (out.response.UserCreated? ==>
            var uid := out.response.userId;
            && uid !in db.users
            && out.db.users == db.users[uid := out.db.users[uid]]
            && out.db.users[uid].email == r.email
            && out.db.users[uid].username == r.username
            && !out.db.users[uid].isStaff)
  {
  }

  /** `ProductCreateSchema`; `stock_quantity` may be left out and then takes its default. */
  datatype ProductPayload = ProductPayload(title: string, description: string, price: Cents, stock: Option<int>)

  /**
   * `create_product`: only a staff caller may add a product. The stock
   * defaults to 0; a negative stock is refused by the column's
   * non-negative check.
   */
  function AddProduct(db: Db, auth: Option<Principal>, payload: ProductPayload): (out: Outcome)
    ensures out.response == PermissionDenied <==> auth.None? || !auth.value.isStaff
    ensures out.response == DatabaseError <==> auth.Some? && auth.value.isStaff && payload.stock.GetOr(0) < 0
    ensures !out.response.ProductCreated? ==> out.db == db
  {
    if auth.None? || !auth.value.isStaff then Outcome(db, PermissionDenied)
    else
      var stock := payload.stock.GetOr(0);
      if stock < 0 then Outcome(db, DatabaseError)
      else
        var pid := db.nextProduct;
        Outcome(db.(products := db.products[pid := Product(payload.title, payload.description, payload.price, stock)],
                    nextProduct := pid + 1),
                ProductCreated(pid))
  }

  /** A caller who is not staff gets 403 and the catalog is untouched; a staff caller adds exactly one product. */
  lemma OnlyStaffAddsProducts(db: Db, auth: Option<Principal>, payload: ProductPayload)
    requires Integrity(db)
    ensures var out := AddProduct(db, auth, payload);
      && Integrity(out.db)
      && (out.db != db ==> auth.Some? && auth.value.isStaff)
      && (out.response == PermissionDenied <==> auth.None? || !auth.value.isStaff)
      && (out.response.ProductCreated? ==>
            var pid := out.response.productId;
            && pid !in db.products
            && out.db.products == db.products[pid := out.db.products[pid]]
            && out.db.products[pid].stock == payload.stock.GetOr(0)
            && out.db.products[pid].price == payload.price)
  {
  }

  /** The items of order `oid`, in their order. */
  function ItemsOf(items: seq<OrderItem>, oid: OrderId): (r: seq<OrderItem>)
    ensures forall it :: it in r <==> it in items && it.order == oid
    ensures forall it :: multiset(r)[it] == if it.order == oid then multiset(items)[it] else 0
  {
    if items == [] then []
    else
      assert items == [items[0]] + items[1..];
      if items[0].order == oid then [items[0]] + ItemsOf(items[1..], oid)
      else ItemsOf(items[1..], oid)
  }

  /** `get_order`: the order is looked up by id and owner together. */
  function FindOrder(db: Db, auth: Option<Principal>, oid: OrderId): (r: Response)
    ensures auth.None? ==> r == AuthRequired
    ensures auth.Some? ==> (r.OrderFound? <==> oid in db.orders && db.orders[oid].user == auth.value.id)
    ensures auth.Some? && !r.OrderFound? ==> r == OrderNotFound
    ensures r.OrderFound? ==> r.order == db.orders[oid] && forall it :: it in r.items <==> it in db.items && it.order == oid
    ensures r.OrderFound? ==> forall it :: multiset(r.items)[it] == if it.order == oid then multiset(db.items)[it] else 0
  {
    if auth.None? then AuthRequired
    else if oid in db.orders && db.orders[oid].user == auth.value.id then
      OrderFound(oid, db.orders[oid], ItemsOf(db.items, oid))
    else OrderNotFound
  }

  /**
   * Another user's order is indistinguishable from no order at all: adding
   * someone else's order under `oid` does not change what the caller gets.
   */
  lemma ForeignOrderIsNotFound(db: Db, caller: Principal, oid: OrderId, foreign: Order)
    requires oid !in db.orders
    requires foreign.user != caller.id
    ensures FindOrder(db.(orders := db.orders[oid := foreign]), Some(caller), oid) == FindOrder(db, Some(caller), oid)
    ensures FindOrder(db, Some(caller), oid) == OrderNotFound
  {
  }

  // ---------------------------------------------------------------------
  // The database as the endpoints change it in place

  class Shop {
    var users: map<UserId, User>
    var products: map<ProductId, Product>
    var orders: map<OrderId, Order>
    var items: seq<OrderItem>
    var nextUser: UserId
    var nextProduct: nat
    var nextOrder: OrderId

    function State(): Db
      reads this
    {
      Db(users, products, orders, items, nextUser, nextProduct, nextOrder)
    }

    constructor (db: Db)
      ensures State() == db
    {
      users, products, orders, items := db.users, db.products, db.orders, db.items;
      nextUser, nextProduct, nextOrder := db.nextUser, db.nextProduct, db.nextOrder;
    }

    /** The transaction is rolled back: every table returns to `saved`. */
    method Rollback(saved: Db)
      modifies this
      ensures State() == saved
    {
      users, products, orders, items := saved.users, saved.products, saved.orders, saved.items;
      nextUser, nextProduct, nextOrder := saved.nextUser, saved.nextProduct, saved.nextOrder;
    }

    /** `create_order`. */
    method CreateOrder(auth: Option<Principal>, lines: seq<Line>) returns (response: Response)
      modifies this
      ensures Outcome(State(), response) == PlaceOrder(old(State()), auth, lines)
    {
      var pre := State();
      if auth.None? {
        return AuthRequired;
      }
      if |lines| == 0 {
        return EmptyOrder;
      }
      var user := auth.value.id;
      var oid := nextOrder;
      orders := orders[oid := NewOrder(user)];
      nextOrder := nextOrder + 1;
      ghost var started := State();
      ghost var whole := Walk(oid, Progress(pre.products, pre.items, 0), lines);
      var total := 0;
      for i := 0 to |lines|
        invariant Walk(oid, Progress(products, items, total), lines[i..]) == whole
        invariant State() == started.(products := products, items := items)
      {
        var line := lines[i];
        WalkAt(oid, Progress(products, items, total), lines, i);
        if line.productId !in products {
          // no rollback is marked here: returning from the atomic block commits
          assert whole == Missing(Progress(products, items, total), line.productId);
          return ProductNotFound(line.productId);
        }
        var product := products[line.productId];
        if product.stock < line.quantity {
          Rollback(pre);
          return NotEnoughStock(product.title, product.stock);
        }
        if line.quantity < 0 {
          // the INSERT of the item breaks the non-negative quantity column; the error undoes the block
          Rollback(pre);
          return DatabaseError;
        }
        var amount := SaveLine(oid, line);
        total := total + amount;
      }
      assert lines[|lines|..] == [];
      assert whole == Done(Progress(products, items, total));
      orders := orders[oid := orders[oid].(total := total)];
      return OrderCreated(oid);
    }

    /**
     * One line of `create_order` that passed its checks: the item is created
     * at the product's current price and the product's stock is lowered;
     * `amount` is what the line adds to the order's total.
     */
    method SaveLine(oid: OrderId, line: Line) returns (amount: Cents)
      requires line.productId in products && 0 <= line.quantity <= products[line.productId].stock
      modifies this
      ensures var product := old(products)[line.productId];
        && State() == old(State()).(
             products := old(products)[line.productId := product.(stock := product.stock - line.quantity)],
             items := old(items) + [OrderItem(oid, Some(line.productId), line.quantity, product.price)])
        && amount == product.price * line.quantity
    {
      var product := products[line.productId];
      var item := CreateItem(oid, ProductRef(line.productId, product), line.quantity);
      items := items + [item];
      amount := item.price * item.quantity;
      products := products[line.productId := product.(stock := product.stock - line.quantity)];
    }

    /** `register_user`. */
    method RegisterUser(r: Registration) returns (response: Response)
      modifies this
      ensures Outcome(State(), response) == Register(old(State()), r)
    {
      if exists u :: u in users && users[u].email == r.email {
        return EmailTaken;
      }
      if r.username == "" || exists u :: u in users && users[u].username == r.username {
        return DatabaseError;
      }
      var uid := nextUser;
      users := users[uid := User(r.username, r.email, r.firstName.GetOr(""), r.lastName.GetOr(""), false)];
      nextUser := nextUser + 1;
      return UserCreated(uid);
    }

    /** `create_product`. */
    method CreateProduct(auth: Option<Principal>, payload: ProductPayload) returns (response: Response)
      modifies this
      ensures Outcome(State(), response) == AddProduct(old(State()), auth, payload)
    {
      if auth.None? || !auth.value.isStaff {
        return PermissionDenied;
      }
      var stock := payload.stock.GetOr(0);
      if stock < 0 {
        return DatabaseError;
      }
      var pid := nextProduct;
      products := products[pid := Product(payload.title, payload.description, payload.price, stock)];
      nextProduct := nextProduct + 1;
      return ProductCreated(pid);
    }
  }
}
