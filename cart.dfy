/** The shopping cart of project-assignment-6: a reducer over
    `{cart, items, quantity, action, discount}`, the coupon table, the
    helpers `findById` and `values`, and the subtotal its `render` computes.
    Product ids are integers; quantities and the cart count are JavaScript
    numbers, which become NaN when an id has no quantity entry. */
module Cart {
  import opened Wrappers
  import opened Store

  /** A JavaScript number as the cart uses it: an integer, or NaN. */
  datatype Num = Int(n: int) | NaN {
    function Plus(k: int): Num {
      if Int? then Int(n + k) else NaN
    }

    /** Whether the number is truthy: neither 0 nor NaN. */
    predicate Truthy() {
      Int? && n != 0
    }
  }

  function Minus(a: Num, b: Num): Num {
    if a.Int? && b.Int? then Int(a.n - b.n) else NaN
  }

  function Times(price: int, q: Num): Num {
    if q.Int? then Int(price * q.n) else NaN
  }

  datatype Product = Product(id: int, name: string, price: int, desc: string)

  /** `cart` counts the units in the cart, `items` holds one product per id,
      `quantity` maps an id to its units, `action` is the type of the last
      item action, and `discount` holds the own properties of the discount
      object, in order. */
  datatype State = State(
    cart: Num,
    items: seq<Product>,
    quantity: map<int, Num>,
    action: string,
    discount: seq<(string, Option<real>)>)

  const Initial: State := State(Int(0), [], map[], "", [])

  /** The `type` of a dispatched action; `Other` is any other type, such as
      the seed action `{}`. */
  datatype Action =
    | Add(product: Product)
    | Remove(id: int)
    | Decrease(id: int)
    | Increase(id: int)
    | Discount(code: string)
    | Other

  /** The `coupons` table; `None` is the `undefined` of an unknown code. */
  function Coupon(code: string): Option<real> {
    if code == "20OFF" then Some(0.2)
    else if code == "BIGSALE" then Some(0.5)
    else if code == "FLASHSLAE" then Some(0.05)
    else None
  }

  /** `quantity[id]`: a missing entry is `undefined`, which is falsy and
      turns arithmetic into NaN exactly as NaN does. */
  function Get(quantity: map<int, Num>, id: int): Num {
    if id in quantity then quantity[id] else NaN
  }

  /** `items.filter(item => item.id != id)`. */
  function WithoutId(items: seq<Product>, id: int): (r: seq<Product>)
    ensures |r| <= |items|
  {
    if items == [] then []
    else
      var last := items[|items| - 1];
      WithoutId(items[..|items| - 1], id) + (if last.id != id then [last] else [])
  }

  /** The filter keeps exactly the items with another id. */
  lemma {:induction false} WithoutIdKeeps(items: seq<Product>, id: int)
    ensures forall p :: p in WithoutId(items, id) <==> p in items && p.id != id
    decreases |items|
  {
    if items != [] {
      var init, last := items[..|items| - 1], items[|items| - 1];
      assert items == init + [last];
      WithoutIdKeeps(init, id);
    }
  }

  /** Filtering works piece by piece, so the remaining items keep their
      order. */
  lemma {:induction false} WithoutIdConcat(a: seq<Product>, b: seq<Product>, id: int)
    ensures WithoutId(a + b, id) == WithoutId(a, id) + WithoutId(b, id)
    decreases |b|
  {
    if b == [] {
      assert a + b == a;
    } else {
      var b' := b[..|b| - 1];
      assert (a + b)[..|a + b| - 1] == a + b';
      WithoutIdConcat(a, b', id);
    }
  }

  /** Filtering out an id no item has changes nothing. */
  lemma {:induction false} WithoutIdAbsent(items: seq<Product>, id: int)
    requires forall i :: 0 <= i < |items| ==> items[i].id != id
    ensures WithoutId(items, id) == items
    decreases |items|
  {
    if items != [] {
      assert items == items[..|items| - 1] + [items[|items| - 1]];
      WithoutIdAbsent(items[..|items| - 1], id);
    }
  }

  /** With one item per id, filtering out an id the items have removes
      exactly that one item. */
  lemma WithoutIdOne(items: seq<Product>, id: int)
    requires DistinctIds(items) && id in Ids(items)
    ensures exists i :: (0 <= i < |items| && items[i].id == id &&
      WithoutId(items, id) == items[..i] + items[i + 1..])
  {
    var i :| 0 <= i < |items| && items[i].id == id;
    assert forall k :: 0 <= k < |items| && k != i ==> items[k].id != items[i].id;
    WithoutIdSplit(items, i);
    assert WithoutId(items, id) == items[..i] + items[i + 1..];
  }

  lemma {:induction false} WithoutIdSplit(items: seq<Product>, i: int)
    requires 0 <= i < |items|
    requires forall k :: 0 <= k < |items| && k != i ==> items[k].id != items[i].id
    ensures WithoutId(items, items[i].id) == items[..i] + items[i + 1..]
    decreases |items|
  {
    var id := items[i].id;
    var init, last := items[..|items| - 1], items[|items| - 1];
    if i == |items| - 1 {
      WithoutIdAbsent(init, id);
      assert items[..i] + items[i + 1..] == init;
    } else {
      assert init[i] == items[i];
      WithoutIdSplit(init, i);
      assert last.id != id;
      assert items[..i] + items[i + 1..] == init[..i] + init[i + 1..] + [last];
    }
  }

  /** The cart `reducer`. */
  function Reduce(s: State, a: Action): State {
    match a
    case Add(p) =>
      var q := Get(s.quantity, p.id);
      s.(action := "ADD",
         cart := s.cart.Plus(1),
         items := if !q.Truthy() then s.items + [p] else s.items,
         quantity := s.quantity[p.id := if q.Truthy() then q.Plus(1) else Int(1)])
    case Remove(id) =>
      s.(action := "REMOVE",
         cart := Minus(s.cart, Get(s.quantity, id)),
         items := WithoutId(s.items, id),
         quantity := s.quantity - {id})
    case Decrease(id) =>
      s.(cart := s.cart.Plus(-1),
         action := "DECREASE",
         quantity := s.quantity[id := Get(s.quantity, id).Plus(-1)])
    case Increase(id) =>
      s.(cart := s.cart.Plus(1),
         action := "INCREASE",
         quantity := s.quantity[id := Get(s.quantity, id).Plus(1)])
    case Discount(code) =>
      s.(discount := [(code, Coupon(code))])
    case Other => s
  }

  /** `createStore(reducer)` for the cart: the seed dispatch leaves the
      reducer's default state in place. */
  method CreateStore<L(==)>() returns (store: Store<State, Action, L>)
    ensures fresh(store)
    ensures store.state == Initial
    ensures store.listeners == [] && store.notified == []
    ensures forall s, a :: store.reducer(s, a) == Reduce(s, a)
  {
    store := new Store(Reduce, Initial, Other);
  }

  // ---------------------------------------------------------------------------
  // findById, values, subtotal
  // ---------------------------------------------------------------------------

  /** `findById(id, arr)`: the first element with that id, or `undefined`. */
  method FindById(id: int, arr: seq<Product>) returns (r: Option<Product>)
    ensures r.None? <==> forall i :: 0 <= i < |arr| ==> arr[i].id != id
    ensures r.Some? ==> exists i :: 0 <= i < |arr| && arr[i] == r.value && arr[i].id == id &&
                                    forall j :: 0 <= j < i ==> arr[j].id != id
  {
    for i := 0 to |arr|
      invariant forall j :: 0 <= j < i ==> arr[j].id != id
    {
      if arr[i].id == id {
        return Some(arr[i]);
      }
    }
    return None;
  }

  /** `values(object)`: the values of the own properties, in order. */
  method Values<V>(obj: seq<(string, V)>) returns (result: seq<V>)
    ensures |result| == |obj|
    ensures forall i :: 0 <= i < |obj| ==> result[i] == obj[i].1
  {
    result := [];
    for i := 0 to |obj|
      invariant |result| == i
      invariant forall k :: 0 <= k < i ==> result[k] == obj[k].1
    {
      result := result + [obj[i].1];
    }
  }

  /** The subtotal: price times quantity, summed over the items. */
  function SubtotalOf(items: seq<Product>, quantity: map<int, Num>): Num {
    if items == [] then Int(0)
    else
      var last := items[|items| - 1];
      var rest := SubtotalOf(items[..|items| - 1], quantity);
      var term := Times(last.price, Get(quantity, last.id));
      if rest.Int? && term.Int? then Int(rest.n + term.n) else NaN
  }

  /** The subtotal loop of `render`. */
  method Subtotal(s: State) returns (subTotal: Num)
    ensures subTotal == SubtotalOf(s.items, s.quantity)
  {
    subTotal := Int(0);
    for i := 0 to |s.items|
      invariant subTotal == SubtotalOf(s.items[..i], s.quantity)
    {
      var item := s.items[i];
      var term := Times(item.price, Get(s.quantity, item.id));
      assert s.items[..i + 1][..i] == s.items[..i];
      subTotal := if subTotal.Int? && term.Int? then Int(subTotal.n + term.n) else NaN;
    }
    assert s.items[..|s.items|] == s.items;
  }

  // ---------------------------------------------------------------------------
  // Invariants
  // ---------------------------------------------------------------------------

  function Value(v: Num): int {
    if v.Int? then v.n else 0
  }

  lemma HasKey(m: map<int, Num>)
    requires m != map[]
    ensures exists k :: k in m
  {
    if forall k :: k !in m {
      assert false;
    }
  }

  /** The sum of the quantities. */
  ghost function Sum(m: map<int, Num>): int
    decreases |m|
  {
    if m == map[] then 0
    else
      HasKey(m);
      var k :| k in m;
      assert (m - {k}).Keys == m.Keys - {k};
      Value(m[k]) + Sum(m - {k})
  }

  /** The sum does not depend on the order in which keys are taken. */
  lemma {:induction false} SumPick(m: map<int, Num>, k: int)
    requires k in m
    ensures Sum(m) == Value(m[k]) + Sum(m - {k})
    decreases |m|
  {
    var j :| j in m && Sum(m) == Value(m[j]) + Sum(m - {j});
    if j != k {
      assert (m - {j}).Keys == m.Keys - {j};
      assert (m - {k}).Keys == m.Keys - {k};
      SumPick(m - {j}, k);
      SumPick(m - {k}, j);
      assert m - {j} - {k} == m - {k} - {j};
    }
  }

  lemma SumUpdate(m: map<int, Num>, k: int, v: Num)
    ensures Sum(m[k := v]) == Sum(m) - (if k in m then Value(m[k]) else 0) + Value(v)
  {
    SumPick(m[k := v], k);
    assert m[k := v] - {k} == m - {k};
    if k in m {
      SumPick(m, k);
    } else {
      assert m - {k} == m;
    }
  }

  /** Positive quantities add up to a positive sum unless there are none. */
  lemma {:induction false} SumPositive(m: map<int, Num>)
    requires forall k :: k in m ==> m[k].Int? && m[k].n > 0
    ensures m == map[] <==> Sum(m) == 0
    ensures Sum(m) >= 0
    decreases |m|
  {
    if m != map[] {
      HasKey(m);
      var k :| k in m;
      assert (m - {k}).Keys == m.Keys - {k};
      SumPick(m, k);
      SumPositive(m - {k});
    }
  }

  /** `cart` is the sum of the quantities, all of them numbers. */
  ghost predicate CountsAgree(s: State) {
    (forall k :: k in s.quantity ==> s.quantity[k].Int?) && s.cart == Int(Sum(s.quantity))
  }

  function Ids(items: seq<Product>): set<int> {
    set i | 0 <= i < |items| :: items[i].id
  }

  predicate DistinctIds(items: seq<Product>) {
    forall i, j :: 0 <= i < j < |items| ==> items[i].id != items[j].id
  }

  /** One item per id, and exactly the items' ids have a positive
      quantity. */
  predicate ItemsAgree(s: State) {
    && DistinctIds(s.items)
    && s.quantity.Keys == Ids(s.items)
    && forall k :: k in s.quantity ==> s.quantity[k].Int? && s.quantity[k].n > 0
  }

  ghost predicate Valid(s: State) {
    CountsAgree(s) && ItemsAgree(s)
  }

  lemma InitialValid()
    ensures Valid(Initial)
  {
  }

  lemma IdsSnoc(items: seq<Product>, p: Product)
    ensures Ids(items + [p]) == Ids(items) + {p.id}
  {
    var t := items + [p];
    forall x | x in Ids(t) ensures x in Ids(items) + {p.id} {
      var i :| 0 <= i < |t| && t[i].id == x;
      if i < |items| { assert t[i] == items[i]; }
    }
    assert t[|items|] == p;
    forall x | x in Ids(items) ensures x in Ids(t) {
      var i :| 0 <= i < |items| && items[i].id == x;
      assert t[i] == items[i];
    }
  }

  lemma DistinctSnoc(items: seq<Product>, p: Product)
    requires DistinctIds(items) && p.id !in Ids(items)
    ensures DistinctIds(items + [p])
  {
    var t := items + [p];
    forall i, j | 0 <= i < j < |t| ensures t[i].id != t[j].id {
      assert t[i] == items[i];
      if j < |items| {
        assert t[j] == items[j];
      } else {
        assert items[i].id in Ids(items);
      }
    }
  }

  /** Filtering by id removes that id and keeps the others distinct. */
  lemma {:induction false} WithoutIdIds(items: seq<Product>, id: int)
    requires DistinctIds(items)
    ensures Ids(WithoutId(items, id)) == Ids(items) - {id}
    ensures DistinctIds(WithoutId(items, id))
    decreases |items|
  {
    if items != [] {
      var init, last := items[..|items| - 1], items[|items| - 1];
      assert items == init + [last];
      assert DistinctIds(init) by {
        forall i, j | 0 <= i < j < |init| ensures init[i].id != init[j].id {
          assert init[i] == items[i] && init[j] == items[j];
        }
      }
      WithoutIdIds(init, id);
      IdsSnoc(init, last);
      assert last.id !in Ids(init);
      var r := WithoutId(init, id);
      if last.id != id {
        assert WithoutId(items, id) == r + [last];
        IdsSnoc(r, last);
        DistinctSnoc(r, last);
      } else {
        assert r + [] == r;
        assert WithoutId(items, id) == r;
      }
    }
  }

  /** ADD, INCREASE and DECREASE move `cart` and the sum together; REMOVE
      does too when the id has a quantity (otherwise `cart` becomes NaN). */
  lemma CountsPreserved(s: State, a: Action)
    requires CountsAgree(s)
    requires a.Remove? || a.Increase? || a.Decrease? ==> a.id in s.quantity
    ensures CountsAgree(Reduce(s, a))
  {
    match a
    case Add(p) =>
      SumUpdate(s.quantity, p.id, Reduce(s, a).quantity[p.id]);
    case Remove(id) =>
      SumPick(s.quantity, id);
    case Decrease(id) =>
      SumUpdate(s.quantity, id, s.quantity[id].Plus(-1));
    case Increase(id) =>
      SumUpdate(s.quantity, id, s.quantity[id].Plus(1));
    case Discount(_) =>
    case Other =>
  }

  /** Removing an id that has no quantity makes `cart` NaN. */
  lemma RemoveAbsentId(s: State, id: int)
    requires id !in s.quantity
    ensures Reduce(s, Remove(id)).cart == NaN
  {
  }

  /** The caller's side of the contract: item buttons exist only for items
      in the cart, and the decrease button removes an item whose quantity is
      1 instead of decreasing it. */
  predicate Allowed(s: State, a: Action) {
    match a
    case Add(_) => true
    case Remove(id) => id in s.quantity
    case Increase(id) => id in s.quantity
    case Decrease(id) => id in s.quantity && s.quantity[id] != Int(1)
    case Discount(_) => true
    case Other => true
  }

  /** What the decrease button dispatches. */
  function DecreaseClick(s: State, id: int): Action {
    if Get(s.quantity, id) == Int(1) then Remove(id) else Decrease(id)
  }

  lemma DecreaseClickAllowed(s: State, id: int)
    requires id in s.quantity
    ensures Allowed(s, DecreaseClick(s, id))
    ensures DecreaseClick(s, id).Decrease? <==> s.quantity[id] != Int(1)
  {
  }

  /** Allowed actions keep one item per id with a positive quantity; a
      DECREASE of a quantity of 1 would leave a zero behind. */
  lemma ItemsPreserved(s: State, a: Action)
    requires ItemsAgree(s) && Allowed(s, a)
    ensures ItemsAgree(Reduce(s, a))
  {
    match a
    case Add(p) =>
      var t := Reduce(s, a);
      if !Get(s.quantity, p.id).Truthy() {
        assert p.id !in Ids(s.items);
        IdsSnoc(s.items, p);
        DistinctSnoc(s.items, p);
      }
    case Remove(id) =>
      WithoutIdIds(s.items, id);
    case Decrease(id) =>
    case Increase(id) =>
    case Discount(_) =>
    case Other =>
  }

  lemma DecreaseToZero(s: State, id: int)
    requires ItemsAgree(s) && id in s.quantity && s.quantity[id] == Int(1)
    ensures !ItemsAgree(Reduce(s, Decrease(id)))
  {
    assert Reduce(s, Decrease(id)).quantity[id] == Int(0);
  }

  /** Both invariants hold after any allowed action. */
  lemma ValidPreserved(s: State, a: Action)
    requires Valid(s) && Allowed(s, a)
    ensures Valid(Reduce(s, a))
  {
    CountsPreserved(s, a);
    ItemsPreserved(s, a);
  }

  /** The state after dispatching `actions` in order. */
  function Run(s: State, actions: seq<Action>): State
    decreases |actions|
  {
    if actions == [] then s else Run(Reduce(s, actions[0]), actions[1..])
  }

  /** Every action in the run is allowed in the state it is dispatched in. */
  predicate AllowedRun(s: State, actions: seq<Action>)
    decreases |actions|
  {
    actions == [] || (Allowed(s, actions[0]) && AllowedRun(Reduce(s, actions[0]), actions[1..]))
  }

  /** From the seeded state, any run of allowed actions keeps `cart` equal
      to the sum of the quantities and one item per id. */
  lemma {:induction false} RunValid(s: State, actions: seq<Action>)
    requires Valid(s) && AllowedRun(s, actions)
    ensures Valid(Run(s, actions))
    decreases |actions|
  {
    if actions != [] {
      ValidPreserved(s, actions[0]);
      RunValid(Reduce(s, actions[0]), actions[1..]);
    }
  }

  /** What `render` relies on: in a valid state the cart count is positive
      exactly when there are items. */
  lemma CartCountShowsItems(s: State)
    requires Valid(s)
    ensures s.cart.Int? && s.cart.n >= 0
    ensures s.cart.n > 0 <==> s.items != []
  {
    SumPositive(s.quantity);
    if s.items != [] {
      assert s.items[0].id in Ids(s.items);
    }
  }

  // ---------------------------------------------------------------------------
  // The actions one by one
  // ---------------------------------------------------------------------------

  /** ADD appends the product exactly when its id is not in the cart yet,
      counts one more unit of it and one more in the cart, and leaves the
      discount alone. */
  lemma AddEffect(s: State, p: Product)
    requires Valid(s)
    ensures var t := Reduce(s, Add(p));
      && t.action == "ADD"
      && t.cart == s.cart.Plus(1)
      && (p.id !in s.quantity ==> t.items == s.items + [p] && t.quantity[p.id] == Int(1))
      && (p.id in s.quantity ==> t.items == s.items && t.quantity[p.id] == Int(s.quantity[p.id].n + 1))
      && t.quantity - {p.id} == s.quantity - {p.id}
      && t.discount == s.discount
  {
  }

  /** REMOVE drops the one item with the id, keeping the others in order,
      drops its quantity, and takes its units off the cart count. */
  lemma RemoveEffect(s: State, id: int)
    requires Valid(s) && id in s.quantity
    ensures var t := Reduce(s, Remove(id));
      && t.action == "REMOVE"
      && t.cart == Int(s.cart.n - s.quantity[id].n)
      && Ids(t.items) == Ids(s.items) - {id}
      && t.quantity == s.quantity - {id}
      && t.discount == s.discount
    ensures exists i :: (0 <= i < |s.items| && s.items[i].id == id &&
      Reduce(s, Remove(id)).items == s.items[..i] + s.items[i + 1..])
  {
    WithoutIdIds(s.items, id);
    WithoutIdOne(s.items, id);
  }

  /** INCREASE and DECREASE change one quantity and the cart count by one,
      and leave the items alone. */
  lemma StepEffect(s: State, id: int, up: bool)
    requires Valid(s) && id in s.quantity
    ensures var t := Reduce(s, if up then Increase(id) else Decrease(id));
      var d := if up then 1 else -1;
      && t.items == s.items
      && t.action == (if up then "INCREASE" else "DECREASE")
      && t.cart == Int(s.cart.n + d)
      && t.quantity == s.quantity[id := Int(s.quantity[id].n + d)]
      && t.discount == s.discount
  {
  }

  /** DISCOUNT replaces the discount with the one coupon and its rate; it
      does not record an action. */
  lemma DiscountEffect(s: State, code: string)
    ensures var t := Reduce(s, Discount(code));
      && t.discount == [(code, Coupon(code))]
      && t.cart == s.cart && t.items == s.items && t.quantity == s.quantity && t.action == s.action
    ensures Coupon("20OFF") == Some(0.2) && Coupon("BIGSALE") == Some(0.5)
    ensures Coupon("FLASHSLAE") == Some(0.05)
    ensures Coupon(code).Some? <==> code in ["20OFF", "BIGSALE", "FLASHSLAE"]
  {
  }

  /** The seed action and unknown actions change nothing. */
  lemma OtherIsIdentity(s: State)
    ensures Reduce(s, Other) == s
    ensures Reduce(Initial, Other) == State(Int(0), [], map[], "", [])
  {
  }

  // ---------------------------------------------------------------------------
  // The subtotal
  // ---------------------------------------------------------------------------

  /** The price of the items with a given id, summed. */
  function PriceOf(items: seq<Product>, id: int): int {
    if items == [] then 0
    else
      var last := items[|items| - 1];
      PriceOf(items[..|items| - 1], id) + (if last.id == id then last.price else 0)
  }

  /** Every item's quantity is a number. */
  predicate Counted(items: seq<Product>, quantity: map<int, Num>) {
    forall i :: 0 <= i < |items| ==> items[i].id in quantity && quantity[items[i].id].Int?
  }

  /** Changing one quantity by `d` changes the subtotal by `d` times the
      price of the items with that id. */
  lemma {:induction false} SubtotalStep(items: seq<Product>, quantity: map<int, Num>, id: int, d: int)
    requires Counted(items, quantity)
    requires id in quantity && quantity[id].Int?
    ensures SubtotalOf(items, quantity).Int?
    ensures SubtotalOf(items, quantity[id := Int(quantity[id].n + d)])
         == Int(SubtotalOf(items, quantity).n + d * PriceOf(items, id))
    decreases |items|
  {
    if items != [] {
      var init := items[..|items| - 1];
      assert Counted(init, quantity) by {
        forall i | 0 <= i < |init| ensures init[i].id in quantity && quantity[init[i].id].Int? {
          assert init[i] == items[i];
        }
      }
      assert items[|items| - 1].id in quantity;
      SubtotalStep(init, quantity, id, d);
      var last := items[|items| - 1];
      if last.id == id {
        assert last.price * (quantity[id].n + d) == last.price * quantity[id].n + d * last.price by {
          MultiplyOut(last.price, quantity[id].n, d);
        }
      }
    }
  }

  lemma MultiplyOut(p: int, q: int, d: int)
    ensures p * (q + d) == p * q + d * p
  {
  }

  /** In a valid state, one INCREASE adds the item's price to the subtotal
      and one DECREASE takes it off. */
  lemma SubtotalAfterStep(s: State, p: Product, up: bool)
    requires Valid(s) && p in s.items
    ensures var t := Reduce(s, if up then Increase(p.id) else Decrease(p.id));
      && SubtotalOf(s.items, s.quantity).Int?
      && SubtotalOf(t.items, t.quantity) == Int(SubtotalOf(s.items, s.quantity).n + (if up then p.price else -p.price))
  {
    var i :| 0 <= i < |s.items| && s.items[i] == p;
    assert p.id in Ids(s.items);
    assert Counted(s.items, s.quantity) by {
      forall j | 0 <= j < |s.items| ensures s.items[j].id in s.quantity {
        assert s.items[j].id in Ids(s.items);
      }
    }
    UniquePrice(s.items, i);
    SubtotalStep(s.items, s.quantity, p.id, if up then 1 else -1);
  }

  /** With distinct ids, the price of an id is that of its one item. */
  lemma {:induction false} UniquePrice(items: seq<Product>, i: int)
    requires DistinctIds(items) && 0 <= i < |items|
    ensures PriceOf(items, items[i].id) == items[i].price
    decreases |items|
  {
    var init, last := items[..|items| - 1], items[|items| - 1];
    if i < |items| - 1 {
      assert init[i] == items[i];
      UniquePrice(init, i);
      assert last.id != items[i].id;
    } else {
      NoPrice(init, last.id);
    }
  }

  lemma {:induction false} NoPrice(items: seq<Product>, id: int)
    requires forall j :: 0 <= j < |items| ==> items[j].id != id
    ensures PriceOf(items, id) == 0
    decreases |items|
  {
    if items != [] {
      NoPrice(items[..|items| - 1], id);
    }
  }

  /** In a valid state with prices that are not negative, the subtotal is a
      number and not negative. */
  lemma {:induction false} SubtotalNotNegative(items: seq<Product>, quantity: map<int, Num>)
    requires Counted(items, quantity)
    requires forall i :: 0 <= i < |items| ==> items[i].price >= 0 && quantity[items[i].id].n > 0
    ensures SubtotalOf(items, quantity).Int? && SubtotalOf(items, quantity).n >= 0
    decreases |items|
  {
    if items != [] {
      var init := items[..|items| - 1];
      assert forall i :: 0 <= i < |init| ==> init[i] == items[i];
      SubtotalNotNegative(init, quantity);
    }
  }
}
