/**
 * The records of the CRM (crm/models.py): Customer, Product, Order and
 * OrderItem, the checks Django's field definitions imply, the `__str__` labels,
 * and what deleting a row cascades to.
 *
 * Every record carries the primary key `id` that Django adds. A table is a map
 * from primary key to row.
 */
module Models {
  import opened Wrappers
  import opened PyRegex

  datatype Customer = Customer(id: nat, name: string, email: string, phone: string)

  /** `price` is a decimal with two places, held here as a whole number of cents. */
  datatype Product = Product(id: nat, name: string, priceCents: int)

  /** `created_at` is a wall-clock value set by the framework and is not modelled. */
  datatype Order = Order(id: nat, customerId: nat)

  datatype OrderItem = OrderItem(id: nat, orderId: nat, productId: nat, quantity: nat)

  const NameMaxLength := 100
  const PhoneMaxLength := 15
  /** DecimalField(max_digits=10, decimal_places=2), in cents: at most 10 digits of cents. */
  const PriceCentsBound := 10_000_000_000

  // ---------------------------------------------------------------------------
  // The customer table's uniqueness constraint
  // ---------------------------------------------------------------------------

  /** `email = EmailField(unique=True)`: no two rows share an email. */
  predicate EmailsUnique(rows: map<nat, Customer>) {
    forall k1, k2 :: k1 in rows && k2 in rows && rows[k1].email == rows[k2].email ==> k1 == k2
  }

  /** `Customer.objects.filter(email=email).exists()` */
  predicate EmailTaken(rows: map<nat, Customer>, email: string) {
    exists k :: k in rows && rows[k].email == email
  }

  // ---------------------------------------------------------------------------
  // The phone validator: RegexValidator(r'^\+?\d{9,15}$')
  // ---------------------------------------------------------------------------

  const PhoneValidatorPattern: seq<Branch> := [[Piece(Literal('+'), 0, 1), Piece(Digit, 9, 15)]]

  /** Django's RegexValidator searches with the pattern; with `^` that is a match at 0. */
  predicate PhoneValidatorAccepts(phone: string) {
    Match(PhoneValidatorPattern, phone)
  }

  /** An optional `+` followed by 9 to 15 digits. */
  predicate OptionalPlusDigits(t: string) {
    || (9 <= |t| <= 15 && AllDigits(t))
    || (10 <= |t| <= 16 && t[0] == '+' && AllDigits(t[1..]))
  }

  /**
   * The validator accepts exactly an optional `+` and 9 to 15 digits, possibly
   * followed by one newline (which `$` lets through).
   */
  lemma PhoneValidatorIff(s: string)
    ensures PhoneValidatorAccepts(s) <==> exists t :: t in DollarPrefixes(s) && OptionalPlusDigits(t)
  {
    if PhoneValidatorAccepts(s) {
      PhoneValidatorSound(s);
    }
    if exists t :: t in DollarPrefixes(s) && OptionalPlusDigits(t) {
      var t :| t in DollarPrefixes(s) && OptionalPlusDigits(t);
      PhoneValidatorComplete(s, t);
    }
  }

  lemma PhoneValidatorSound(s: string)
    requires PhoneValidatorAccepts(s)
    ensures exists t :: t in DollarPrefixes(s) && OptionalPlusDigits(t)
  {
    var b := PhoneValidatorPattern[0];
    var rest := [Piece(Digit, 9, 15)];
    assert b[1..] == rest;
    MatchSingle(b, s);
    MatchBranchStep(b, s, 0);
    var j1: nat :| Consumes(b[0], s, 0, j1) && MatchBranch(rest, s, j1);
    MatchBranchStep(rest, s, j1);
    var j2: nat :| Consumes(rest[0], s, j1, j2) && MatchBranch(rest[1..], s, j2);
    assert rest[1..] == [];
    MatchEmpty(s, j2);
    AtEndIff(s, j2);
    AllAcceptedDigits(s, j1, j2);
    var t := s[..j2];
    assert t[j1..] == s[j1..j2];
    assert OptionalPlusDigits(t);
  }

  lemma PhoneValidatorComplete(s: string, t: string)
    requires t in DollarPrefixes(s) && OptionalPlusDigits(t)
    ensures PhoneValidatorAccepts(s)
  {
    var b := PhoneValidatorPattern[0];
    var rest := [Piece(Digit, 9, 15)];
    assert b[1..] == rest;
    var j2 := |t|;
    assert t == s[..j2];
    AtEndIff(s, j2);
    var j1 := if 9 <= |t| <= 15 && AllDigits(t) then 0 else 1;
    assert t[j1..] == s[j1..j2];
    AllAcceptedDigits(s, j1, j2);
    assert rest[1..] == [];
    MatchEmpty(s, j2);
    MatchBranchStep(rest, s, j1);
    assert Consumes(rest[0], s, j1, j2) && MatchBranch(rest[1..], s, j2);
    MatchBranchStep(b, s, 0);
    assert Consumes(b[0], s, 0, j1);
    MatchSingle(b, s);
  }

  /**
   * The checks `full_clean` makes on a customer's own fields: a non-blank name
   * of at most 100 characters, a non-blank email, and a phone that is blank or
   * at most 15 characters and accepted by the validator. (Validators are
   * skipped for a blank value.) `objects.create` does not run them.
   */
  predicate CustomerFieldsValid(c: Customer) {
    && 0 < |c.name| <= NameMaxLength
    && c.email != ""
    && (c.phone == "" || (|c.phone| <= PhoneMaxLength && PhoneValidatorAccepts(c.phone)))
  }

  /**
   * With the length limit, a valid non-blank phone is 9 to 15 digits, or a `+`
   * and 9 to 14 digits (one more would exceed 15 characters), in each case
   * possibly followed by a newline.
   */
  lemma ValidCustomerPhoneShape(c: Customer)
    requires CustomerFieldsValid(c) && c.phone != ""
    ensures exists t :: t in DollarPrefixes(c.phone) && |t| <= PhoneMaxLength &&
                        ((9 <= |t| && AllDigits(t)) || (10 <= |t| && t[0] == '+' && AllDigits(t[1..])))
  {
    PhoneValidatorIff(c.phone);
    var t :| t in DollarPrefixes(c.phone) && OptionalPlusDigits(t);
    assert |t| <= |c.phone|;
  }

  /** The validator on its own lets through a 16-character phone the length limit refuses. */
  lemma ValidatorAdmitsOverlongPhone()
    ensures PhoneValidatorAccepts("+123456789012345")
    ensures |"+123456789012345"| > PhoneMaxLength
  {
  }

  /** `price`: at most 10 digits, 2 of them after the point. */
  predicate PriceFits(p: Product) {
    -PriceCentsBound < p.priceCents < PriceCentsBound
  }

  /** The number of decimal digits of n (one for zero). */
  function DigitCount(n: nat): (d: nat)
    ensures d >= 1
  {
    if n < 10 then 1 else 1 + DigitCount(n / 10)
  }

  function Pow10(k: nat): (p: nat)
    ensures p >= 1
  {
    if k == 0 then 1 else 10 * Pow10(k - 1)
  }

  /** n has at most k digits iff n < 10^k. */
  lemma {:induction false} DigitCountBound(n: nat, k: nat)
    requires k >= 1
    ensures DigitCount(n) <= k <==> n < Pow10(k)
    decreases k
  {
    if n >= 10 && k > 1 {
      DigitCountBound(n / 10, k - 1);
    } else if n >= 10 {
      assert Pow10(1) == 10;
    } else if k > 1 {
      Pow10Grows(k - 1);
    }
  }

  lemma Pow10Grows(k: nat)
    ensures Pow10(k) >= 10 ==> k >= 1
    ensures k >= 1 ==> Pow10(k) >= 10
  {
  }

  /** A price fits exactly when its cents have at most 10 digits. */
  lemma PriceFitsDigits(p: Product)
    ensures PriceFits(p) <==> DigitCount(if p.priceCents < 0 then -p.priceCents else p.priceCents) <= 10
  {
    var m := if p.priceCents < 0 then -p.priceCents else p.priceCents;
    DigitCountBound(m, 10);
    assert Pow10(10) == PriceCentsBound;
  }

  // ---------------------------------------------------------------------------
  // `__str__`
  // ---------------------------------------------------------------------------

  function DigitChar(d: nat): (c: char)
    requires d < 10
    ensures IsDigit(c)
  {
    ['0', '1', '2', '3', '4', '5', '6', '7', '8', '9'][d]
  }

  function DigitValue(c: char): (d: nat)
    requires IsDigit(c)
    ensures d < 10
  {
    (c as int) - ('0' as int)
  }

  /** The number a string of decimal digits denotes. */
  function DecimalValue(t: string): nat
    requires AllDigits(t)
  {
    if t == [] then 0 else 10 * DecimalValue(t[..|t| - 1]) + DigitValue(t[|t| - 1])
  }

  /** Python's `str` of a non-negative int: its decimal digits, without leading zeros. */
  function DecimalString(n: nat): (r: string)
    ensures |r| == DigitCount(n)
    ensures AllDigits(r) && DecimalValue(r) == n
    ensures r[0] == '0' ==> n == 0
  {
    if n < 10 then [DigitChar(n)]
    else
      var r := DecimalString(n / 10) + [DigitChar(n % 10)];
      assert r[..|r| - 1] == DecimalString(n / 10);
      r
  }

  /** Customer.__str__ */
  function CustomerLabel(c: Customer): (r: string)
    ensures r == c.name
  {
    c.name
  }

  /** Product.__str__ */
  function ProductLabel(p: Product): (r: string)
    ensures r == p.name
  {
    p.name
  }

  /** Order.__str__: `f"Order {self.id} - {self.customer.name}"` */
  function OrderLabel(o: Order, owner: Customer): string
    requires owner.id == o.customerId
  {
    "Order " + DecimalString(o.id) + " - " + owner.name
  }

  /** OrderItem.__str__: `f"{self.product.name} x {self.quantity}"` */
  function OrderItemLabel(item: OrderItem, product: Product): string
    requires product.id == item.productId
  {
    product.name + " x " + DecimalString(item.quantity)
  }

  /** Reads an order text back: the order id and the owner's name. */
  function ParseOrderLabel(text: string): Option<(nat, string)>
  {
    if |text| < 6 || text[..6] != "Order " then None
    else
      var n := GreedyRun(Digit, text, 6, |text| - 6);
      if n == 0 || |text| < 9 + n || text[6 + n..9 + n] != " - " then None
      else
        AllAcceptedDigits(text, 6, 6 + n);
        Some((DecimalValue(text[6..6 + n]), text[9 + n..]))
  }

  /** The number of digits that end t. */
  function TrailingDigits(t: string): (n: nat)
    ensures n <= |t| && AllDigits(t[|t| - n..])
    ensures n < |t| ==> !IsDigit(t[|t| - n - 1])
  {
    if t == [] || !IsDigit(t[|t| - 1]) then 0
    else
      var n := 1 + TrailingDigits(t[..|t| - 1]);
      assert t[|t| - n..] == t[..|t| - 1][|t| - n..] + [t[|t| - 1]];
      n
  }

  /** Reads an order-item text back: the product name and the quantity. */
  function ParseOrderItemLabel(text: string): Option<(string, nat)>
  {
    var n := TrailingDigits(text);
    if n == 0 || |text| < n + 3 || text[|text| - n - 3..|text| - n] != " x " then None
    else Some((text[..|text| - n - 3], DecimalValue(text[|text| - n..])))
  }

  /** An order's text names its id and its owner, and can be read back. */
  lemma OrderLabelRoundTrip(o: Order, owner: Customer)
    requires owner.id == o.customerId
    ensures ParseOrderLabel(OrderLabel(o, owner)) == Some((o.id, owner.name))
  {
    var d := DecimalString(o.id);
    var text := OrderLabel(o, owner);
    assert text[..6] == "Order ";
    assert text[6..6 + |d|] == d;
    assert text[6 + |d|] == ' ';
    AllAcceptedDigits(text, 6, 6 + |d|);
    GreedyRunStops(Digit, text, 6, 6 + |d|);
    assert text[6 + |d|..9 + |d|] == " - ";
    assert text[9 + |d|..] == owner.name;
  }

  /**
   * An item's text can be read back even when the product name itself contains
   * " x " or ends in digits: the quantity is the digit run that ends the text.
   */
  lemma OrderItemLabelRoundTrip(item: OrderItem, product: Product)
    requires product.id == item.productId
    ensures ParseOrderItemLabel(OrderItemLabel(item, product)) == Some((product.name, item.quantity))
  {
    var d := DecimalString(item.quantity);
    var text := OrderItemLabel(item, product);
    var n := TrailingDigits(text);
    assert text[|text| - |d|..] == d;
    assert text[|text| - |d| - 1] == ' ';
    assert n >= |d| by {
      TrailingDigitsCover(text, |d|);
    }
    assert n <= |d| by {
      assert forall i :: |text| - n <= i < |text| ==> IsDigit(text[i]) by {
        forall i | |text| - n <= i < |text| ensures IsDigit(text[i]) {
          assert text[i] == text[|text| - n..][i - (|text| - n)];
        }
      }
      assert !IsDigit(text[|text| - |d| - 1]);
    }
    assert text[|text| - n - 3..|text| - n] == " x ";
    assert text[..|text| - n - 3] == product.name;
  }

  /** When the last m characters of t are digits, TrailingDigits counts at least m. */
  lemma TrailingDigitsCover(t: string, m: nat)
    requires m <= |t| && AllDigits(t[|t| - m..])
    ensures TrailingDigits(t) >= m
  {
  }

  // ---------------------------------------------------------------------------
  // Tables and ON DELETE CASCADE
  // ---------------------------------------------------------------------------

  datatype Db = Db(
    customers: map<nat, Customer>,
    products: map<nat, Product>,
    orders: map<nat, Order>,
    items: map<nat, OrderItem>)

  /** Each row is stored under its own id, emails are unique and every foreign key resolves. */
  ghost predicate Consistent(db: Db) {
    && (forall k :: k in db.customers ==> db.customers[k].id == k)
    && (forall k :: k in db.products ==> db.products[k].id == k)
    && (forall k :: k in db.orders ==> db.orders[k].id == k)
    && (forall k :: k in db.items ==> db.items[k].id == k)
    && EmailsUnique(db.customers)
    && (forall k :: k in db.orders ==> db.orders[k].customerId in db.customers)
    && (forall k :: k in db.items ==> db.items[k].orderId in db.orders)
    && (forall k :: k in db.items ==> db.items[k].productId in db.products)
  }

  /** The ids of the orders that belong to customer cid. */
  function OrdersOf(db: Db, cid: nat): set<nat> {
    set k | k in db.orders && db.orders[k].customerId == cid
  }

  /** Deleting a customer deletes its orders, and those orders' items. */
  function DeleteCustomer(db: Db, cid: nat): Db {
    var gone := OrdersOf(db, cid);
    Db(db.customers - {cid},
       db.products,
       db.orders - gone,
       map k | k in db.items && db.items[k].orderId !in gone :: db.items[k])
  }

  /** Deleting an order deletes its items. */
  function DeleteOrder(db: Db, oid: nat): Db {
    Db(db.customers,
       db.products,
       db.orders - {oid},
       map k | k in db.items && db.items[k].orderId != oid :: db.items[k])
  }

  /** Deleting a product deletes the order items that reference it; orders stay. */
  function DeleteProduct(db: Db, pid: nat): Db {
    Db(db.customers,
       db.products - {pid},
       db.orders,
       map k | k in db.items && db.items[k].productId != pid :: db.items[k])
  }

  lemma DeleteCustomerCascades(db: Db, cid: nat)
    requires Consistent(db)
    ensures var r := DeleteCustomer(db, cid);
      && Consistent(r)
      && r.customers.Keys == db.customers.Keys - {cid}
      && (forall k :: k in r.customers ==> r.customers[k] == db.customers[k])
      && r.products == db.products
      && (forall k :: k in db.orders ==> (k in r.orders <==> db.orders[k].customerId != cid))
      && (forall k :: k in r.orders ==> r.orders[k] == db.orders[k])
      && (forall k :: k in db.items ==>
            (k in r.items <==> db.orders[db.items[k].orderId].customerId != cid))
      && (forall k :: k in r.items ==> r.items[k] == db.items[k])
  {
  }

  lemma DeleteOrderCascades(db: Db, oid: nat)
    requires Consistent(db)
    ensures var r := DeleteOrder(db, oid);
      && Consistent(r)
      && r.customers == db.customers && r.products == db.products
      && r.orders.Keys == db.orders.Keys - {oid}
      && (forall k :: k in r.orders ==> r.orders[k] == db.orders[k])
      && (forall k :: k in db.items ==> (k in r.items <==> db.items[k].orderId != oid))
      && (forall k :: k in r.items ==> r.items[k] == db.items[k])
  {
  }

  lemma DeleteProductCascades(db: Db, pid: nat)
    requires Consistent(db)
    ensures var r := DeleteProduct(db, pid);
      && Consistent(r)
      && r.customers == db.customers && r.orders == db.orders
      && r.products.Keys == db.products.Keys - {pid}
      && (forall k :: k in r.products ==> r.products[k] == db.products[k])
      && (forall k :: k in db.items ==> (k in r.items <==> db.items[k].productId != pid))
      && (forall k :: k in r.items ==> r.items[k] == db.items[k])
  {
  }
}
