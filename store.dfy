/**
 * The customer table as the mutation sees it through `Customer.objects`: a map
 * from primary key to row and the next key the database will hand out.
 *
 * `objects.create` is an abstract step. The table enforces its own schema
 * (phone is NOT NULL, email is UNIQUE) and reports a violation as an
 * integrity error. Whatever else the database does is outside the model and
 * arrives as a `Fault`: a conflicting row committed by someone else between
 * the mutation's check and its insert, or any other failure with its text.
 */
module CustomerStore {
  import opened Wrappers
  import opened Models

  /** What the environment does to one insert, beyond the table's own constraints. */
  datatype Fault =
    | NoFault
    | ConflictAtInsert          // another writer committed the same email in between
    | Failure(detail: string)   // any other exception; `detail` is `str(e)`

  /** The exceptions `objects.create` may raise. */
  datatype InsertError = IntegrityError | OtherError(detail: string)

  /** Rows are stored under their own id, every id is below the next one, emails are unique. */
  predicate TableInvariant(rows: map<nat, Customer>, nextId: nat) {
    && (forall k :: k in rows ==> rows[k].id == k && k < nextId)
    && EmailsUnique(rows)
  }

  /** The outcome of `Customer.objects.create(name=name, email=email, phone=phone)`. */
  function InsertOutcome(rows: map<nat, Customer>, nextId: nat, name: string, email: string,
                         phone: Option<string>, fault: Fault): (r: Result<Customer, InsertError>)
    ensures r.Ok? <==> fault == NoFault && phone.Some? && !EmailTaken(rows, email)
    ensures r.Ok? ==> r.value == Customer(nextId, name, email, phone.value)
    ensures fault.Failure? ==> r == Err(OtherError(fault.detail))
    ensures !fault.Failure? && !r.Ok? ==> r == Err(IntegrityError)
  {
    match fault
    case ConflictAtInsert => Err(IntegrityError)
    case Failure(detail) => Err(OtherError(detail))
    case NoFault =>
      if phone.None? then Err(IntegrityError)           // NOT NULL constraint on phone
      else if EmailTaken(rows, email) then Err(IntegrityError)   // UNIQUE constraint on email
      else Ok(Customer(nextId, name, email, phone.value))
  }

  /** The table after an insert: the new row is added under its id, or nothing changes. */
  function RowsAfterInsert(rows: map<nat, Customer>, r: Result<Customer, InsertError>): map<nat, Customer> {
    if r.Ok? then rows[r.value.id := r.value] else rows
  }

  /** A successful insert adds exactly one row and keeps the table's invariant. */
  lemma InsertKeepsInvariant(rows: map<nat, Customer>, nextId: nat, name: string, email: string,
                             phone: Option<string>, fault: Fault)
    requires TableInvariant(rows, nextId)
    ensures var r := InsertOutcome(rows, nextId, name, email, phone, fault);
      && TableInvariant(RowsAfterInsert(rows, r), if r.Ok? then nextId + 1 else nextId)
      && (r.Ok? ==> nextId !in rows && |RowsAfterInsert(rows, r)| == |rows| + 1)
      && (forall k :: k in rows ==> k in RowsAfterInsert(rows, r) && RowsAfterInsert(rows, r)[k] == rows[k])
  {
  }

  /** `Customer.objects`: the rows of the table and the next primary key. */
  class Table {
    var rows: map<nat, Customer>
    var nextId: nat

    ghost predicate Valid()
      reads this
    {
      TableInvariant(rows, nextId)
    }

    constructor ()
      ensures Valid() && rows == map[] && nextId == 1
    {
      rows := map[];
      nextId := 1;
    }

    /** `Customer.objects.filter(email=email).exists()` */
    predicate HasEmail(email: string)
      reads this
    {
      EmailTaken(rows, email)
    }

    /** `Customer.objects.create(name=name, email=email, phone=phone)` */
    method Create(name: string, email: string, phone: Option<string>, fault: Fault)
      returns (r: Result<Customer, InsertError>)
      requires Valid()
      modifies this
      ensures Valid()
      ensures r == InsertOutcome(old(rows), old(nextId), name, email, phone, fault)
      ensures rows == RowsAfterInsert(old(rows), r)
      ensures nextId == if r.Ok? then old(nextId) + 1 else old(nextId)
    {
      InsertKeepsInvariant(rows, nextId, name, email, phone, fault);
      r := InsertOutcome(rows, nextId, name, email, phone, fault);
      if r.Ok? {
        rows := rows[nextId := r.value];
        nextId := nextId + 1;
      }
    }
  }
}
