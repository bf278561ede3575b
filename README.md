# CRM customer creation, modelled in Dafny

This project models the core of a small Django/GraphQL CRM: the `createCustomer`
mutation (`CreateCustomer.mutate` in `crm/schema.py`) and the records it relies on
(`crm/models.py`).

The mutation works in four steps. It checks whether the email is already in the
customer table. If a non-empty phone was given, it checks the phone against
`^(\+\d{10,15}|\d{3}-\d{3}-\d{4})$`. It collects every failure in an `errors` list.
If nothing failed, it inserts the customer. Each possible outcome is turned into a
payload `{customer, success, message, errors}`.

Files and modules:

- `wrappers.dfy` (`Wrappers`): `Option` and `Result`.
- `regex.dfy` (`PyRegex`): the part of Python's `re` module that the two phone
  patterns use. It handles single-character atoms (a literal or `\d`) with greedy
  `{min,max}` repeats, alternation, and Python's `$`, which also matches just before
  a final newline. `MatchBranch` works the way the engine does: it takes as many
  characters as it can, then gives them back one at a time. `MatchBranchStep`
  proves that this agrees with the declarative reading.
- `models.dfy` (`Models`): the `Customer`, `Product`, `Order` and `OrderItem`
  records. Each table is a map from primary key to row. The module also holds:
  - email uniqueness;
  - the Customer phone validator `^\+?\d{9,15}$` and its characterisation;
  - the field checks that `full_clean` would make;
  - the price's digit limit (the price is held in cents);
  - the `__str__` labels, each with a parser that reads it back;
  - `ON DELETE CASCADE` for deleting a customer, an order or a product.
- `store.dfy` (`CustomerStore`): the class `Table`, which stands for `Customer.objects`.
  It holds a map of rows and the next primary key. `Table.Create` is the
  `objects.create` step. The table enforces its own schema: the phone is NOT NULL
  and the email is UNIQUE. Anything else the database does reaches the model as a
  `Fault`: either `ConflictAtInsert` (another writer committed the same email after
  the mutation's check) or `Failure(detail)` (any other exception, with the text of
  `str(e)`).
- `schema.dfy` (`Schema`): the phone format and its characterisation; `ValidationErrors`;
  the specification `MutateSpec`; and the imperative `Mutate`. `Mutate` builds
  `errors` by appending, calls `Table.Create`, and maps the result. It is proved to
  return `MutateSpec` of the old table and to leave the table as `RowsAfter` says.
  The lemmas about `MutateSpec` state the mutation's properties.

Modelling choices:

- Python's `$` matches at the end of the string and also just before a final
  `"\n"`. This is modelled for both patterns, so `"555-123-4567\n"` passes the
  mutation's check.
- `PhoneFormatPlain` and `PhoneFormatTrailingNewline` together describe every string.
- The international form of the mutation's phone check requires the `+`
  (`crm/schema.py:47`), while the `Customer` phone validator makes it optional
  (`crm/models.py:13`). Each is modelled as written.
- A successful payload carries `errors=None` (`crm/schema.py:72`), not an empty
  list.
- The mutation does not check that `name` is non-empty, and neither does the
  model.

## Model

| member | source | states |
|---|---|---|
| `PyRegex.MatchBranchStep` | crm/schema.py:47-48 | `re.match`'s greedy-then-backtrack search for a branch succeeds exactly when the first repeat can take some run of accepted characters after which the rest of the branch matches |
| `Schema.PhoneFormatIff` | crm/schema.py:47-48 | the phone check accepts exactly `+` with 10 to 15 digits, or `DDD-DDD-DDDD`, possibly followed by one newline |
| `Schema.PhoneFormatPlain` | crm/schema.py:47-48 | for a phone that does not end in a newline, the check holds exactly for the international or the dashed shape |
| `Schema.PhoneFormatTrailingNewline` | crm/schema.py:47-48 | a phone with one trailing newline passes exactly when the phone without it has one of the two shapes |
| `Schema.PhoneFormatAcceptsExamples` | crm/schema.py:47-51 | "+1234567890", "123-456-7890", "+15551234567" and "555-123-4567" pass |
| `Schema.PhoneFormatRefusesExamples` | crm/schema.py:47-51 | "12345" (too short) and "15551234567" (no `+`) fail |
| `Schema.PhoneFormatNewlineExample` | crm/schema.py:47-48 | "555-123-4567\n" passes because of `$` |
| `Schema.ValidationErrors` | crm/schema.py:35-51 | the email error is present iff the email is taken; the phone error is present iff a non-empty phone fails the format; the list is empty iff both checks pass; when both errors occur the list is exactly [email error, phone error] |
| `Schema.BlankPhoneNotChecked` | crm/schema.py:46 | a missing or empty phone never adds a phone error |
| `Schema.MutateSpec` | crm/schema.py:34-90 | in every payload, `success` holds iff `customer` is present and iff `errors` is absent; a failure always carries at least one error; on success the customer has the given name, email and phone and the next id, and the email was not taken |
| `Schema.Mutate` | crm/schema.py:34-90 | the step-by-step mutation returns `MutateSpec` of the table before it; the table gains exactly the created row on success and is otherwise unchanged; the table invariant is kept |
| `Schema.DuplicateEmailRejected` | crm/schema.py:40-60 | a taken email gives `success` false, no customer, the message "Customer creation failed.", "Email already exists." as the first error, and an unchanged table |
| `Schema.ErrorsAccumulate` | crm/schema.py:35-60 | a taken email together with a badly formatted phone yields both errors, the email's first |
| `Schema.ValidationFailureSkipsInsert` | crm/schema.py:54-60 | when validation fails, the payload carries exactly the validation errors and does not depend on what an insert would have met, so no insert happens |
| `Schema.SuccessfulCreation` | crm/schema.py:62-74 | a valid request whose insert meets no fault creates the customer with the given fields under a fresh id; the result is "Customer created successfully." with `errors` absent; the table grows by that one key and every other row stays as it was |
| `Schema.ConflictAtInsertReported` | crm/schema.py:76-82 | an integrity error at insert gives `success` false, no customer, "Database integrity error." and the single error "Email must be unique." |
| `Schema.UnexpectedFailureReported` | crm/schema.py:84-90 | any other insert failure gives "Unexpected error occurred." with the failure's own text as the single error |
| `Schema.MutateKeepsInvariant` | crm/models.py:7 | every call keeps emails pairwise distinct, keeps every row under its own id, and keeps every id below the next one |
| `Schema.RepeatedRequestIsDuplicate` | crm/schema.py:40-74 | if a request creates the customer, the same request again is refused as a duplicate and leaves the table alone; afterwards exactly one row holds that email |
| `Schema.JaneDoeCreated` | crm/schema.py:62-74 | Jane Doe with "+15551234567" in an empty table is created with id 1 and exactly those fields |
| `Schema.PhoneExamplesThroughMutation` | crm/schema.py:46-74 | with a fresh email, phone "555-123-4567" is created, and phone "12345" fails with only the format error |
| `Schema.DashedFormFailsValidator` | crm/models.py:12-15 | every dashed phone the mutation accepts is refused by the Customer phone validator |
| `Schema.BareDigitsFailMutation` | crm/schema.py:47-51 | a phone made only of digits never passes the mutation, although the validator accepts any such phone of 9 to 15 digits |
| `Schema.InternationalVersusValidator` | crm/models.py:8-15 | every international phone the mutation accepts also passes the validator; it exceeds the 15-character field limit exactly when it has 15 digits |
| `Schema.OmittedPhoneReportedAsDuplicate` | crm/schema.py:62-82 | as written, an omitted phone with a fresh email and no fault ends as "Email must be unique." (see Findings) |
| `Schema.StoredPhone` | crm/models.py:8-10 | the corrected phone to store is always present, is checked exactly when the given phone would be, and is the given phone when one was given |
| `Schema.MutateStoringBlankPhone` | crm/schema.py:34-90 | the corrected mutation behaves as `MutateSpec` with a missing phone stored as blank; a valid request with a fresh email and no fault always succeeds |
| `Schema.OmittedPhoneStoredBlank` | crm/schema.py:62-74 | with that correction, an omitted phone creates the customer with a blank phone |
| `CustomerStore.InsertOutcome` | crm/schema.py:63-67 | the insert succeeds iff there is no fault, a phone is given and the email is not in the table; on success the row has the next id and the given fields; an outside failure keeps its text; every other failure is an integrity error |
| `CustomerStore.InsertKeepsInvariant` | crm/models.py:7 | an insert keeps emails unique and ids consistent; on success the table grows by exactly the next id; existing rows are untouched |
| `CustomerStore.Table.Create` | crm/schema.py:63-67 | `objects.create` returns `InsertOutcome` of the old table, adds exactly the returned row on success, advances the next id only then, and keeps the table valid |
| `CustomerStore.Table.constructor` | crm/models.py:5-17 | a new table is empty, valid, and hands out id 1 first |
| `Models.PhoneValidatorIff` | crm/models.py:12-15 | the Customer phone validator accepts exactly an optional `+` followed by 9 to 15 digits, possibly followed by one newline |
| `Models.ValidCustomerPhoneShape` | crm/models.py:8-16 | a customer whose fields are valid has a blank phone, or a phone of at most 15 characters that is 9 or more digits, or `+` and 9 or more digits (newline aside) |
| `Models.ValidatorAdmitsOverlongPhone` | crm/models.py:9-13 | the validator alone accepts "+123456789012345", which is longer than the 15-character limit |
| `Models.PriceFitsDigits` | crm/models.py:25 | a price held in cents fits `max_digits=10, decimal_places=2` exactly when its cents have at most 10 digits |
| `Models.DecimalString` | crm/models.py:35-36 | Python's `str` of a non-negative integer is its digits without leading zeros, and it denotes the number |
| `Models.CustomerLabel` | crm/models.py:19-20 | a customer's label is its name |
| `Models.ProductLabel` | crm/models.py:27-28 | a product's label is its name |
| `Models.OrderLabelRoundTrip` | crm/models.py:35-36 | "Order <id> - <customer name>" can be read back to the order id and the owner's name |
| `Models.OrderItemLabelRoundTrip` | crm/models.py:44-45 | "<product name> x <quantity>" can be read back to the product name and the quantity, even when the name contains " x " |
| `Models.DeleteCustomerCascades` | crm/models.py:31-41 | deleting a customer removes that customer, exactly its orders and exactly those orders' items; everything else is unchanged and every foreign key still resolves |
| `Models.DeleteOrderCascades` | crm/models.py:39-41 | deleting an order removes exactly that order and its items; everything else is unchanged and consistent |
| `Models.DeleteProductCascades` | crm/models.py:39-42 | deleting a product removes exactly the order items that reference it; orders and customers stay and everything remains consistent |

## Findings

| source | as written | input that shows it | evidently intended | confidence | as-written member | corrected member |
|---|---|---|---|---|---|---|
| crm/schema.py:63-67 | When the phone is omitted, `phone=None` is passed to `objects.create`. The `phone` column has no `null=True` (crm/models.py:8-17), so it is NOT NULL. The insert raises `IntegrityError`, which is reported as "Email must be unique." | name "Jane Doe", email "jane@example.com", phone omitted, email not yet in the table | the phone is optional (`phone=None`, `blank=True`), so the customer should be created with a blank phone | high for PostgreSQL, SQLite and MySQL backends; not executed | `Schema.OmittedPhoneReportedAsDuplicate` | `Schema.MutateStoringBlankPhone` |

## Left out

- The GraphQL and Django wiring (`CustomerType`, `Arguments`, the field declarations, the root `Mutation`) is left out. It is framework plumbing with no behaviour of its own.
- The concurrency behind the insert race is left out. The race appears only as the `ConflictAtInsert` fault, which the environment chooses.
- The text of `str(e)` for unexpected exceptions is left out. It is an opaque string carried by `Failure(detail)`.
- `\d` is modelled as ASCII `0`-`9`. Python's `\d` on `str` patterns also matches other Unicode decimal digits, so the model accepts fewer phones than Python does.
- Email comparison is exact string equality. A database collation that ignores case would find more duplicates.
- The syntax check of `EmailField` and its default maximum length are left out. Both are library behaviour not visible in the code.
- The field length limits (`max_length=100`, `max_length=15`) are not enforced by `Table.Create`. Whether an over-long value is rejected at insert depends on the database backend. Where it is rejected, the rejection is a `Failure` fault. The limits are stated in `CustomerFieldsValid`, which models what `full_clean` checks; `objects.create` does not call `full_clean`.
- The duplicate-email pre-check `Customer.objects.filter(email=email).exists()` (`crm/schema.py:40`) is modelled as total, through `Table.HasEmail` and `EmailTaken`. In the source it runs before the `try` block, so a database error raised there escapes the mutation unhandled instead of becoming "Unexpected error occurred."; the model's `Fault` applies only to the insert.
- Ids used up by failed inserts are left out. The next id advances only on success.
- `Order.created_at` is left out. It is a wall-clock value set by the framework.
- Decimal arithmetic on `price` is left out. A price is a whole number of cents, so a value with more than two decimal places cannot be represented.
- `OrderItem.quantity` is a `nat`. The upper bound that Django's validator derives from the database integer range is left out.
