/**
 * The `createCustomer` mutation (crm/schema.py, `CreateCustomer.mutate`):
 * validate the email and the phone, collecting every failure, then insert the
 * customer and turn the insert's exceptions into a result record.
 *
 * `MutateSpec` states the outcome of one call as a function of the table and
 * the inputs; `Mutate` is the step-by-step operation, proved to produce it.
 */
module Schema {
  import opened Wrappers
  import opened PyRegex
  import opened Models
  import opened CustomerStore

  const EmailExistsError := "Email already exists."
  const PhoneFormatError := "Invalid phone format. Use +1234567890 or 123-456-7890."
  const ValidationFailedMessage := "Customer creation failed."
  const CreatedMessage := "Customer created successfully."
  const IntegrityMessage := "Database integrity error."
  const UniqueEmailError := "Email must be unique."
  const UnexpectedMessage := "Unexpected error occurred."

  /** The mutation's payload: `customer`, `success`, `message`, `errors`. */
  datatype Payload = Payload(
    customer: Option<Customer>,
    success: bool,
    message: string,
    errors: Option<seq<string>>)

  // ---------------------------------------------------------------------------
  // The phone format: r"^(\+\d{10,15}|\d{3}-\d{3}-\d{4})$" with re.match
  // ---------------------------------------------------------------------------

  const InternationalBranch: Branch := [Piece(Literal('+'), 1, 1), Piece(Digit, 10, 15)]
  const DashedBranch: Branch :=
    [Piece(Digit, 3, 3), Piece(Literal('-'), 1, 1), Piece(Digit, 3, 3), Piece(Literal('-'), 1, 1), Piece(Digit, 4, 4)]
  const PhonePattern: seq<Branch> := [InternationalBranch, DashedBranch]

  /** `re.match(phone_pattern, phone)` succeeds. */
  predicate PhoneFormatOk(phone: string) {
    Match(PhonePattern, phone)
  }

  /** A mandatory `+` followed by 10 to 15 digits. */
  predicate IsInternational(t: string) {
    11 <= |t| <= 16 && t[0] == '+' && AllDigits(t[1..])
  }

  /** `DDD-DDD-DDDD` */
  predicate IsDashed(t: string) {
    && |t| == 12
    && AllDigits(t[..3]) && t[3] == '-'
    && AllDigits(t[4..7]) && t[7] == '-'
    && AllDigits(t[8..])
  }

  lemma InternationalSound(s: string)
    requires MatchBranch(InternationalBranch, s, 0)
    ensures exists t :: t in DollarPrefixes(s) && IsInternational(t)
  {
    var b := InternationalBranch;
    var rest := [Piece(Digit, 10, 15)];
    assert b[1..] == rest && rest[1..] == [];
    MatchBranchStep(b, s, 0);
    var j1: nat :| Consumes(b[0], s, 0, j1) && MatchBranch(rest, s, j1);
    MatchBranchStep(rest, s, j1);
    var j2: nat :| Consumes(rest[0], s, j1, j2) && MatchBranch(rest[1..], s, j2);
    MatchEmpty(s, j2);
    AtEndIff(s, j2);
    AllAcceptedDigits(s, 1, j2);
    var t := s[..j2];
    assert t[1..] == s[1..j2];
    assert IsInternational(t);
  }

  lemma InternationalComplete(s: string, t: string)
    requires t in DollarPrefixes(s) && IsInternational(t)
    ensures MatchBranch(InternationalBranch, s, 0)
  {
    var b := InternationalBranch;
    var rest := [Piece(Digit, 10, 15)];
    assert b[1..] == rest && rest[1..] == [];
    var j2 := |t|;
    assert t == s[..j2];
    AtEndIff(s, j2);
    assert t[1..] == s[1..j2];
    AllAcceptedDigits(s, 1, j2);
    MatchEmpty(s, j2);
    MatchBranchStep(rest, s, 1);
    assert Consumes(rest[0], s, 1, j2) && MatchBranch(rest[1..], s, j2);
    MatchBranchStep(b, s, 0);
    assert Consumes(b[0], s, 0, 1);
  }

  /** The five fixed-width pieces of `\d{3}-\d{3}-\d{4}$`, position by position. */
  predicate DashedAt(s: string) {
    && 12 <= |s|
    && AllAccepted(Digit, s, 0, 3) && s[3] == '-'
    && AllAccepted(Digit, s, 4, 7) && s[7] == '-'
    && AllAccepted(Digit, s, 8, 12)
    && AtEnd(s, 12)
  }

  lemma DashedBranchSteps(s: string)
    ensures MatchBranch(DashedBranch, s, 0) <==> DashedAt(s)
  {
  }

  lemma DashedIff(s: string)
    ensures MatchBranch(DashedBranch, s, 0) <==> exists t :: t in DollarPrefixes(s) && IsDashed(t)
  {
    DashedBranchSteps(s);
    if DashedAt(s) {
      var t := s[..12];
      AtEndIff(s, 12);
      AllAcceptedDigits(s, 0, 3);
      AllAcceptedDigits(s, 4, 7);
      AllAcceptedDigits(s, 8, 12);
      assert t[..3] == s[0..3] && t[4..7] == s[4..7] && t[8..] == s[8..12];
      assert IsDashed(t);
    }
    if exists t :: t in DollarPrefixes(s) && IsDashed(t) {
      var t :| t in DollarPrefixes(s) && IsDashed(t);
      assert t == s[..12];
      AtEndIff(s, 12);
      assert t[..3] == s[0..3] && t[4..7] == s[4..7] && t[8..] == s[8..12];
      AllAcceptedDigits(s, 0, 3);
      AllAcceptedDigits(s, 4, 7);
      AllAcceptedDigits(s, 8, 12);
      assert DashedAt(s);
    }
  }

  /**
   * The mutation's phone check accepts exactly a `+` with 10 to 15 digits, or
   * `DDD-DDD-DDDD`, either of them possibly followed by one newline.
   */
  lemma PhoneFormatIff(s: string)
    ensures PhoneFormatOk(s) <==>
            exists t :: t in DollarPrefixes(s) && (IsInternational(t) || IsDashed(t))
  {
    MatchAny(PhonePattern, s);
    assert forall b :: b in PhonePattern <==> b == InternationalBranch || b == DashedBranch;
    DashedIff(s);
    if MatchBranch(InternationalBranch, s, 0) {
      InternationalSound(s);
    }
    if exists t :: t in DollarPrefixes(s) && IsInternational(t) {
      var t :| t in DollarPrefixes(s) && IsInternational(t);
      InternationalComplete(s, t);
    }
  }

  /** For a phone that does not end in a newline: the two shapes and nothing else. */
  lemma PhoneFormatPlain(s: string)
    requires !EndsWithNewline(s)
    ensures PhoneFormatOk(s) <==> IsInternational(s) || IsDashed(s)
  {
    PhoneFormatIff(s);
  }

  /** `$` also matches before a final newline, so one trailing newline is let through. */
  lemma PhoneFormatTrailingNewline(t: string)
    ensures PhoneFormatOk(t + "\n") <==> IsInternational(t) || IsDashed(t)
  {
    var s := t + "\n";
    PhoneFormatIff(s);
    assert s[..|s| - 1] == t;
    assert DollarPrefixes(s) == {s, t};
    assert !IsInternational(s) && !IsDashed(s) by {
      assert s[|s| - 1] == '\n';
      if |s| == 12 {
        assert s[8..][3] == '\n';
      }
      if 2 <= |s| {
        assert s[1..][|s| - 2] == '\n';
      }
    }
  }

  /** The two shapes named by the format's own error message, and the two in the examples. */
  lemma PhoneFormatAcceptsExamples()
    ensures PhoneFormatOk("+1234567890") && PhoneFormatOk("123-456-7890")
    ensures PhoneFormatOk("+15551234567") && PhoneFormatOk("555-123-4567")
  {
    DashedExample("123-456-7890");
    DashedExample("555-123-4567");
    InternationalExample("+1234567890");
    InternationalExample("+15551234567");
  }

  lemma DashedExample(t: string)
    requires |t| == 12 && t[3] == '-' && t[7] == '-'
    requires forall i :: 0 <= i < 12 && i != 3 && i != 7 ==> IsDigit(t[i])
    ensures IsDashed(t) && PhoneFormatOk(t)
  {
    assert AllDigits(t[..3]) && AllDigits(t[4..7]) && AllDigits(t[8..]) by {
      forall i | 0 <= i < 3 ensures t[..3][i] == t[i] && t[4..7][i] == t[4 + i] { }
      forall i | 0 <= i < 4 ensures t[8..][i] == t[8 + i] { }
    }
    assert IsDashed(t);
    PhoneFormatPlain(t);
  }

  lemma InternationalExample(t: string)
    requires 11 <= |t| <= 16 && t[0] == '+'
    requires forall i :: 1 <= i < |t| ==> IsDigit(t[i])
    ensures IsInternational(t) && PhoneFormatOk(t)
  {
    assert AllDigits(t[1..]) by {
      forall i | 0 <= i < |t| - 1 ensures t[1..][i] == t[i + 1] { }
    }
    assert IsInternational(t);
    PhoneFormatPlain(t);
  }

  /** Too short, and missing the `+`: both refused. */
  lemma PhoneFormatRefusesExamples()
    ensures !PhoneFormatOk("12345")
    ensures !PhoneFormatOk("15551234567")
  {
    BareDigitsFailMutation("12345");
    BareDigitsFailMutation("15551234567");
  }

  /** One trailing newline is let through by `$`. */
  lemma PhoneFormatNewlineExample()
    ensures PhoneFormatOk("555-123-4567\n")
  {
    var t := "555-123-4567";
    DashedExample(t);
    PhoneFormatTrailingNewline(t);
    assert "555-123-4567\n" == t + "\n";
  }

  // ---------------------------------------------------------------------------
  // How the mutation's format relates to the model's own phone validator
  // ---------------------------------------------------------------------------

  /** The dashed form passes the mutation but fails the Customer phone validator. */
  lemma DashedFormFailsValidator(t: string)
    requires IsDashed(t)
    ensures PhoneFormatOk(t) && !PhoneValidatorAccepts(t)
  {
    assert t[11] == t[8..][3];
    PhoneFormatPlain(t);
    PhoneValidatorIff(t);
    assert DollarPrefixes(t) == {t};
    assert t[3] == t[1..][2];
    assert t[0] == t[..3][0];
  }

  /** Bare digits never pass the mutation, though the validator takes 9 to 15 of them. */
  lemma BareDigitsFailMutation(t: string)
    requires AllDigits(t)
    ensures !PhoneFormatOk(t)
    ensures 9 <= |t| <= 15 ==> PhoneValidatorAccepts(t)
  {
    if t != [] {
      assert !EndsWithNewline(t);
    }
    PhoneFormatPlain(t);
    if |t| == 12 {
      assert !IsDashed(t);
    }
    if 9 <= |t| <= 15 {
      PhoneValidatorComplete(t, t);
    }
  }

  /**
   * The international form fits the validator while it has at most 15
   * characters; with 15 digits it is 16 characters, over the field's limit.
   */
  lemma InternationalVersusValidator(t: string)
    requires IsInternational(t)
    ensures PhoneFormatOk(t) && PhoneValidatorAccepts(t)
    ensures |t| > PhoneMaxLength <==> |t| == 16
  {
  }

  // ---------------------------------------------------------------------------
  // Validation
  // ---------------------------------------------------------------------------

  /** `if phone:` — the format is checked only for a given, non-empty phone. */
  predicate PhoneChecked(phone: Option<string>) {
    phone.Some? && phone.value != ""
  }

  /** The `errors` list the two checks build, email first. */
  function ValidationErrors(emailTaken: bool, phone: Option<string>): (errs: seq<string>)
    ensures EmailExistsError in errs <==> emailTaken
    ensures PhoneFormatError in errs <==> PhoneChecked(phone) && !PhoneFormatOk(phone.value)
    ensures errs == [] <==> !emailTaken && (PhoneChecked(phone) ==> PhoneFormatOk(phone.value))
    ensures |errs| <= 2 && (|errs| == 2 ==> errs == [EmailExistsError, PhoneFormatError])
    ensures forall e :: e in errs ==> e == EmailExistsError || e == PhoneFormatError
  {
    (if emailTaken then [EmailExistsError] else []) +
    (if PhoneChecked(phone) && !PhoneFormatOk(phone.value) then [PhoneFormatError] else [])
  }

  // ---------------------------------------------------------------------------
  // The mutation
  // ---------------------------------------------------------------------------

  /** The payload one call returns, given the table before it and what the insert meets. */
  function MutateSpec(rows: map<nat, Customer>, nextId: nat, name: string, email: string,
                      phone: Option<string>, fault: Fault): (r: Payload)
    ensures r.success <==> r.customer.Some?
    ensures r.success <==> r.errors.None?
    ensures r.errors.Some? ==> r.errors.value != []
    ensures r.success ==> phone.Some? && r.customer.value == Customer(nextId, name, email, phone.value)
    ensures r.success ==> !EmailTaken(rows, email) && r.message == CreatedMessage
  {
    var errs := ValidationErrors(EmailTaken(rows, email), phone);
    if errs != [] then Payload(None, false, ValidationFailedMessage, Some(errs))
    else
      match InsertOutcome(rows, nextId, name, email, phone, fault)
      case Ok(c) => Payload(Some(c), true, CreatedMessage, None)
      case Err(IntegrityError) => Payload(None, false, IntegrityMessage, Some([UniqueEmailError]))
      case Err(OtherError(detail)) => Payload(None, false, UnexpectedMessage, Some([detail]))
  }

  /** The table after the call: the created customer added, or unchanged. */
  function RowsAfter(rows: map<nat, Customer>, r: Payload): map<nat, Customer>
    requires r.success ==> r.customer.Some?
  {
    if r.success then rows[r.customer.value.id := r.customer.value] else rows
  }

  /** `CreateCustomer.mutate(name, email, phone)` against the table. */
  method Mutate(table: Table, name: string, email: string, phone: Option<string>, fault: Fault)
    returns (r: Payload)
    requires table.Valid()
    modifies table
    ensures table.Valid()
    ensures r == MutateSpec(old(table.rows), old(table.nextId), name, email, phone, fault)
    ensures table.rows == RowsAfter(old(table.rows), r)
    ensures table.nextId == if r.success then old(table.nextId) + 1 else old(table.nextId)
  {
    var errors: seq<string> := [];

    if table.HasEmail(email) {
      errors := errors + [EmailExistsError];
    }

    if phone.Some? && phone.value != "" {
      if !PhoneFormatOk(phone.value) {
        errors := errors + [PhoneFormatError];
      }
    }

    assert errors == ValidationErrors(EmailTaken(table.rows, email), phone);
    if errors != [] {
      return Payload(None, false, ValidationFailedMessage, Some(errors));
    }

    var created := table.Create(name, email, phone, fault);
    match created
    case Ok(customer) =>
      r := Payload(Some(customer), true, CreatedMessage, None);
    case Err(IntegrityError) =>
      r := Payload(None, false, IntegrityMessage, Some([UniqueEmailError]));
    case Err(OtherError(detail)) =>
      r := Payload(None, false, UnexpectedMessage, Some([detail]));
  }

  // ---------------------------------------------------------------------------
  // Properties of one call
  // ---------------------------------------------------------------------------

  /** A taken email is refused before any insert, and the table is left alone. */
  lemma DuplicateEmailRejected(rows: map<nat, Customer>, nextId: nat, name: string, email: string,
                               phone: Option<string>, fault: Fault)
    requires EmailTaken(rows, email)
    ensures var r := MutateSpec(rows, nextId, name, email, phone, fault);
      && !r.success && r.customer.None?
      && r.message == ValidationFailedMessage
      && r.errors.Some? && r.errors.value[0] == EmailExistsError
      && RowsAfter(rows, r) == rows
  {
  }

  /** A missing or empty phone is never format-checked. */
  lemma BlankPhoneNotChecked(emailTaken: bool, phone: Option<string>)
    requires phone == None || phone == Some("")
    ensures ValidationErrors(emailTaken, phone) == if emailTaken then [EmailExistsError] else []
  {
  }

  /** Both failures are reported together, the email's first. */
  lemma ErrorsAccumulate(rows: map<nat, Customer>, nextId: nat, name: string, email: string,
                         phone: string, fault: Fault)
    requires EmailTaken(rows, email) && phone != "" && !PhoneFormatOk(phone)
    ensures MutateSpec(rows, nextId, name, email, Some(phone), fault) ==
            Payload(None, false, ValidationFailedMessage, Some([EmailExistsError, PhoneFormatError]))
  {
  }

  /**
   * When validation fails no insert is attempted: the payload does not depend
   * on what the insert would have met, and carries exactly the validation errors.
   */
  lemma ValidationFailureSkipsInsert(rows: map<nat, Customer>, nextId: nat, name: string, email: string,
                                     phone: Option<string>, fault1: Fault, fault2: Fault)
    requires ValidationErrors(EmailTaken(rows, email), phone) != []
    ensures MutateSpec(rows, nextId, name, email, phone, fault1) ==
            MutateSpec(rows, nextId, name, email, phone, fault2) ==
            Payload(None, false, ValidationFailedMessage, Some(ValidationErrors(EmailTaken(rows, email), phone)))
  {
  }

  /**
   * A valid request whose insert meets nothing adds exactly one customer, with
   * the given fields and a fresh id, and touches no other row.
   */
  lemma SuccessfulCreation(rows: map<nat, Customer>, nextId: nat, name: string, email: string, phone: string)
    requires TableInvariant(rows, nextId)
    requires ValidationErrors(EmailTaken(rows, email), Some(phone)) == []
    ensures var r := MutateSpec(rows, nextId, name, email, Some(phone), NoFault);
      && r == Payload(Some(Customer(nextId, name, email, phone)), true, CreatedMessage, None)
      && nextId !in rows
      && RowsAfter(rows, r).Keys == rows.Keys + {nextId}
      && (forall k :: k in rows ==> RowsAfter(rows, r)[k] == rows[k])
  {
  }

  /** A conflicting row committed after the check is reported as a uniqueness error. */
  lemma ConflictAtInsertReported(rows: map<nat, Customer>, nextId: nat, name: string, email: string,
                                 phone: Option<string>)
    requires ValidationErrors(EmailTaken(rows, email), phone) == []
    ensures MutateSpec(rows, nextId, name, email, phone, ConflictAtInsert) ==
            Payload(None, false, IntegrityMessage, Some([UniqueEmailError]))
  {
  }

  /** Any other failure of the insert is reported with its own text as the single error. */
  lemma UnexpectedFailureReported(rows: map<nat, Customer>, nextId: nat, name: string, email: string,
                                  phone: Option<string>, detail: string)
    requires ValidationErrors(EmailTaken(rows, email), phone) == []
    ensures MutateSpec(rows, nextId, name, email, phone, Failure(detail)) ==
            Payload(None, false, UnexpectedMessage, Some([detail]))
  {
  }

  /** Every call keeps the table's invariant, email uniqueness included. */
  lemma MutateKeepsInvariant(rows: map<nat, Customer>, nextId: nat, name: string, email: string,
                             phone: Option<string>, fault: Fault)
    requires TableInvariant(rows, nextId)
    ensures var r := MutateSpec(rows, nextId, name, email, phone, fault);
      TableInvariant(RowsAfter(rows, r), if r.success then nextId + 1 else nextId)
  {
  }

  /**
   * The same request twice: if the first call creates the customer, the second
   * is refused as a duplicate, and exactly one row holds that email.
   */
  lemma RepeatedRequestIsDuplicate(rows: map<nat, Customer>, nextId: nat, name: string, email: string,
                                   phone: Option<string>, fault1: Fault, fault2: Fault)
    requires TableInvariant(rows, nextId)
    requires MutateSpec(rows, nextId, name, email, phone, fault1).success
    ensures var rows1 := RowsAfter(rows, MutateSpec(rows, nextId, name, email, phone, fault1));
      var r2 := MutateSpec(rows1, nextId + 1, name, email, phone, fault2);
      && !r2.success && r2.errors.Some? && r2.errors.value[0] == EmailExistsError
      && RowsAfter(rows1, r2) == rows1
      && nextId in rows1 && rows1[nextId].email == email
      && (forall k :: k in rows1 && rows1[k].email == email ==> k == nextId)
  {
    MutateKeepsInvariant(rows, nextId, name, email, phone, fault1);
    var rows1 := RowsAfter(rows, MutateSpec(rows, nextId, name, email, phone, fault1));
    assert rows1[nextId].email == email;
    assert EmailTaken(rows1, email);
  }

  /** Creating Jane Doe with an international phone in an empty table. */
  lemma JaneDoeCreated()
    ensures MutateSpec(map[], 1, "Jane Doe", "jane@example.com", Some("+15551234567"), NoFault) ==
            Payload(Some(Customer(1, "Jane Doe", "jane@example.com", "+15551234567")), true, CreatedMessage, None)
  {
  }

  /** With a fresh email, the dashed phone is created and a five-digit phone is refused. */
  lemma PhoneExamplesThroughMutation(rows: map<nat, Customer>, nextId: nat, name: string, email: string)
    requires TableInvariant(rows, nextId) && !EmailTaken(rows, email)
    ensures MutateSpec(rows, nextId, name, email, Some("555-123-4567"), NoFault).success
    ensures MutateSpec(rows, nextId, name, email, Some("12345"), NoFault) ==
            Payload(None, false, ValidationFailedMessage, Some([PhoneFormatError]))
  {
    PhoneFormatAcceptsExamples();
    PhoneFormatRefusesExamples();
    assert ValidationErrors(false, Some("12345")) == [PhoneFormatError];
  }

  // ---------------------------------------------------------------------------
  // An omitted phone
  // ---------------------------------------------------------------------------

  /**
   * As written, an omitted phone reaches `objects.create(phone=None)`; the phone
   * column is NOT NULL, so the insert raises an integrity error and the caller
   * is told the email is not unique, though no row has it.
   */
  lemma OmittedPhoneReportedAsDuplicate(rows: map<nat, Customer>, nextId: nat, name: string, email: string)
    requires !EmailTaken(rows, email)
    ensures MutateSpec(rows, nextId, name, email, None, NoFault) ==
            Payload(None, false, IntegrityMessage, Some([UniqueEmailError]))
  {
  }

  /** The phone to store: a missing phone becomes the blank value the field allows. */
  function StoredPhone(phone: Option<string>): (p: Option<string>)
    ensures p.Some?
    ensures PhoneChecked(p) <==> PhoneChecked(phone)
    ensures phone.Some? ==> p == phone
  {
    Some(phone.GetOr(""))
  }

  /**
   * The mutation with a missing phone stored as blank. Validation sees the same
   * thing as before; a valid request with a fresh email and no fault now creates
   * the customer whether or not a phone was given.
   */
  method MutateStoringBlankPhone(table: Table, name: string, email: string, phone: Option<string>, fault: Fault)
    returns (r: Payload)
    requires table.Valid()
    modifies table
    ensures table.Valid()
    ensures r == MutateSpec(old(table.rows), old(table.nextId), name, email, StoredPhone(phone), fault)
    ensures table.rows == RowsAfter(old(table.rows), r)
    ensures table.nextId == if r.success then old(table.nextId) + 1 else old(table.nextId)
    ensures (!EmailTaken(old(table.rows), email) && (PhoneChecked(phone) ==> PhoneFormatOk(phone.value)) &&
             fault == NoFault) ==> r.success
  {
    r := Mutate(table, name, email, StoredPhone(phone), fault);
  }

  /** With the blank default, an omitted phone creates the customer with a blank phone. */
  lemma OmittedPhoneStoredBlank(rows: map<nat, Customer>, nextId: nat, name: string, email: string)
    requires TableInvariant(rows, nextId) && !EmailTaken(rows, email)
    ensures MutateSpec(rows, nextId, name, email, StoredPhone(None), NoFault) ==
            Payload(Some(Customer(nextId, name, email, "")), true, CreatedMessage, None)
  {
  }
}
