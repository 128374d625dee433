/** The consistency the business layer keeps for the contacts table: every
    stored row is in the normalised form create writes after validation, and
    no two stored emails are equal ignoring case. Both operations that change
    the table keep it, so every table built from an empty one satisfies it. */
module StoreInvariant {
  import opened ContactTypes
  import opened Text
  import opened Subsequence
  import Repo = ContactRepository
  import Service = ContactService

  /** A contact in the normalised form create writes for a form that passed
      validation: text fields trimmed, name of at least two characters, a
      valid lower-case email, a positive phone, a non-blank city, and notes
      absent or non-blank. */
  predicate WellFormedContact(c: Contact) {
    && |c.nombre| >= 2 && IsTrimmed(c.nombre)
    && Service.IsValidEmail(c.email) && IsLowerCase(c.email)
    && c.telefono > 0
    && c.ciudad != [] && IsTrimmed(c.ciudad)
    && (c.notas.Some? ==> c.notas.value != [] && IsTrimmed(c.notas.value))
  }

  predicate DifferentContactEmails(x: Contact, y: Contact) {
    ToLower(x.email) != ToLower(y.email)
  }

  /** A stored row reads back as a well-formed contact, and its notes column
      is NULL rather than empty, as the insertion writes it. */
  predicate WellFormedRow(row: Repo.Row) {
    row.notas != Some("") && WellFormedContact(Repo.MapRowToContact(row))
  }

  predicate DifferentEmails(x: Repo.Row, y: Repo.Row) {
    DifferentContactEmails(Repo.MapRowToContact(x), Repo.MapRowToContact(y))
  }

  ghost predicate Inv(s: Repo.Store) {
    && Repo.Valid(s)
    && (forall i | 0 <= i < |s.rows| :: WellFormedRow(s.rows[i]))
    && Pairwise(s.rows, DifferentEmails)
  }

  lemma EmptyStoreInv()
    ensures Inv(Repo.EmptyStore)
  {
  }

  /** The text fields of a well-formed row are their own trim: normalising
      them again changes nothing. */
  lemma WellFormedRowTrimmed(row: Repo.Row)
    requires WellFormedRow(row)
    ensures Trim(row.nombre) == row.nombre && Trim(row.ciudad) == row.ciudad
    ensures row.notas.Some? ==> Trim(row.notas.value) == row.notas.value
  {
    TrimmedIsOwnTrim(row.nombre);
    TrimmedIsOwnTrim(row.ciudad);
    if row.notas.Some? {
      TrimmedIsOwnTrim(row.notas.value);
    }
  }

  /** The email of a well-formed row is its own trim and its own lower
      casing. */
  lemma WellFormedRowEmail(row: Repo.Row)
    requires WellFormedRow(row)
    ensures ToLower(row.email) == row.email && Trim(row.email) == row.email
  {
    LowerCaseCharacterized(row.email);
    Service.ValidEmailIsTrimmed(row.email);
  }

  /** Trimming a non-blank string leaves a non-empty trimmed string. */
  lemma TrimmedNonBlank(s: string)
    requires !IsBlank(s)
    ensures Trim(s) != [] && IsTrimmed(Trim(s))
  {
    TrimIsTrimmed(s);
  }

  /** The email a valid form is stored under is valid and lower case, and it
      compares equal, ignoring case, to the submitted one. */
  lemma StoredEmail(email: string)
    requires Service.EmailPattern(email)
    ensures Service.IsValidEmail(ToLower(Trim(email))) && IsLowerCase(ToLower(Trim(email)))
    ensures ToLower(ToLower(Trim(email))) == ToLower(email)
  {
    Service.EmailMatchesPattern(email);
    Service.ValidEmailIsTrimmed(email);
    assert Trim(email) == email;
    Service.LowerKeepsEmailValid(email);
    LowerCaseCharacterized(email);
    ToLowerIdempotent(email);
  }

  lemma StoredNotes(n: Option<string>)
    ensures var r := Service.NormaliseNotas(n);
      r != Some("") && (r.Some? ==> r.value != [] && IsTrimmed(r.value))
  {
    match n
    case None =>
    case Some(v) =>
      if !IsBlank(v) {
        TrimmedNonBlank(v);
      }
  }

  /** The row written for a validated form is well formed. */
  lemma NormalisedRowWellFormed(d: ContactFormData, id: Id, createdAt: nat)
    requires Service.Validate(d) == []
    ensures WellFormedRow(Repo.StoredRow(Service.Normalise(d), id, createdAt))
  {
    assert Service.PassesAll(d);
    assert Service.FieldPasses(d, Nombre) && Service.FieldPasses(d, Email) && Service.FieldPasses(d, Ciudad);
    TrimIsTrimmed(d.nombre);
    StoredEmail(d.email);
    TrimmedNonBlank(d.ciudad);
    StoredNotes(d.notas);
  }

  /** Appending a well-formed row whose email differs, ignoring case, from
      every stored one keeps the invariant. */
  lemma AppendPreservesInv(s: Repo.Store, row: Repo.Row, s': Repo.Store)
    requires Inv(s) && Repo.Valid(s') && s'.rows == s.rows + [row]
    requires WellFormedRow(row)
    requires forall i | 0 <= i < |s.rows| :: DifferentEmails(s.rows[i], row)
    ensures Inv(s')
  {
    forall i | 0 <= i < |s'.rows|
      ensures WellFormedRow(s'.rows[i])
    {
      if i < |s.rows| {
        assert s'.rows[i] == s.rows[i];
      }
    }
    forall i, j | 0 <= i < j < |s'.rows|
      ensures DifferentEmails(s'.rows[i], s'.rows[j])
    {
      assert s'.rows[i] == s.rows[i];
      if j < |s.rows| {
        assert s'.rows[j] == s.rows[j];
      }
    }
  }

  /** No stored row shares the email of a form whose email is not taken. */
  lemma FreshEmailDiffers(s: Repo.Store, email: string, row: Repo.Row)
    requires !Service.EmailTakenIn(s, email)
    requires ToLower(row.email) == ToLower(email)
    ensures forall i | 0 <= i < |s.rows| :: DifferentEmails(s.rows[i], row)
  {
    forall i | 0 <= i < |s.rows|
      ensures DifferentEmails(s.rows[i], row)
    {
      assert s.rows[i] in s.rows;
      assert Repo.MapRowToContact(s.rows[i]) in Repo.GetAll(s);
    }
  }

  /** A successful create appends the normalised row to the table. */
  lemma CreateAppendsRow(s: Repo.Store, d: ContactFormData)
    requires Service.Validate(d) == [] && !Service.EmailTakenIn(s, d.email)
    ensures Service.Create(s, d).0 == Repo.Create(s, Service.Normalise(d)).0
  {
    Service.EmailExistsIffTaken(s, d.email);
  }

  /** The row written for a valid, untaken email keeps the invariant's
      uniqueness: its email equals the submitted one ignoring case. */
  lemma NormalisedRowEmail(d: ContactFormData, id: Id, createdAt: nat)
    requires Service.Validate(d) == []
    ensures ToLower(Repo.StoredRow(Service.Normalise(d), id, createdAt).email) == ToLower(d.email)
  {
    assert Service.PassesAll(d) && Service.FieldPasses(d, Email);
    StoredEmail(d.email);
  }

  /** A successful create keeps the invariant; a failed one does not change
      the store. */
  lemma CreatePreservesInv(s: Repo.Store, d: ContactFormData)
    requires Inv(s)
    ensures Inv(Service.Create(s, d).0)
  {
    if Service.Validate(d) == [] && !Service.EmailTakenIn(s, d.email) {
      var data := Service.Normalise(d);
      var row := Repo.StoredRow(data, s.next, s.next);
      var s' := Repo.Create(s, data).0;
      CreateAppendsRow(s, d);
      assert s'.rows == s.rows + [row];
      NormalisedRowWellFormed(d, s.next, s.next);
      NormalisedRowEmail(d, s.next, s.next);
      FreshEmailDiffers(s, d.email, row);
      AppendPreservesInv(s, row, s');
    }
  }

  /** Keeping an ordered selection of the rows, with the counter unchanged,
      keeps the invariant. */
  lemma SelectionPreservesInv(s: Repo.Store, s': Repo.Store)
    requires Inv(s) && Repo.Valid(s') && SubSeq(s'.rows, s.rows)
    ensures Inv(s')
  {
    SubSeqPairwise(s'.rows, s.rows, DifferentEmails);
    forall i | 0 <= i < |s'.rows|
      ensures WellFormedRow(s'.rows[i])
    {
      SubSeqMember(s'.rows, s.rows, i);
    }
  }

  /** Delete keeps the invariant: the remaining rows are an ordered selection
      of the old ones. */
  lemma DeletePreservesInv(s: Repo.Store, id: Id)
    requires Inv(s)
    ensures Inv(Service.Delete(s, id).0)
  {
    if Repo.HasId(s.rows, id) {
      assert Service.Delete(s, id).0 == Repo.Delete(s, id).0;
      SelectionPreservesInv(s, Repo.Delete(s, id).0);
    }
  }

  /** The requests a client can make of the business layer. */
  datatype Request =
    | CreateRequest(form: ContactFormData)
    | DeleteRequest(id: Id)
    | ListRequest
    | SearchRequest(term: string)

  /** The store after serving one request. */
  function Step(s: Repo.Store, req: Request): Repo.Store {
    match req
    case CreateRequest(form) => Service.Create(s, form).0
    case DeleteRequest(id) => Service.Delete(s, id).0
    case ListRequest => s
    case SearchRequest(_) => s
  }

  /** The store after serving the requests in order. */
  function Run(s: Repo.Store, reqs: seq<Request>): Repo.Store
    decreases |reqs|
  {
    if reqs == [] then s else Run(Step(s, reqs[0]), reqs[1..])
  }

  lemma StepPreservesInv(s: Repo.Store, req: Request)
    requires Inv(s)
    ensures Inv(Step(s, req))
  {
    match req
    case CreateRequest(form) => CreatePreservesInv(s, form);
    case DeleteRequest(id) => DeletePreservesInv(s, id);
    case ListRequest =>
    case SearchRequest(_) =>
  }

  lemma {:induction false} RunPreservesInv(s: Repo.Store, reqs: seq<Request>)
    requires Inv(s)
    ensures Inv(Run(s, reqs))
    decreases |reqs|
  {
    if reqs != [] {
      StepPreservesInv(s, reqs[0]);
      RunPreservesInv(Step(s, reqs[0]), reqs[1..]);
    }
  }

  /** What a client can rely on in a listing: newest first, every contact
      well formed, no two emails equal ignoring case. */
  ghost predicate GoodListing(cs: seq<Contact>) {
    && Repo.NewestFirstOrder(cs)
    && (forall i | 0 <= i < |cs| :: WellFormedContact(cs[i]))
    && Pairwise(cs, DifferentContactEmails)
  }

  /** Every contact listed from a store that keeps the invariant is well
      formed. */
  lemma ListedWellFormed(s: Repo.Store)
    requires Inv(s)
    ensures forall i | 0 <= i < |Repo.GetAll(s)| :: WellFormedContact(Repo.GetAll(s)[i])
  {
    var all := Repo.GetAll(s);
    var n := |s.rows|;
    forall i | 0 <= i < |all|
      ensures WellFormedContact(all[i])
    {
      assert all[i] == Repo.MapRowToContact(s.rows[n - 1 - i]);
      assert WellFormedRow(s.rows[n - 1 - i]);
    }
  }

  /** No two contacts listed from a store that keeps the invariant share an
      email ignoring case. */
  lemma ListedEmailsDiffer(s: Repo.Store)
    requires Inv(s)
    ensures Pairwise(Repo.GetAll(s), DifferentContactEmails)
  {
    var all := Repo.GetAll(s);
    var n := |s.rows|;
    forall i, j | 0 <= i < j < |all|
      ensures DifferentContactEmails(all[i], all[j])
    {
      assert DifferentEmails(s.rows[n - 1 - j], s.rows[n - 1 - i]);
    }
  }

  /** The listing of a store that keeps the invariant is a good listing. */
  lemma InvListing(s: Repo.Store)
    requires Inv(s)
    ensures GoodListing(Repo.GetAll(s))
  {
    ListedWellFormed(s);
    ListedEmailsDiffer(s);
  }

  /** Every table reachable from the empty one by any sequence of requests
      keeps the invariant, so every listing it produces is a good one. */
  lemma ReachableListing(reqs: seq<Request>)
    ensures Inv(Run(Repo.EmptyStore, reqs))
    ensures GoodListing(Repo.GetAll(Run(Repo.EmptyStore, reqs)))
  {
    EmptyStoreInv();
    RunPreservesInv(Repo.EmptyStore, reqs);
    InvListing(Run(Repo.EmptyStore, reqs));
  }
}
