/** Properties that relate several calls of the operations: lookups after
    insertion, a repeated delete, and the uniqueness rule applied to a second
    form. */
module StoreProperties {
  import opened ContactTypes
  import opened Text
  import Subsequence
  import Repo = ContactRepository
  import Service = ContactService
  import StoreInvariant

  /** In a valid store the listing holds at most one contact per id, and the
      lookup by id finds exactly that one. */
  lemma GetByIdFindsListed(s: Repo.Store, c: Contact)
    requires Repo.Valid(s) && c in Repo.GetAll(s)
    ensures Repo.GetById(s, c.id) == Some(c)
  {
    var row :| row in s.rows && c == Repo.MapRowToContact(row);
    var i :| 0 <= i < |s.rows| && s.rows[i] == row;
    var found := Repo.FindRow(s.rows, c.id);
    assert found.Some? by {
      assert s.rows[i].id == c.id;
    }
    var j :| 0 <= j < |s.rows| && s.rows[j] == found.value;
    SameIdSameRow(s.rows, i, j);
  }

  /** Where ids are distinct, two positions holding the same id are the
      same position. This is `Pairwise(rows, DifferentIds)` read backwards,
      kept as a separate step so that GetByIdFindsListed never reasons
      inside the impossible case `i != j`. */
  lemma SameIdSameRow(rows: seq<Repo.Row>, i: nat, j: nat)
    requires Subsequence.Pairwise(rows, Repo.DifferentIds)
    requires i < |rows| && j < |rows| && rows[i].id == rows[j].id
    ensures i == j
  {
  }

  /** The contact a successful create returns is found again by its id. */
  lemma CreatedContactFound(s: Repo.Store, d: ContactFormData)
    requires Repo.Valid(s) && Service.Create(s, d).1.Success?
    ensures var (s', r) := Service.Create(s, d);
      Repo.GetById(s', r.data.id) == Some(r.data)
  {
    var (s', r) := Service.Create(s, d);
    assert Service.Validate(d) == [];
    assert s' == Repo.Create(s, Service.Normalise(d)).0;
    assert Repo.Valid(s');
    assert r.data in Repo.GetAll(s');
    GetByIdFindsListed(s', r.data);
  }

  /** Once a form has been stored, any other valid form whose email is equal
      ignoring case is rejected with the single uniqueness error, and the
      store stays as it was. */
  lemma DuplicateEmailRejected(s: Repo.Store, d: ContactFormData, d2: ContactFormData)
    requires Service.Create(s, d).1.Success?
    requires Service.Validate(d2) == [] && ToLower(d2.email) == ToLower(d.email)
    ensures var s' := Service.Create(s, d).0;
      Service.Create(s', d2) == (s', Invalid([EmailTaken]))
  {
    var (s', r) := Service.Create(s, d);
    assert Service.Validate(d) == [];
    assert Service.PassesAll(d) && Service.FieldPasses(d, Email);
    StoreInvariant.StoredEmail(d.email);
    assert r.data in Repo.GetAll(s');
    assert ToLower(r.data.email) == ToLower(d2.email);
    assert Service.EmailTakenIn(s', d2.email);
  }

  /** Deleting the same id twice: the second delete reports "no encontrado"
      and changes nothing. */
  lemma DeleteTwice(s: Repo.Store, id: Id)
    ensures var s' := Service.Delete(s, id).0;
      Service.Delete(s', id) == (s', Failure(NotFound))
  {
    var s' := Service.Delete(s, id).0;
    assert !Repo.HasId(s'.rows, id);
  }

  /** A delete only ever removes: it never makes a listed contact appear,
      and it keeps the listing newest first. */
  lemma DeleteOnlyRemoves(s: Repo.Store, id: Id)
    requires Repo.Valid(s)
    ensures var s' := Service.Delete(s, id).0;
      && (forall c | c in Repo.GetAll(s') :: c in Repo.GetAll(s))
      && Repo.NewestFirstOrder(Repo.GetAll(s'))
  {
    var s' := Service.Delete(s, id).0;
    if Repo.HasId(s.rows, id) {
      assert s' == Repo.Delete(s, id).0;
    }
  }
}
