/** The data-access layer: the contacts table as an abstract in-memory store.
    The table is a sequence of rows in insertion order plus a counter `next`
    from which each insertion draws its id and its creation stamp. Each
    operation is a pure function of the store. */
module ContactRepository {
  import opened ContactTypes
  import opened Text
  import opened Subsequence

  /** One row of the table. `notas` is `None` for SQL NULL. */
  datatype Row = Row(
    id: Id,
    nombre: string,
    email: string,
    telefono: nat,
    ciudad: string,
    notas: Option<string>,
    createdAt: nat)

  datatype Store = Store(rows: seq<Row>, next: nat)

  const EmptyStore := Store([], 0)

  predicate CreatedBefore(x: Row, y: Row) { x.createdAt < y.createdAt }

  predicate DifferentIds(x: Row, y: Row) { x.id != y.id }

  predicate CreatedAfter(x: Contact, y: Contact) { x.createdAt > y.createdAt }

  /** Listed newest first: `createdAt` strictly decreases along the list. */
  ghost predicate NewestFirstOrder(cs: seq<Contact>) {
    Pairwise(cs, CreatedAfter)
  }

  /** What every store the operations build satisfies: ids are distinct, rows
      sit in creation order, and the counter is past every id and stamp. */
  ghost predicate Valid(s: Store) {
    && (forall i | 0 <= i < |s.rows| :: s.rows[i].id < s.next && s.rows[i].createdAt < s.next)
    && Pairwise(s.rows, CreatedBefore)
    && Pairwise(s.rows, DifferentIds)
  }

  /** Some row carries `id`. */
  predicate HasId(rows: seq<Row>, id: Id) {
    exists i | 0 <= i < |rows| :: rows[i].id == id
  }

  /** Reads a row back as a contact: NULL or empty notes become absent, every
      other column is copied. */
  function MapRowToContact(row: Row): (c: Contact)
    ensures c.id == row.id && c.createdAt == row.createdAt
    ensures c.nombre == row.nombre && c.email == row.email
    ensures c.telefono == row.telefono && c.ciudad == row.ciudad
    ensures c.notas.None? <==> row.notas in {None, Some("")}
    ensures c.notas.Some? ==> c.notas == row.notas && c.notas.value != ""
  {
    Contact(row.id, row.nombre, row.email, row.telefono, row.ciudad,
            if row.notas == Some("") then None else row.notas,
            row.createdAt)
  }

  /** The rows, mapped to contacts, last-inserted first. */
  function NewestFirst(rows: seq<Row>): (r: seq<Contact>)
    ensures |r| == |rows|
    ensures forall i | 0 <= i < |rows| :: r[i] == MapRowToContact(rows[|rows| - 1 - i])
  {
    if rows == [] then []
    else [MapRowToContact(rows[|rows| - 1])] + NewestFirst(rows[..|rows| - 1])
  }

  /** `SELECT … ORDER BY created_at DESC`: every row, newest first. */
  function GetAll(s: Store): (r: seq<Contact>)
    ensures |r| == |s.rows|
    ensures forall row | row in s.rows :: MapRowToContact(row) in r
    ensures forall c | c in r :: exists row | row in s.rows :: c == MapRowToContact(row)
    ensures Valid(s) ==> NewestFirstOrder(r)
  {
    var r := NewestFirst(s.rows);
    assert forall row | row in s.rows :: MapRowToContact(row) in r by {
      forall row | row in s.rows
        ensures MapRowToContact(row) in r
      {
        var k :| 0 <= k < |s.rows| && s.rows[k] == row;
        assert r[|s.rows| - 1 - k] == MapRowToContact(row);
      }
    }
    assert forall c | c in r :: exists row | row in s.rows :: c == MapRowToContact(row) by {
      forall c | c in r
        ensures exists row | row in s.rows :: c == MapRowToContact(row)
      {
        var k :| 0 <= k < |r| && r[k] == c;
        assert s.rows[|s.rows| - 1 - k] in s.rows;
      }
    }
    assert Valid(s) ==> NewestFirstOrder(r) by {
      if Valid(s) {
        forall i, j | 0 <= i < j < |r|
          ensures CreatedAfter(r[i], r[j])
        {
          assert CreatedBefore(s.rows[|s.rows| - 1 - j], s.rows[|s.rows| - 1 - i]);
        }
      }
    }
    r
  }

  /** The first row carrying `id`, if any. */
  function FindRow(rows: seq<Row>, id: Id): (r: Option<Row>)
    ensures r.Some? <==> HasId(rows, id)
    ensures r.Some? ==> r.value in rows && r.value.id == id
  {
    if rows == [] then None
    else if rows[0].id == id then Some(rows[0])
    else
      var r := FindRow(rows[1..], id);
      assert HasId(rows[1..], id) <==> HasId(rows, id) by {
        if HasId(rows, id) {
          var i :| 0 <= i < |rows| && rows[i].id == id;
          assert rows[1..][i - 1].id == id;
        }
      }
      r
  }

  /** `SELECT … WHERE id = ?`: the contact with that id, if one is stored. */
  function GetById(s: Store, id: Id): (r: Option<Contact>)
    ensures r.Some? <==> HasId(s.rows, id)
    ensures r.Some? ==> r.value.id == id && r.value in GetAll(s)
  {
    match FindRow(s.rows, id)
    case None => None
    case Some(row) => Some(MapRowToContact(row))
  }

  /** The three searched columns: `nombre LIKE ? OR email LIKE ? OR ciudad LIKE ?`
      with the pattern `%term%`; the pattern `%%` of an empty term matches
      every contact. */
  predicate Matches(c: Contact, term: string): (b: bool)
    ensures term == [] ==> b
  {
    assert term == [] ==> OccursAt(ToLower(c.nombre), ToLower(term), 0);
    || ContainsIgnoreCase(c.nombre, term)
    || ContainsIgnoreCase(c.email, term)
    || ContainsIgnoreCase(c.ciudad, term)
  }

  /** The contacts of `cs` that match `term`, in their original order. */
  function FilterMatching(cs: seq<Contact>, term: string): (r: seq<Contact>)
    ensures SubSeq(r, cs)
    ensures forall c :: c in r <==> c in cs && Matches(c, term)
  {
    if cs == [] then []
    else if Matches(cs[0], term) then [cs[0]] + FilterMatching(cs[1..], term)
    else FilterMatching(cs[1..], term)
  }

  /** Filtered listing: exactly the contacts matching `term` in one of the
      three columns, in the order of `GetAll`. */
  function Search(s: Store, term: string): (r: seq<Contact>)
    ensures SubSeq(r, GetAll(s))
    ensures forall c :: c in r <==> c in GetAll(s) && Matches(c, term)
    ensures Valid(s) ==> NewestFirstOrder(r)
  {
    var r := FilterMatching(GetAll(s), term);
    assert Valid(s) ==> NewestFirstOrder(r) by {
      if Valid(s) {
        SubSeqPairwise(r, GetAll(s), CreatedAfter);
      }
    }
    r
  }

  /** The row `INSERT` writes for `data` under a given id and stamp; empty
      notes are written as NULL (`data.notas || null`). */
  function StoredRow(data: ContactData, id: Id, createdAt: nat): (r: Row)
    ensures r.notas != Some("")
    ensures var c := MapRowToContact(r);
      && c.id == id && c.createdAt == createdAt
      && c.nombre == data.nombre && c.email == data.email
      && c.telefono == data.telefono && c.ciudad == data.ciudad
      && (data.notas != Some("") ==> c.notas == data.notas)
      && (data.notas == Some("") ==> c.notas.None?)
  {
    Row(id, data.nombre, data.email, data.telefono, data.ciudad,
        if data.notas == Some("") then None else data.notas,
        createdAt)
  }

  /** Insertion: draws the id and the stamp from the counter, appends the row
      and returns `{id, ...data, createdAt}`. */
  function Create(s: Store, data: ContactData): (r: (Store, Contact))
    ensures r.1.nombre == data.nombre && r.1.email == data.email
    ensures r.1.telefono == data.telefono && r.1.ciudad == data.ciudad
    ensures r.1.notas == data.notas
    ensures Valid(s) ==> !HasId(s.rows, r.1.id)
    ensures Valid(s) ==> Valid(r.0)
    ensures |r.0.rows| == |s.rows| + 1 && r.0.rows[..|s.rows|] == s.rows
    ensures GetAll(r.0) == [MapRowToContact(r.0.rows[|s.rows|])] + GetAll(s)
    ensures data.notas != Some("") ==> GetAll(r.0) == [r.1] + GetAll(s)
    ensures r.0.rows[|s.rows|].id == r.1.id && r.0.rows[|s.rows|].createdAt == r.1.createdAt
    ensures r.0.rows[|s.rows|] == StoredRow(data, r.1.id, r.1.createdAt)
  {
    var row := StoredRow(data, s.next, s.next);
    var s' := Store(s.rows + [row], s.next + 1);
    assert s'.rows[..|s.rows|] == s.rows;
    (s', Contact(s.next, data.nombre, data.email, data.telefono, data.ciudad, data.notas, s.next))
  }

  /** The rows of `rows` whose id is not `id`, in their original order. */
  function RemoveId(rows: seq<Row>, id: Id): (r: seq<Row>)
    ensures SubSeq(r, rows)
    ensures forall row :: row in r <==> row in rows && row.id != id
    ensures !HasId(rows, id) ==> r == rows
    ensures HasId(rows, id) ==> |r| < |rows|
  {
    if rows == [] then []
    else
      var tail := RemoveId(rows[1..], id);
      assert HasId(rows, id) <==> rows[0].id == id || HasId(rows[1..], id) by {
        if HasId(rows, id) && rows[0].id != id {
          var i :| 0 <= i < |rows| && rows[i].id == id;
          assert rows[1..][i - 1].id == id;
        }
      }
      if rows[0].id == id then tail
      else
        assert [rows[0]] + rows[1..] == rows;
        [rows[0]] + tail
  }

  /** `DELETE … WHERE id = ?`: removes the row(s) with that id and reports
      whether any row changed. */
  function Delete(s: Store, id: Id): (r: (Store, bool))
    ensures r.1 <==> HasId(s.rows, id)
    ensures forall row :: row in r.0.rows <==> row in s.rows && row.id != id
    ensures !HasId(r.0.rows, id)
    ensures SubSeq(r.0.rows, s.rows) && r.0.next == s.next
    ensures Valid(s) ==> Valid(r.0)
  {
    var rows := RemoveId(s.rows, id);
    var s' := Store(rows, s.next);
    assert Valid(s) ==> Valid(s') by {
      if Valid(s) {
        SubSeqPairwise(rows, s.rows, CreatedBefore);
        SubSeqPairwise(rows, s.rows, DifferentIds);
        forall i | 0 <= i < |rows|
          ensures rows[i].id < s.next && rows[i].createdAt < s.next
        {
          assert rows[i] in s.rows;
        }
      }
    }
    (s', |rows| < |s.rows|)
  }

  /** Some row's email equals `email` ignoring case, skipping the row whose id
      is `excludeId`. */
  function AnyEmail(rows: seq<Row>, email: string, excludeId: Option<Id>): (b: bool)
    ensures b <==> exists i | 0 <= i < |rows| ::
      ToLower(rows[i].email) == ToLower(email) && excludeId != Some(rows[i].id)
  {
    if rows == [] then false
    else if ToLower(rows[0].email) == ToLower(email) && excludeId != Some(rows[0].id) then true
    else
      var b := AnyEmail(rows[1..], email, excludeId);
      assert forall i | 1 <= i < |rows| :: rows[i] == rows[1..][i - 1];
      b
  }

  /** `SELECT COUNT(*) … WHERE LOWER(email) = LOWER(?) [AND id != ?]` is
      positive. */
  function EmailExists(s: Store, email: string, excludeId: Option<Id>): (b: bool)
    ensures b <==> exists row | row in s.rows ::
      ToLower(row.email) == ToLower(email) && excludeId != Some(row.id)
  {
    var b := AnyEmail(s.rows, email, excludeId);
    assert b ==> exists row | row in s.rows ::
      ToLower(row.email) == ToLower(email) && excludeId != Some(row.id) by {
      if b {
        var i :| 0 <= i < |s.rows| && ToLower(s.rows[i].email) == ToLower(email) && excludeId != Some(s.rows[i].id);
        assert s.rows[i] in s.rows;
      }
    }
    b
  }
}
