/** The business layer: field validation of the submitted form, the
    case-insensitive uniqueness rule on email, normalisation before insertion,
    and the listing, search and delete operations. Every operation takes the
    store explicitly; create and delete return the (possibly new) store with
    their response, and the two reads return only the response. */
module ContactService {
  import opened ContactTypes
  import opened Text
  import opened Subsequence
  import Repo = ContactRepository

  // ---------------------------------------------------------------------------
  // Email format

  /** A character the email pattern's `[^\s@]` class accepts. */
  predicate IsPlain(c: char) { !IsSpace(c) && c != '@' }

  predicate AllPlain(s: string) {
    forall i | 0 <= i < |s| :: IsPlain(s[i])
  }

  /** The language of `/^[^\s@]+@[^\s@]+\.[^\s@]+$/`: three non-empty runs of
      plain characters joined by `@` and `.`. */
  ghost predicate EmailPattern(e: string) {
    exists a, b, c {:trigger JoinEmail(a, b, c)} |
      |a| > 0 && |b| > 0 && |c| > 0 && AllPlain(a) && AllPlain(b) && AllPlain(c) ::
      e == JoinEmail(a, b, c)
  }

  /** `a@b.c` */
  function JoinEmail(a: string, b: string, c: string): string {
    a + ("@" + (b + ("." + c)))
  }

  /** A domain the pattern accepts after the `@`: plain characters with a `.`
      that is neither first nor last. */
  predicate IsDomain(d: string) {
    AllPlain(d) && exists j | 0 < j < |d| - 1 :: d[j] == '.'
  }

  /** `isValidEmail`: a non-empty plain local part, one `@`, and a domain.
      The shortest accepted address is `a@b.c`. */
  predicate IsValidEmail(e: string): (b: bool)
    ensures b ==> |e| >= 5 && '@' in e
  {
    exists k | 0 < k < |e| :: e[k] == '@' && AllPlain(e[..k]) && IsDomain(e[k + 1..])
  }

  /** The scan agrees with the regular expression on every string. */
  lemma EmailMatchesPattern(e: string)
    ensures IsValidEmail(e) <==> EmailPattern(e)
  {
    if IsValidEmail(e) {
      ValidEmailMatches(e);
    }
    if EmailPattern(e) {
      var a, b, c :| |a| > 0 && |b| > 0 && |c| > 0 && AllPlain(a) && AllPlain(b) && AllPlain(c) &&
        e == JoinEmail(a, b, c);
      PatternIsValidEmail(a, b, c);
    }
  }

  lemma ValidEmailMatches(e: string)
    requires IsValidEmail(e)
    ensures EmailPattern(e)
  {
    var k :| 0 < k < |e| && e[k] == '@' && AllPlain(e[..k]) && IsDomain(e[k + 1..]);
    var d := e[k + 1..];
    var j :| 0 < j < |d| - 1 && d[j] == '.';
    PrefixPlain(d, j);
    SuffixPlain(d, j + 1);
    JoinSplit(e, k, j);
    PatternWitness(e, e[..k], d[..j], d[j + 1..]);
  }

  /** Three non-empty plain pieces joined into `e` show that `e` matches. */
  lemma PatternWitness(e: string, a: string, b: string, c: string)
    requires |a| > 0 && |b| > 0 && |c| > 0 && AllPlain(a) && AllPlain(b) && AllPlain(c)
    requires e == JoinEmail(a, b, c)
    ensures EmailPattern(e)
  {
  }

  /** Cutting a string at an `@` and then its tail at a `.` and joining the
      three pieces back gives the string. */
  lemma JoinSplit(e: string, k: nat, j: nat)
    requires k < |e| && e[k] == '@'
    requires j < |e[k + 1..]| && e[k + 1..][j] == '.'
    ensures e == JoinEmail(e[..k], e[k + 1..][..j], e[k + 1..][j + 1..])
  {
    var d := e[k + 1..];
    SplitAround(d, j);
    SplitAround(e, k);
    assert [d[j]] == "." && [e[k]] == "@";
  }

  /** Prefixes and suffixes of plain text are plain. */
  lemma PrefixPlain(s: string, n: nat)
    requires AllPlain(s) && n <= |s|
    ensures AllPlain(s[..n])
  {
    assert forall i | 0 <= i < n :: s[..n][i] == s[i];
  }

  lemma SuffixPlain(s: string, n: nat)
    requires AllPlain(s) && n <= |s|
    ensures AllPlain(s[n..])
  {
    assert forall i | 0 <= i < |s| - n :: s[n..][i] == s[n + i];
  }

  lemma SplitAround(s: string, k: nat)
    requires k < |s|
    ensures s == s[..k] + ([s[k]] + s[k + 1..])
  {
  }

  lemma PatternIsValidEmail(a: string, b: string, c: string)
    requires |a| > 0 && |b| > 0 && |c| > 0 && AllPlain(a) && AllPlain(b) && AllPlain(c)
    ensures IsValidEmail(JoinEmail(a, b, c))
  {
    var e := JoinEmail(a, b, c);
    var k := |a|;
    assert e[..k] == a;
    var d := e[k + 1..];
    assert d == b + "." + c;
    assert d[|b|] == '.';
    assert AllPlain(d) by {
      forall i | 0 <= i < |d|
        ensures IsPlain(d[i])
      {
        if i < |b| {
          assert d[i] == b[i];
        } else if i > |b| {
          assert d[i] == c[i - |b| - 1];
        }
      }
    }
    assert IsDomain(d);
  }

  /** A valid email has no white space, so trimming it changes nothing. */
  lemma ValidEmailIsTrimmed(e: string)
    requires IsValidEmail(e)
    ensures NoSpace(e) && Trim(e) == e
  {
    var k :| 0 < k < |e| && e[k] == '@' && AllPlain(e[..k]) && IsDomain(e[k + 1..]);
    forall i | 0 <= i < |e|
      ensures !IsSpace(e[i])
    {
      if i < k {
        assert e[i] == e[..k][i];
      } else if i > k {
        assert e[i] == e[k + 1..][i - k - 1];
      }
    }
    TrimNoSpace(e);
  }

  /** Lower casing maps plain characters to plain characters. */
  lemma LowerKeepsPlain(s: string)
    requires AllPlain(s)
    ensures AllPlain(ToLower(s))
  {
  }

  /** Lower casing keeps a domain a domain: the `.` stays where it was. */
  lemma LowerKeepsDomain(d: string)
    requires IsDomain(d)
    ensures IsDomain(ToLower(d))
  {
    var j :| 0 < j < |d| - 1 && d[j] == '.';
    LowerKeepsPlain(d);
    assert ToLower(d)[j] == '.';
  }

  /** Lower casing commutes with taking a prefix or a suffix. */
  lemma LowerSlices(s: string, k: nat)
    requires k <= |s|
    ensures ToLower(s)[..k] == ToLower(s[..k])
    ensures ToLower(s)[k..] == ToLower(s[k..])
  {
  }

  /** Lower casing keeps an email valid: it maps plain characters to plain
      characters and leaves `@` and `.` alone. */
  lemma LowerKeepsEmailValid(e: string)
    requires IsValidEmail(e)
    ensures IsValidEmail(ToLower(e))
  {
    var k :| 0 < k < |e| && e[k] == '@' && AllPlain(e[..k]) && IsDomain(e[k + 1..]);
    var l := ToLower(e);
    LowerSlices(e, k);
    LowerSlices(e, k + 1);
    LowerKeepsPlain(e[..k]);
    LowerKeepsDomain(e[k + 1..]);
    assert l[k] == '@' && AllPlain(l[..k]) && IsDomain(l[k + 1..]);
  }

  // ---------------------------------------------------------------------------
  // Phone format

  /** `isValidPhone`: the text reads as a positive number and the raw text,
      surrounding white space included, is at least 7 characters long. */
  predicate IsValidPhone(p: string): (b: bool)
    ensures b ==> |p| >= 7 && !IsBlank(p)
  {
    match NumberOf(p)
    case Some(v) => v > 0 && |p| >= 7
    case None => false
  }

  /** Text that reads as a positive integer: decimal digits, optionally after
      a `+`, not all of them `0`. */
  predicate IsPositiveNumeral(t: string) {
    || (AllDigits(t) && HasNonZeroDigit(t))
    || (|t| > 1 && t[0] == '+' && AllDigits(t[1..]) && HasNonZeroDigit(t[1..]))
  }

  /** Which phone texts pass, stated without the parse. */
  lemma PhoneAccepted(p: string)
    ensures IsValidPhone(p) <==> |p| >= 7 && IsPositiveNumeral(Trim(p))
  {
    NumberOfPositive(p);
  }

  /** Fewer than seven characters never pass, whatever they are. */
  lemma PhoneTooShort(p: string)
    requires |p| < 7
    ensures !IsValidPhone(p)
  {
  }

  /** Seven or more decimal digits, not all `0`, always pass. */
  lemma PhoneDigitsAccepted(p: string)
    requires |p| >= 7 && AllDigits(p) && HasNonZeroDigit(p)
    ensures IsValidPhone(p)
  {
    assert NoSpace(p) by {
      forall i | 0 <= i < |p|
        ensures !IsSpace(p[i])
      {
        assert IsDigit(p[i]);
      }
    }
    TrimNoSpace(p);
    assert IsPositiveNumeral(Trim(p));
    PhoneAccepted(p);
  }

  /** Six digits are one too few, seven pass, and a negative number fails. */
  lemma PhoneLengthBoundary()
    ensures !IsValidPhone("123456")
    ensures IsValidPhone("1234567")
    ensures !IsValidPhone("-5")
  {
    PhoneTooShort("123456");
    PhoneTooShort("-5");
    assert "1234567"[0] == '1';
    PhoneDigitsAccepted("1234567");
  }

  /** A number written with a leading `-` never passes. */
  lemma PhoneNegativeRejected(p: string)
    requires Trim(p) != [] && Trim(p)[0] == '-'
    ensures !IsValidPhone(p)
  {
    PhoneAccepted(p);
  }

  /** The length rule counts surrounding blanks: blank padding lets a numeral
      of fewer than seven digits pass. */
  lemma PhonePaddingCounts(pad: string, t: string)
    requires IsBlank(pad) && |pad| + |t| >= 7
    requires AllDigits(t) && HasNonZeroDigit(t)
    ensures IsValidPhone(pad + t)
  {
    assert NoSpace(t);
    TrimPadded(pad, t);
    PhoneAccepted(pad + t);
  }

  // ---------------------------------------------------------------------------
  // Validation

  /** The rule each field must pass, stated independently of the messages. */
  ghost predicate FieldPasses(d: ContactFormData, f: Field) {
    match f
    case Nombre => |Trim(d.nombre)| >= 2
    case Email => EmailPattern(d.email)
    case Telefono => |d.telefono| >= 7 && IsPositiveNumeral(Trim(d.telefono))
    case Ciudad => !IsBlank(d.ciudad)
  }

  /** At most one error, and only about field `f`. */
  predicate AtMostOneFor(errors: seq<ValidationError>, f: Field) {
    |errors| <= 1 && forall e | e in errors :: e.field() == f
  }

  function NombreErrors(nombre: string): (r: seq<ValidationError>)
    ensures AtMostOneFor(r, Nombre)
    ensures r == [] <==> |Trim(nombre)| >= 2
  {
    if Trim(nombre) == "" then [NombreRequired]
    else if |Trim(nombre)| < 2 then [NombreTooShort]
    else []
  }

  /** "obligatorio" exactly for blank text, "formato no válido" for other
      text outside the pattern; never the uniqueness error. */
  function EmailErrors(email: string): (r: seq<ValidationError>)
    ensures AtMostOneFor(r, Email)
    ensures r == [] <==> EmailPattern(email)
    ensures r == [EmailRequired] <==> IsBlank(email)
    ensures r == [EmailMalformed] <==> !IsBlank(email) && !EmailPattern(email)
  {
    EmailMatchesPattern(email);
    if Trim(email) == "" then
      assert !IsValidEmail(email) by {
        if IsValidEmail(email) { ValidEmailIsTrimmed(email); }
      }
      [EmailRequired]
    else if !IsValidEmail(email) then [EmailMalformed]
    else []
  }

  /** "obligatorio" exactly for blank text, "número válido" for other text
      the phone rule rejects. */
  function TelefonoErrors(telefono: string): (r: seq<ValidationError>)
    ensures AtMostOneFor(r, Telefono)
    ensures r == [] <==> |telefono| >= 7 && IsPositiveNumeral(Trim(telefono))
    ensures r == [TelefonoRequired] <==> IsBlank(telefono)
    ensures r == [TelefonoInvalid] <==>
      !IsBlank(telefono) && !(|telefono| >= 7 && IsPositiveNumeral(Trim(telefono)))
  {
    PhoneAccepted(telefono);
    if Trim(telefono) == "" then [TelefonoRequired]
    else if !IsValidPhone(telefono) then [TelefonoInvalid]
    else []
  }

  function CiudadErrors(ciudad: string): (r: seq<ValidationError>)
    ensures AtMostOneFor(r, Ciudad)
    ensures r == [] <==> !IsBlank(ciudad)
  {
    if Trim(ciudad) == "" then [CiudadRequired] else []
  }

  /** The fields that fail their rule, in the order nombre, email, telefono,
      ciudad. */
  ghost function FailingFields(d: ContactFormData): seq<Field> {
    UnlessPasses(FieldPasses(d, Nombre), Nombre) +
    UnlessPasses(FieldPasses(d, Email), Email) +
    UnlessPasses(FieldPasses(d, Telefono), Telefono) +
    UnlessPasses(FieldPasses(d, Ciudad), Ciudad)
  }

  function UnlessPasses(passes: bool, f: Field): seq<Field> {
    if passes then [] else [f]
  }

  ghost predicate PassesAll(d: ContactFormData) {
    FieldPasses(d, Nombre) && FieldPasses(d, Email) && FieldPasses(d, Telefono) && FieldPasses(d, Ciudad)
  }

  function FieldsOf(errors: seq<ValidationError>): seq<Field> {
    seq(|errors|, i requires 0 <= i < |errors| => errors[i].field())
  }

  lemma FieldsOfAppend(a: seq<ValidationError>, b: seq<ValidationError>)
    ensures FieldsOf(a + b) == FieldsOf(a) + FieldsOf(b)
  {
  }

  lemma FieldsOfOne(errors: seq<ValidationError>, f: Field)
    requires AtMostOneFor(errors, f)
    ensures FieldsOf(errors) == UnlessPasses(errors == [], f)
  {
    if errors != [] {
      assert errors[0] in errors;
    }
  }

  /** `validate`: checks every field without short-circuiting; each failing
      field contributes exactly one error, in field order, and the list is
      empty exactly when all four rules pass. */
  function Validate(d: ContactFormData): (r: seq<ValidationError>)
    ensures FieldsOf(r) == FailingFields(d)
    ensures r == [] <==> PassesAll(d)
  {
    var n, e, t, c := NombreErrors(d.nombre), EmailErrors(d.email),
                      TelefonoErrors(d.telefono), CiudadErrors(d.ciudad);
    var r := n + e + t + c;
    assert FieldsOf(r) == FailingFields(d) by {
      FieldsOfAppend(n, e);
      FieldsOfAppend(n + e, t);
      FieldsOfAppend(n + e + t, c);
      FieldsOfOne(n, Nombre);
      FieldsOfOne(e, Email);
      FieldsOfOne(t, Telefono);
      FieldsOfOne(c, Ciudad);
      assert FieldPasses(d, Nombre) == (n == []);
      assert FieldPasses(d, Email) == (e == []);
      assert FieldPasses(d, Telefono) == (t == []);
      assert FieldPasses(d, Ciudad) == (c == []);
    }
    assert r == [] <==> PassesAll(d) by {
      assert r == [] <==> n == [] && e == [] && t == [] && c == [];
    }
    r
  }

  /** Validation never produces the uniqueness error: that error is raised
      only after every field has passed. */
  lemma ValidationNeverTaken(d: ContactFormData)
    ensures EmailTaken !in Validate(d)
  {
    var n, e, t, c := NombreErrors(d.nombre), EmailErrors(d.email),
                      TelefonoErrors(d.telefono), CiudadErrors(d.ciudad);
    assert EmailTaken.field() == Email;
    assert EmailTaken !in n && EmailTaken !in t && EmailTaken !in c;
    assert EmailTaken !in e by {
      assert e == [] || e == [EmailRequired] || e == [EmailMalformed];
    }
    assert Validate(d) == n + e + t + c;
  }

  /** A name error is in the full list exactly when the name check alone
      produces it: the other checks only report on their own fields. */
  lemma NameErrorsOnlyFromName(d: ContactFormData, x: ValidationError)
    requires x.field() == Nombre
    ensures x in Validate(d) <==> x in NombreErrors(d.nombre)
  {
    var n, e, t, c := NombreErrors(d.nombre), EmailErrors(d.email),
                      TelefonoErrors(d.telefono), CiudadErrors(d.ciudad);
    assert Validate(d) == n + e + t + c;
    assert x !in e && x !in t && x !in c;
  }

  /** The name rule: a blank name is "obligatorio", a short trimmed name is
      "al menos 2 caracteres", and never both. */
  lemma NombreRule(d: ContactFormData)
    ensures NombreRequired in Validate(d) <==> IsBlank(d.nombre)
    ensures NombreTooShort in Validate(d) <==> !IsBlank(d.nombre) && |Trim(d.nombre)| < 2
    ensures !(NombreRequired in Validate(d) && NombreTooShort in Validate(d))
  {
    NameErrorsOnlyFromName(d, NombreRequired);
    NameErrorsOnlyFromName(d, NombreTooShort);
  }

  /** The notes never influence validation. */
  lemma NotasNeverValidated(d: ContactFormData, notas: Option<string>)
    ensures Validate(d.(notas := notas)) == Validate(d)
  {
  }

  // ---------------------------------------------------------------------------
  // Normalisation and the business operations

  /** `data.notas?.trim() || undefined`: trimmed notes, absent when blank. */
  function NormaliseNotas(notas: Option<string>): (r: Option<string>)
    ensures r.None? <==> notas.None? || IsBlank(notas.value)
    ensures r.Some? ==> r.value == Trim(notas.value) && r.value != ""
  {
    match notas
    case None => None
    case Some(n) => if Trim(n) == "" then None else Some(Trim(n))
  }

  /** The phone value of a validated form: `Number(data.telefono)`. */
  function PhoneValue(telefono: string): (v: nat)
    requires IsValidPhone(telefono)
    ensures NumberOf(telefono) == Some(v) && v > 0
  {
    NumberOf(telefono).value
  }

  /** A form that passed validation carries a valid phone. */
  lemma ValidFormPhone(d: ContactFormData)
    requires Validate(d) == []
    ensures IsValidPhone(d.telefono)
  {
    assert PassesAll(d) && FieldPasses(d, Telefono);
    PhoneAccepted(d.telefono);
  }

  /** The record handed to the store for a validated form: the phone is the
      positive value `Number()` reads, and normalising the text fields again
      would change nothing. */
  function Normalise(d: ContactFormData): (r: ContactData)
    requires Validate(d) == []
    ensures r.telefono > 0 && NumberOf(d.telefono) == Some(r.telefono as int)
    ensures Trim(r.nombre) == r.nombre && Trim(r.ciudad) == r.ciudad
    ensures r.notas.Some? ==> Trim(r.notas.value) == r.notas.value && r.notas.value != ""
  {
    TrimIdempotent(d.nombre);
    TrimIdempotent(d.ciudad);
    TrimIdempotent(if d.notas.Some? then d.notas.value else "");
    ValidFormPhone(d);
    ContactData(Trim(d.nombre), ToLower(Trim(d.email)), PhoneValue(d.telefono),
                Trim(d.ciudad), NormaliseNotas(d.notas))
  }

  /** Some stored contact has `email`, ignoring case. */
  ghost predicate EmailTakenIn(s: Repo.Store, email: string) {
    exists c | c in Repo.GetAll(s) :: ToLower(c.email) == ToLower(email)
  }

  lemma EmailExistsIffTaken(s: Repo.Store, email: string)
    ensures Repo.EmailExists(s, email, None) <==> EmailTakenIn(s, email)
  {
    if Repo.EmailExists(s, email, None) {
      var row :| row in s.rows && ToLower(row.email) == ToLower(email);
      assert Repo.MapRowToContact(row) in Repo.GetAll(s);
    }
  }

  /** `create`: validation errors first (store untouched), then the uniqueness
      rule (store untouched), otherwise exactly one normalised contact is
      added in front of the listing. */
  function Create(s: Repo.Store, d: ContactFormData): (r: (Repo.Store, ApiResponse<Contact>))
    ensures Validate(d) != [] ==> r == (s, Invalid(Validate(d)))
    ensures Validate(d) == [] && EmailTakenIn(s, d.email) ==> r == (s, Invalid([EmailTaken]))
    ensures r.1.Success? <==> Validate(d) == [] && !EmailTakenIn(s, d.email)
    ensures r.1.Success? ==>
      && Repo.GetAll(r.0) == [r.1.data] + Repo.GetAll(s)
      && r.1.data.nombre == Trim(d.nombre)
      && r.1.data.email == ToLower(Trim(d.email))
      && NumberOf(d.telefono) == Some(r.1.data.telefono as int)
      && r.1.data.ciudad == Trim(d.ciudad)
      && r.1.data.notas == NormaliseNotas(d.notas)
    ensures r.1.Success? && Repo.Valid(s) ==> !Repo.HasId(s.rows, r.1.data.id)
  {
    var errors := Validate(d);
    EmailExistsIffTaken(s, d.email);
    if errors != [] then
      (s, Invalid(errors))
    else if Repo.EmailExists(s, d.email, None) then
      (s, Invalid([EmailTaken]))
    else
      var (s', c) := Repo.Create(s, Normalise(d));
      (s', Success(c))
  }

  /** `getAll`: always succeeds with every stored contact. */
  function GetAll(s: Repo.Store): (r: ApiResponse<seq<Contact>>)
    ensures r.Success?
    ensures |r.data| == |s.rows|
    ensures forall row | row in s.rows :: Repo.MapRowToContact(row) in r.data
    ensures Repo.Valid(s) ==> Repo.NewestFirstOrder(r.data)
  {
    Success(Repo.GetAll(s))
  }

  /** `search`: a blank term lists everything; any other term (untrimmed)
      keeps the contacts matching it in one of the three columns. Either way
      the result is an ordered selection from the full listing. */
  function Search(s: Repo.Store, term: string): (r: ApiResponse<seq<Contact>>)
    ensures r.Success?
    ensures SubSeq(r.data, Repo.GetAll(s))
    ensures forall c :: c in r.data <==> c in Repo.GetAll(s) && (IsBlank(term) || Repo.Matches(c, term))
    ensures Repo.Valid(s) ==> Repo.NewestFirstOrder(r.data)
  {
    if Trim(term) != "" then
      Success(Repo.Search(s, term))
    else
      SubSeqRefl(Repo.GetAll(s));
      Success(Repo.GetAll(s))
  }

  /** A blank search term is the same as listing everything. */
  lemma BlankSearchIsGetAll(s: Repo.Store, term: string)
    requires IsBlank(term)
    ensures Search(s, term) == GetAll(s)
  {
  }

  /** `delete`: an absent id is "no encontrado" and changes nothing; a present
      id is removed, and no other contact is touched. */
  function Delete(s: Repo.Store, id: Id): (r: (Repo.Store, ApiResponse<()>))
    ensures !Repo.HasId(s.rows, id) ==> r == (s, Failure(NotFound))
    ensures Repo.HasId(s.rows, id) ==> r.1 == Success(())
    ensures Repo.HasId(s.rows, id) ==>
      forall c :: c in Repo.GetAll(r.0) <==> c in Repo.GetAll(s) && c.id != id
    ensures !Repo.HasId(r.0.rows, id)
  {
    match Repo.GetById(s, id)
    case None => (s, Failure(NotFound))
    case Some(_) =>
      var (s', deleted) := Repo.Delete(s, id);
      DeleteListing(s, id);
      if !deleted then (s', Failure(DeleteFailed)) else (s', Success(()))
  }

  /** After the repository's delete, the listing holds exactly the contacts it
      held before except those with the deleted id. */
  lemma DeleteListing(s: Repo.Store, id: Id)
    ensures forall c :: c in Repo.GetAll(Repo.Delete(s, id).0) <==> c in Repo.GetAll(s) && c.id != id
  {
    var s' := Repo.Delete(s, id).0;
    forall c
      ensures c in Repo.GetAll(s') <==> c in Repo.GetAll(s) && c.id != id
    {
      if c in Repo.GetAll(s') {
        var row :| row in s'.rows && c == Repo.MapRowToContact(row);
        assert row in s.rows;
      }
      if c in Repo.GetAll(s) && c.id != id {
        var row :| row in s.rows && c == Repo.MapRowToContact(row);
        assert row in s'.rows;
      }
    }
  }
}
