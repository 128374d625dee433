# Contact store: validation and storage contract in Dafny

This project models the core of a small contact-management application (Spanish field names: `nombre`, `email`, `telefono`, `ciudad`, `notas`). It covers two layers:

- **The business layer** (`ContactService`):
  - field validation of a submitted form;
  - the case-insensitive uniqueness rule on email;
  - normalisation of a valid form before it is stored;
  - the list, search and delete operations, each returning a uniform response envelope.
- **The data-access layer** (`ContactRepository`): the contacts table as an abstract in-memory store.

The store is `Store(rows, next)`:

- `rows` holds the rows in insertion order.
- `next` is a counter. Each insertion takes its id and its creation stamp from it.

Every operation is a pure function of the store. The business operations `create` and `delete` return `(new store, response)`; `getAll` and `search` return only the response.

Modules, one per file:

- `ContactTypes` (`types.dfy`): the record shapes, the validation errors (one constructor per message) and the response envelope `Success | Failure | Invalid`.
- `Text` (`text.dfy`): white-space trimming, ASCII lower casing, substring search, and the numeric reading of the phone text.
- `Subsequence` (`subsequence.dfy`): order-preserving selection. Search and delete are both stated in terms of it.
- `ContactRepository` (`repository.dfy`): the SQL statements as operations on the store.
- `ContactService` (`service.dfy`): validation, normalisation and the four business operations.
- `StoreInvariant` (`invariant.dfy`): what the business layer keeps true of the table:
  - every row is in the normalised form that a validated create writes;
  - no two emails are equal ignoring case.

  Both `create` and `delete` preserve it, so it holds after any sequence of requests starting from an empty table.
- `StoreProperties` (`properties.dfy`): properties that connect several calls.

The phone rule reads the text as a number and measures the raw text, surrounding white space included. So a padded short number such as five spaces followed by `12` passes the "mínimo 7 dígitos" rule. `ContactService.PhonePaddingCounts` states this behaviour as written.

## Model

| member | source | states |
|---|---|---|
| ContactRepository.MapRowToContact | lib/data/contact-repository.ts:105-115 | every column is copied unchanged; notes are absent exactly when the column is NULL or empty, and present notes are never empty |
| ContactRepository.NewestFirst | lib/data/contact-repository.ts:27-30 | the rows read back in reverse insertion order: position i holds the row i places from the end, one contact per row |
| ContactRepository.GetAll | lib/data/contact-repository.ts:23-31 | the listing has one contact per row, holds every row read back and nothing else, and in a valid store is strictly newest first |
| ContactRepository.FindRow | lib/data/contact-repository.ts:37-41 | a row is found exactly when some row carries the id, and the found row is a stored row with that id |
| ContactRepository.GetById | lib/data/contact-repository.ts:36-44 | a contact is returned exactly when a row with that id exists; it has that id and appears in the listing |
| ContactRepository.FilterMatching | lib/data/contact-repository.ts:54 | keeps, in order, exactly the contacts that match the term in name, email or city |
| ContactRepository.Matches | lib/data/contact-repository.ts:54 | the three-column `LIKE` test; an empty term matches every contact, as the pattern `%%` does |
| ContactRepository.Search | lib/data/contact-repository.ts:49-59 | the result is an ordered selection from the listing, holds exactly the listed contacts matching the term case-insensitively in one of the three columns, and stays newest first |
| ContactRepository.Create | lib/data/contact-repository.ts:64-78 | the returned contact carries the given fields and a fresh id; the table grows by one row at the end and the earlier rows are unchanged; the appended row is the one `StoredRow` writes for the data under that id and stamp, so every field reads back and empty notes become NULL; the new contact heads the listing (read back from that row); validity is preserved |
| ContactRepository.StoredRow | lib/data/contact-repository.ts:67-71 | the inserted row never holds empty notes, which are written as NULL, and reading it back gives the id, the stamp and every field of the data, with empty notes coming back absent |
| ContactRepository.RemoveId | lib/data/contact-repository.ts:84 | keeps, in order, exactly the rows whose id differs; nothing changes when no row has the id, and the table shrinks when one does |
| ContactRepository.Delete | lib/data/contact-repository.ts:83-86 | reports true exactly when a row had the id; afterwards no row has it; every other row remains in order; the counter and validity are preserved |
| ContactRepository.AnyEmail | lib/data/contact-repository.ts:92-99 | true exactly when some row's email equals the given one ignoring case, skipping the excluded id |
| ContactRepository.EmailExists | lib/data/contact-repository.ts:91-100 | true exactly when a stored row's email equals the given one ignoring case and that row is not the excluded one |
| Text.Trim | lib/business/contact-service.ts:33 | trimming never lengthens, and gives the empty string exactly for blank text |
| Text.SkipBlanks | lib/business/contact-service.ts:33 | the result is the first position at or after the start that is not white space, everything skipped being white space |
| Text.SkipBlanksBack | lib/business/contact-service.ts:33 | the result is just past the last character before the end that is not white space, everything skipped being white space |
| Text.TrimCharacterized | lib/business/contact-service.ts:83-87 | the trim of a string is that string minus a blank prefix and a blank suffix, with no white space at either end |
| Text.TrimmedIsOwnTrim | lib/business/contact-service.ts:83-87 | text with no white space at either end is its own trim |
| Text.TrimIdempotent | lib/business/contact-service.ts:83-87 | trimming twice gives the same as trimming once |
| Text.TrimPadded | lib/business/contact-service.ts:22 | blank padding in front of text without white space is removed by trimming |
| Text.ToLower | lib/business/contact-service.ts:84 | lower casing keeps the length and maps each character on its own |
| Text.LowerCaseCharacterized | lib/business/contact-service.ts:84 | lower-cased text is lower case, and text is lower case exactly when lower casing leaves it unchanged |
| Text.Contains | lib/data/contact-repository.ts:50-54 | true exactly when the term occurs as a contiguous piece of the text |
| Text.ContainsIgnoreCase | lib/data/contact-repository.ts:54 | true exactly when the lower-cased term occurs in the lower-cased text |
| Text.NumberOf | lib/business/contact-service.ts:22 | `Number()` on integer text: blank text reads as 0, and a negative value only comes from text whose trim starts with `-` |
| Text.NumeralPositive | lib/business/contact-service.ts:23 | a decimal numeral is positive exactly when one of its digits is not 0 |
| Text.NumberOfPositive | lib/business/contact-service.ts:22-23 | the text reads as a positive number exactly when its trim is a numeral, optionally after `+`, with a digit other than 0 |
| Subsequence.SubSeqMember | lib/data/contact-repository.ts:49-59 | every element of an ordered selection occurs in the original |
| Subsequence.SubSeqPairwise | lib/data/contact-repository.ts:49-59 | an ordered selection keeps every pairwise relation of the original, which is why search and delete keep the newest-first order |
| ContactService.IsValidEmail | lib/business/contact-service.ts:13-16 | an accepted email has at least 5 characters (`a@b.c`) and contains `@`; its exact language is stated by EmailMatchesPattern |
| ContactService.EmailMatchesPattern | lib/business/contact-service.ts:13-16 | the position-based email check accepts exactly the strings of the form plain `@` plain `.` plain, the language of the regular expression |
| ContactService.ValidEmailMatches | lib/business/contact-service.ts:14 | every email the check accepts splits into three non-empty plain runs joined by `@` and `.` |
| ContactService.PatternIsValidEmail | lib/business/contact-service.ts:14 | three non-empty plain runs joined by `@` and `.` are accepted |
| ContactService.ValidEmailIsTrimmed | lib/business/contact-service.ts:13-16 | a valid email has no white space, so the later trim leaves it unchanged |
| ContactService.LowerKeepsEmailValid | lib/business/contact-service.ts:84 | lower casing a valid email gives a valid email |
| ContactService.IsValidPhone | lib/business/contact-service.ts:21-24 | an accepted phone text has at least 7 characters and is not blank; the exact set is stated by PhoneAccepted |
| ContactService.PhoneAccepted | lib/business/contact-service.ts:21-24 | a phone text passes exactly when it is at least 7 characters long and its trim is a positive numeral |
| ContactService.PhoneTooShort | lib/business/contact-service.ts:23 | text shorter than 7 characters never passes |
| ContactService.PhoneDigitsAccepted | lib/business/contact-service.ts:21-24 | 7 or more decimal digits, not all 0, always pass |
| ContactService.PhoneLengthBoundary | lib/business/contact-service.ts:21-24 | "123456" fails, "1234567" passes, "-5" fails |
| ContactService.PhoneNegativeRejected | lib/business/contact-service.ts:23 | a number written with a leading minus never passes |
| ContactService.PhonePaddingCounts | lib/business/contact-service.ts:23 | surrounding blanks count toward the 7 characters, so a padded numeral with fewer digits passes |
| ContactService.NombreErrors | lib/business/contact-service.ts:33-37 | at most one error, about the name, and none exactly when the trimmed name has at least 2 characters |
| ContactService.EmailErrors | lib/business/contact-service.ts:40-44 | at most one error, about the email: none exactly when the email matches the pattern, "obligatorio" exactly for blank text, "formato no válido" exactly for other text outside the pattern |
| ContactService.TelefonoErrors | lib/business/contact-service.ts:47-51 | at most one error, about the phone: none exactly when the phone is at least 7 characters long and its trim is a positive numeral, "obligatorio" exactly for blank text, "número válido" exactly for other text failing that rule |
| ContactService.CiudadErrors | lib/business/contact-service.ts:54-56 | at most one error, about the city, and none exactly when the city is not blank |
| ContactService.FieldsOfOne | lib/business/contact-service.ts:29-61 | a list of at most one error about a field names that field once if it fails and not at all if it passes |
| ContactService.Validate | lib/business/contact-service.ts:29-61 | the fields named by the errors are exactly the failing fields, each once, in the order name, email, phone, city; the list is empty exactly when all four rules pass |
| ContactService.ValidationNeverTaken | lib/business/contact-service.ts:29-61 | validation never reports the uniqueness error, whatever the form |
| ContactService.NameErrorsOnlyFromName | lib/business/contact-service.ts:32-56 | a name error appears in the full list exactly when the name check produces it |
| ContactService.NombreRule | lib/business/contact-service.ts:33-37 | "obligatorio" exactly for a blank name, "al menos 2 caracteres" exactly for a non-blank name whose trim is shorter than 2, never both |
| ContactService.NotasNeverValidated | lib/business/contact-service.ts:58 | the notes never change the validation result |
| ContactService.NormaliseNotas | lib/business/contact-service.ts:87 | notes become absent exactly when missing or blank, and otherwise are the non-empty trimmed text |
| ContactService.PhoneValue | lib/business/contact-service.ts:85 | the stored phone is the positive number the text reads as |
| ContactService.ValidFormPhone | lib/business/contact-service.ts:47-51 | a form that passed validation carries a phone the phone check accepts |
| ContactService.Normalise | lib/business/contact-service.ts:82-88 | the stored phone is the positive value `Number()` reads from the form, and the stored name, city and notes are their own trim, present notes never empty |
| ContactService.EmailExistsIffTaken | lib/business/contact-service.ts:74 | the store's email check succeeds exactly when a listed contact has the email ignoring case |
| ContactService.Create | lib/business/contact-service.ts:66-91 | validation errors come back unchanged with the store untouched; a taken email gives the single uniqueness error with the store untouched; success happens exactly for a valid form with a free email, and then the listing gains exactly the returned contact in front, with trimmed name and city, lower-cased trimmed email, the phone's value, normalised notes and a fresh id |
| ContactService.GetAll | lib/business/contact-service.ts:96-99 | always succeeds, with every stored contact, newest first in a valid store |
| ContactService.Search | lib/business/contact-service.ts:104-109 | always succeeds with an ordered selection of the listing: everything for a blank term, otherwise exactly the contacts matching the untrimmed term; newest first in a valid store |
| ContactService.BlankSearchIsGetAll | lib/business/contact-service.ts:105-107 | a blank search term gives the same response as listing everything |
| ContactService.Delete | lib/business/contact-service.ts:114-128 | an absent id gives "no encontrado" with the store untouched; a present id succeeds, removes exactly the contacts with that id, and leaves no row with it |
| ContactService.DeleteListing | lib/data/contact-repository.ts:83-86 | after the store's delete the listing holds exactly the earlier contacts whose id differs |
| StoreInvariant.EmptyStoreInv | lib/business/contact-service.ts:66-91 | the empty table satisfies the invariant |
| StoreInvariant.WellFormedRowTrimmed | lib/business/contact-service.ts:83-87 | in a well-formed row, name, city and notes are their own trim |
| StoreInvariant.WellFormedRowEmail | lib/business/contact-service.ts:84 | in a well-formed row, the email is its own trim and its own lower casing |
| StoreInvariant.TrimmedNonBlank | lib/business/contact-service.ts:86-87 | trimming non-blank text gives non-empty text with no white space at either end |
| StoreInvariant.StoredEmail | lib/business/contact-service.ts:84 | the stored form of a valid email is valid and lower case, and equals the submitted email ignoring case |
| StoreInvariant.StoredNotes | lib/business/contact-service.ts:87 | stored notes are never the empty string, and present notes have no white space at either end |
| StoreInvariant.NormalisedRowWellFormed | lib/business/contact-service.ts:82-88 | the row written for a validated form satisfies every field rule in normalised form |
| StoreInvariant.AppendPreservesInv | lib/data/contact-repository.ts:68-71 | appending a well-formed row whose email differs from every stored one keeps the invariant |
| StoreInvariant.FreshEmailDiffers | lib/business/contact-service.ts:74-79 | when the email is not taken, no stored row shares it ignoring case |
| StoreInvariant.CreateAppendsRow | lib/business/contact-service.ts:81-88 | a successful create stores exactly what the repository's insertion of the normalised form stores |
| StoreInvariant.NormalisedRowEmail | lib/business/contact-service.ts:84 | the stored email equals the submitted one ignoring case |
| StoreInvariant.CreatePreservesInv | lib/business/contact-service.ts:66-91 | create keeps every row valid and normalised and emails pairwise different ignoring case |
| StoreInvariant.SelectionPreservesInv | lib/data/contact-repository.ts:83-86 | keeping an ordered selection of the rows keeps the invariant |
| StoreInvariant.DeletePreservesInv | lib/business/contact-service.ts:114-128 | delete keeps the invariant |
| StoreInvariant.StepPreservesInv | lib/business/contact-service.ts:66-128 | serving any single request keeps the invariant |
| StoreInvariant.RunPreservesInv | lib/business/contact-service.ts:66-128 | serving any sequence of requests keeps the invariant |
| StoreInvariant.ListedWellFormed | lib/data/contact-repository.ts:23-31 | every contact listed from a store keeping the invariant is well formed |
| StoreInvariant.ListedEmailsDiffer | lib/data/contact-repository.ts:23-31 | no two listed contacts share an email ignoring case |
| StoreInvariant.InvListing | lib/data/contact-repository.ts:23-31 | the listing of a store keeping the invariant is newest first, well formed and free of duplicate emails |
| StoreInvariant.ReachableListing | lib/business/contact-service.ts:66-128 | every table reachable from the empty one keeps the invariant, so each of its listings is newest first, well formed and free of duplicate emails |
| StoreProperties.GetByIdFindsListed | lib/data/contact-repository.ts:36-44 | in a valid store, looking up the id of a listed contact returns that very contact |
| StoreProperties.SameIdSameRow | lib/data/contact-repository.ts:36-44 | where ids are distinct, two positions holding the same id are one position |
| StoreProperties.CreatedContactFound | lib/data/contact-repository.ts:64-78 | the contact a successful create returns is found again by its id |
| StoreProperties.DuplicateEmailRejected | lib/business/contact-service.ts:74-79 | after storing a form, any valid form whose email is equal ignoring ASCII case is rejected with the single uniqueness error and leaves the store as it was |
| StoreProperties.DeleteTwice | lib/business/contact-service.ts:114-119 | a second delete of the same id reports "no encontrado" and changes nothing |
| StoreProperties.DeleteOnlyRemoves | lib/data/contact-repository.ts:83-86 | delete never adds a contact to the listing and keeps it newest first |

## Left out

- The HTTP routes, the React components and the database module are left out: connection, schema, pragma and seed rows are I/O against a library outside this model. The initial table is empty. The schema's `UNIQUE` constraint on email is not modelled, and neither is the failed insertion it causes; only the business-layer check is.
- Ids and creation stamps are not modelled faithfully. `crypto.randomUUID()` and the ISO clock stamp are both replaced by the store's counter. Ids are naturals, and stamps are strictly increasing, so two rows never share a stamp. The order of rows with equal stamps is not modelled.
- ContactRepository.GetAll: its newest-first order is stated only for stores satisfying `Valid`. Every store built by the operations from the empty one does.
- ContactService.NombreErrors: the name length counts characters, while the source's `.trim().length` counts UTF-16 code units. A name made of one character above U+FFFF, such as `𝔸`, is too short here and long enough in the source. `ContactService.Validate` and `ContactService.NombreRule` inherit this.
- ContactService.Create: the stored phone is the exact integer the digits denote. The source stores `Number(data.telefono)`, a double, so digit strings above 2^53 (such as `12345678901234567`) are rounded there and kept exact here. `ContactService.PhoneValue` and `Text.NumberOf` read numbers the same way.
- StoreProperties.DuplicateEmailRejected: holds in the source only for emails without non-ASCII capitals. The model uses one ASCII lower casing both to normalise the stored email and for the `LOWER` comparison. In the source the two differ: store `Éa@x.co` (saved as `éa@x.co`), then submit `ÉA@x.co`. `LOWER` gives `Éa@x.co`, the check finds no match, and the insertion fails on the `UNIQUE` constraint with a server error rather than the uniqueness message. The "no two emails equal ignoring case" part of `StoreInvariant.Inv`, and so `StoreInvariant.CreatePreservesInv` and `StoreInvariant.ReachableListing`, rest on the same ASCII lower casing.
- `Number()` is modelled only for integer text. The model reads trimmed text that is an optional sign followed by decimal digits as its exact integer value; blank text reads as 0. Decimal points, exponents, hexadecimal, `Infinity` and other JavaScript number forms are read as not-a-number. The stored phone is therefore a natural number.
- White space and case are ASCII-only. `trim` and the `\s` class use space, tab, line feed, vertical tab, form feed and carriage return, so Unicode spaces are not modelled. Lower casing maps `A`–`Z` only. That is what SQLite's `LOWER` and `LIKE` do, but JavaScript's `toLowerCase`, which normalises the stored email, also maps non-ASCII capitals.
- SQL `LIKE` wildcards are not modelled. In the source, `%` and `_` in a search term act as wildcards; the model treats them as literal characters.
- A missing form field (`undefined`) is the empty string in the model. The source treats both alike in validation.
- The source treats an empty-string `excludeId` of `emailExists` as absent. Ids here are naturals, so this case does not arise.
- The "No se pudo eliminar el contacto" branch of delete is kept in the model, but it is unreachable there. The lookup and the delete see the same store, and `ContactService.Delete` proves success whenever the id is present.
- Exceptions from the storage engine are not modelled. Neither is concurrency: each operation is one atomic step on the store.
- Response messages are constructors of `ValidationError` and `OperationError`, each with a `message()` giving the source's text. The envelope's `success` flag is implied by the constructor.
