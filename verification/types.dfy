/** Record shapes of the contact application: the stored contact, the form
    record the client submits, a field-level validation error and the uniform
    response envelope every business operation returns. */
module ContactTypes {

  /** An optional value; `None` stands for JavaScript's `undefined` or SQL NULL. */
  datatype Option<+T> = None | Some(value: T)

  /** Contact identifiers are opaque; the store hands out fresh naturals. */
  type Id = nat

  /** A stored contact. `telefono` is the numeric value of the submitted phone
      text and `createdAt` the store's creation stamp (a counter, newest is
      largest). */
  datatype Contact = Contact(
    id: Id,
    nombre: string,
    email: string,
    telefono: nat,
    ciudad: string,
    notas: Option<string>,
    createdAt: nat)

  /** A contact without the two fields the store assigns (`id`, `createdAt`):
      what the business layer hands to the repository's create operation. */
  datatype ContactData = ContactData(
    nombre: string,
    email: string,
    telefono: nat,
    ciudad: string,
    notas: Option<string>)

  /** The form record as submitted: every field is text, `notas` may be absent.
      A required field the client leaves out is the empty string here; the
      source treats `undefined` and `''` alike. */
  datatype ContactFormData = ContactFormData(
    nombre: string,
    email: string,
    telefono: string,
    ciudad: string,
    notas: Option<string>)

  /** The four validated fields, in the order the validator checks them. */
  datatype Field = Nombre | Email | Telefono | Ciudad

  /** A field-level error, `{field, message}`: one constructor per message the
      validator and the uniqueness rule can produce. */
  datatype ValidationError =
    | NombreRequired
    | NombreTooShort
    | EmailRequired
    | EmailMalformed
    | EmailTaken
    | TelefonoRequired
    | TelefonoInvalid
    | CiudadRequired
  {
    function field(): Field {
      match this
      case NombreRequired | NombreTooShort => Nombre
      case EmailRequired | EmailMalformed | EmailTaken => Email
      case TelefonoRequired | TelefonoInvalid => Telefono
      case CiudadRequired => Ciudad
    }

    function message(): string {
      match this
      case NombreRequired => "El nombre es obligatorio"
      case NombreTooShort => "El nombre debe tener al menos 2 caracteres"
      case EmailRequired => "El email es obligatorio"
      case EmailMalformed => "El formato del email no es válido"
      case EmailTaken => "Este email ya está registrado"
      case TelefonoRequired => "El teléfono es obligatorio"
      case TelefonoInvalid => "El teléfono debe ser un número válido (mínimo 7 dígitos)"
      case CiudadRequired => "La ciudad es obligatoria"
    }
  }

  /** The single-message failures of the delete operation. */
  datatype OperationError = NotFound | DeleteFailed {
    function message(): string {
      match this
      case NotFound => "Contacto no encontrado"
      case DeleteFailed => "No se pudo eliminar el contacto"
    }
  }

  /** The response envelope `{success, data?, error?, errors?}`. Each response
      the business layer builds is of exactly one of three shapes: success with
      a payload, failure with one message, or failure with field errors. */
  datatype ApiResponse<+T> =
    | Success(data: T)
    | Failure(error: OperationError)
    | Invalid(errors: seq<ValidationError>)
}
