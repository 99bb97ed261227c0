/** The request bodies the handlers accept, and the field constraints that
    gate them before a handler runs. The syntax check of an `EmailStr` field is
    a parameter, `isEmail`. */
module Schemas {
  import opened Text
  import opened Models

  /** A request body as received, before validation. */
  datatype RawUserCreate = RawUserCreate(name: string, email: string, password: string)
  datatype RawBookIn = RawBookIn(classId: int, clientName: string, clientEmail: string)

  /** A validated `UserCreate`: `name` is already stripped. */
  datatype UserCreate = UserCreate(name: string, email: string, password: string)
  /** A validated `BookIn`: fields as received. */
  datatype BookIn = BookIn(classId: int, clientName: string, clientEmail: string)

  /** `UserCreate`: `name` is stripped of whitespace and must then be
      non-empty, `email` must be an email address, `password` must have at
      least six characters. On success the name is the stripped one. */
  function ValidateUserCreate(raw: RawUserCreate, isEmail: string -> bool): (r: Option<UserCreate>)
    ensures r.Some? <==> |Strip(raw.name)| >= 1 && isEmail(raw.email) && |raw.password| >= 6
    ensures r.Some? ==> r.value == UserCreate(Strip(raw.name), raw.email, raw.password)
  {
    var name := Strip(raw.name);
    if |name| >= 1 && isEmail(raw.email) && |raw.password| >= 6 then
      Some(UserCreate(name, raw.email, raw.password))
    else None
  }

  /** `BookIn`: `class_id` must be positive, `client_name` must have between
      1 and 120 characters as sent (it is not stripped here), and
      `client_email` must be an email address. */
  function ValidateBookIn(raw: RawBookIn, isEmail: string -> bool): (r: Option<BookIn>)
    ensures r.Some? <==> raw.classId > 0 && 1 <= |raw.clientName| <= 120 && isEmail(raw.clientEmail)
    ensures r.Some? ==> r.value == BookIn(raw.classId, raw.clientName, raw.clientEmail)
  {
    if raw.classId > 0 && 1 <= |raw.clientName| <= 120 && isEmail(raw.clientEmail) then
      Some(BookIn(raw.classId, raw.clientName, raw.clientEmail))
    else None
  }

  /** A validated user's name is non-empty and has no whitespace at either
      end. */
  lemma UserNameNormalised(raw: RawUserCreate, isEmail: string -> bool)
    requires ValidateUserCreate(raw, isEmail).Some?
    ensures var name := ValidateUserCreate(raw, isEmail).value.name;
      |name| >= 1 && !IsSpace(name[0]) && !IsSpace(name[|name| - 1])
  {
  }

  /** Validating a validated user again changes nothing. */
  lemma ValidateUserCreateIdempotent(raw: RawUserCreate, isEmail: string -> bool)
    requires ValidateUserCreate(raw, isEmail).Some?
    ensures var u := ValidateUserCreate(raw, isEmail).value;
      ValidateUserCreate(RawUserCreate(u.name, u.email, u.password), isEmail) == Some(u)
  {
    StripIdempotent(raw.name);
  }

  /** A name made only of whitespace is rejected for a user... */
  lemma BlankUserNameRejected(raw: RawUserCreate, isEmail: string -> bool)
    requires AllSpace(raw.name)
    ensures ValidateUserCreate(raw, isEmail).None?
  {
    StripAllSpace(raw.name);
  }

  /** ...but accepted for a booking when its length is within bounds: a
      booking request's name is checked before it is stripped. */
  lemma BlankClientNameAccepted(raw: RawBookIn, isEmail: string -> bool)
    requires raw.classId > 0 && isEmail(raw.clientEmail)
    requires 1 <= |raw.clientName| <= 120 && AllSpace(raw.clientName)
    ensures ValidateBookIn(raw, isEmail).Some?
    ensures Strip(ValidateBookIn(raw, isEmail).value.clientName) == []
  {
    StripAllSpace(raw.clientName);
  }
}
