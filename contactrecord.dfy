/** The value a `Contact` (tel5/contact.cpp) holds, and what its
    constructor and setters keep true of it. */
module ContactRecords {
  import opened StdString
  import opened Validator
  import opened PhoneNumbers

  /** The value of a contact: what a copy of a `Contact` holds. */
  datatype ContactRecord = ContactRecord(
    firstName: string,
    lastName: string,
    middleName: string,
    address: string,
    birthDate: string,
    email: string,
    phones: seq<PhoneNumber>)

  /** Every field empty: the members before the constructor body runs. */
  const Blank := ContactRecord("", "", "", "", "", "", [])

  predicate Trimmed(s: string) { s == Trim(s) }

  /** A first or last name as its setter stores it. */
  predicate NameOk(s: string) { NameValid(s) && Trimmed(s) }

  /** A middle name as its setter stores it: it may be empty. */
  predicate MiddleOk(s: string) { (s == [] || NameValid(s)) && Trimmed(s) }

  /** An e-mail address as its setter stores it. */
  predicate EmailOk(s: string) { EmailValid(s) && Trimmed(s) }

  /** What the constructor and the setters keep true of a contact.  The
      birth date is left out: whether it is valid depends on the day. */
  predicate WellFormed(c: ContactRecord) {
    StoredText(c.firstName, c.lastName, c.middleName, c.address, c.email) && AllValid(c.phones)
  }

  /** The text fields of a well-formed contact. */
  predicate StoredText(first: string, last: string, middle: string, address: string, email: string) {
    NameOk(first) && NameOk(last) && MiddleOk(middle) && Trimmed(address) && EmailOk(email)
  }

  lemma NameOkOfTrim(name: string)
    requires NameValid(name)
    ensures NameOk(Trim(name))
  {
    NameValidOfTrim(name);
    TrimIdempotent(name);
  }

  lemma MiddleOkOfTrim(name: string)
    requires name == [] || NameValid(name)
    ensures MiddleOk(Trim(name))
  {
    NameValidOfTrim(name);
    TrimIdempotent(name);
  }

  lemma EmailOkOfTrim(mail: string)
    requires EmailValid(mail)
    ensures EmailOk(Trim(mail))
  {
    EmailValidOfTrim(mail);
    TrimIdempotent(mail);
  }
}
