/** `Contact` (tel5/contact.cpp): a person's fields, each re-validated by
    its setter, a list of phone numbers, and the one-line text format that
    `toString` writes and `fromString` reads. */
module Contacts {
  import opened Errors
  import opened StdString
  import opened Validator
  import opened PhoneNumbers
  import opened ContactRecords

  // ---------------------------------------------------------------------
  // The setters keep a contact well formed
  // ---------------------------------------------------------------------

  /** `setFirstName` with an accepted name keeps a contact well formed. */
  lemma SetFirstNameKeeps(c: ContactRecord, name: string)
    requires WellFormed(c) && NameValid(name)
    ensures WellFormed(c.(firstName := Trim(name)))
  {
    NameOkOfTrim(name);
  }

  /** `setLastName` with an accepted name keeps a contact well formed. */
  lemma SetLastNameKeeps(c: ContactRecord, name: string)
    requires WellFormed(c) && NameValid(name)
    ensures WellFormed(c.(lastName := Trim(name)))
  {
    NameOkOfTrim(name);
  }

  /** `setMiddleName` with an empty or accepted name keeps a contact well
      formed. */
  lemma SetMiddleNameKeeps(c: ContactRecord, name: string)
    requires WellFormed(c) && (name == [] || NameValid(name))
    ensures WellFormed(c.(middleName := Trim(name)))
  {
    MiddleOkOfTrim(name);
  }

  /** `setAddress` keeps a contact well formed, whatever the address. */
  lemma SetAddressKeeps(c: ContactRecord, addr: string)
    requires WellFormed(c)
    ensures WellFormed(c.(address := Trim(addr)))
  {
    TrimIdempotent(addr);
  }

  /** `setEmail` with an accepted address keeps a contact well formed. */
  lemma SetEmailKeeps(c: ContactRecord, mail: string)
    requires WellFormed(c) && EmailValid(mail)
    ensures WellFormed(c.(email := Trim(mail)))
  {
    EmailOkOfTrim(mail);
  }

  /** `addPhone` with a number the constructor accepted keeps a contact
      well formed. */
  lemma AddPhoneKeeps(c: ContactRecord, p: PhoneNumber)
    requires WellFormed(c) && Valid(p)
    ensures WellFormed(c.(phones := c.phones + [p]))
  {
    var d := c.(phones := c.phones + [p]);
    assert AllValid([p]);
    AllValidConcat(c.phones, [p]);
    assert StoredText(d.firstName, d.lastName, d.middleName, d.address, d.email);
  }

  /** `removePhone` of an existing entry keeps a contact well formed. */
  lemma RemovePhoneKeeps(c: ContactRecord, index: nat)
    requires WellFormed(c) && index < |c.phones|
    ensures WellFormed(c.(phones := c.phones[..index] + c.phones[index + 1..]))
  {
    AllValidSlice(c.phones, 0, index);
    AllValidSlice(c.phones, index + 1, |c.phones|);
    AllValidConcat(c.phones[..index], c.phones[index + 1..]);
  }

  // ---------------------------------------------------------------------
  // The constructor, as a function of its arguments
  // ---------------------------------------------------------------------

  /** `Contact(first, last, email, phone)`: the first, last and e-mail
      setters in that order (the first failure is the one thrown), then the
      phone is appended. */
  function Construct(first: string, last: string, email: string, phone: PhoneNumber): (r: Result<ContactRecord>)
    requires Valid(phone)
    ensures r.Success? <==> NameValid(first) && NameValid(last) && EmailValid(email)
    ensures r.Success? ==> r.value == ContactRecord(Trim(first), Trim(last), "", "", "", Trim(email), [phone])
    ensures !NameValid(first) ==> r == Failure(InvalidArgument("Invalid first name"))
    ensures NameValid(first) && !NameValid(last) ==> r == Failure(InvalidArgument("Invalid last name"))
    ensures NameValid(first) && NameValid(last) && !EmailValid(email) ==> r == Failure(InvalidArgument("Invalid email"))
  {
    if !NameValid(first) then Failure(InvalidArgument("Invalid first name"))
    else if !NameValid(last) then Failure(InvalidArgument("Invalid last name"))
    else if !EmailValid(email) then Failure(InvalidArgument("Invalid email"))
    else Success(ContactRecord(Trim(first), Trim(last), "", "", "", Trim(email), [phone]))
  }

  /** A constructed contact with a valid phone is well formed. */
  lemma ConstructWellFormed(first: string, last: string, email: string, phone: PhoneNumber)
    requires NameValid(first) && NameValid(last) && EmailValid(email) && Valid(phone)
    ensures Construct(first, last, email, phone).Success?
    ensures WellFormed(Construct(first, last, email, phone).value)
  {
    NameOkOfTrim(first);
    NameOkOfTrim(last);
    EmailOkOfTrim(email);
    BuiltWellFormed(Trim(first), Trim(last), Trim(email), phone);
  }

  /** A record made of stored names, a stored address and one valid phone,
      with the other fields empty, is well formed. */
  lemma BuiltWellFormed(first: string, last: string, email: string, phone: PhoneNumber)
    requires NameOk(first) && NameOk(last) && EmailOk(email) && Valid(phone)
    ensures WellFormed(ContactRecord(first, last, "", "", "", email, [phone]))
  {
    assert AllValid([phone]);
    assert Trimmed("");
  }

  // ---------------------------------------------------------------------
  // toString
  // ---------------------------------------------------------------------

  /** One phone as `toString` writes it: `(type,number)`. */
  function EntryText(p: PhoneNumber): string {
    "(" + Inside(p) + ")"
  }

  /** What `toString` writes between the brackets of an entry. */
  function Inside(p: PhoneNumber): string {
    IntToString(p.kind) + "," + p.number
  }

  function PhonesText(ps: seq<PhoneNumber>): string {
    if ps == [] then "" else EntryText(ps[0]) + PhonesText(ps[1..])
  }

  /** `Contact::toString`: the six fields and `phones:` with the entries,
      separated by `;`. */
  function Serialize(c: ContactRecord): string {
    Join(Fields(c), ';')
  }

  /** What `toString` writes before the first phone entry. */
  function Head(c: ContactRecord): string {
    c.firstName + ";" + c.lastName + ";" + c.middleName + ";" + c.address + ";"
    + c.birthDate + ";" + c.email + ";phones:"
  }

  /** The line is the head followed by the entries, one after another. */
  lemma SerializeShape(c: ContactRecord)
    ensures Serialize(c) == Head(c) + PhonesText(c.phones)
  {
    JoinFields(c.firstName, c.lastName, c.middleName, c.address, c.birthDate, c.email, PhonesText(c.phones));
  }

  lemma JoinFields(a: string, b: string, m: string, d: string, e: string, f: string, rest: string)
    ensures Join([a, b, m, d, e, f, "phones:" + rest], ';')
      == a + ";" + b + ";" + m + ";" + d + ";" + e + ";" + f + ";phones:" + rest
  {
    var g := "phones:" + rest;
    assert [a, b] == [a] + [b];
    JoinSnoc([a], b, ';');
    assert [a, b, m] == [a, b] + [m];
    JoinSnoc([a, b], m, ';');
    assert [a, b, m, d] == [a, b, m] + [d];
    JoinSnoc([a, b, m], d, ';');
    assert [a, b, m, d, e] == [a, b, m, d] + [e];
    JoinSnoc([a, b, m, d], e, ';');
    assert [a, b, m, d, e, f] == [a, b, m, d, e] + [f];
    JoinSnoc([a, b, m, d, e], f, ';');
    assert [a, b, m, d, e, f, g] == [a, b, m, d, e, f] + [g];
    JoinSnoc([a, b, m, d, e, f], g, ';');
    var j := a + ";" + b + ";" + m + ";" + d + ";" + e + ";" + f;
    assert Join([a, b, m, d, e, f], ';') == j;
    assert j + ";" + g == j + ";phones:" + rest;
  }

  /** Writing one more phone appends its entry. */
  lemma {:induction false} PhonesTextSnoc(ps: seq<PhoneNumber>, p: PhoneNumber)
    ensures PhonesText(ps + [p]) == PhonesText(ps) + EntryText(p)
    decreases |ps|
  {
    if ps == [] {
      assert [] + [p] == [p];
      assert [p][1..] == [];
    } else {
      assert (ps + [p])[1..] == ps[1..] + [p];
      PhonesTextSnoc(ps[1..], p);
    }
  }

  /** The seven `;`-separated fields of the line. */
  function Fields(c: ContactRecord): seq<string> {
    [c.firstName, c.lastName, c.middleName, c.address, c.birthDate, c.email,
     "phones:" + PhonesText(c.phones)]
  }

  // ---------------------------------------------------------------------
  // fromString, as a function of the line
  // ---------------------------------------------------------------------

  /** The placeholder phone that `fromString` passes to the constructor:
      a valid number, as every `PhoneNumber` object is. */
  function Placeholder(): (p: PhoneNumber)
    ensures p.kind == Work && Valid(p)
  {
    PlaceholderValid("80000000000");
    PhoneNumber(Work, "80000000000")
  }

  /** The text between `(` and `)`: the part before the first `,` read by
      `stoi`, the rest made into a `PhoneNumber`; `None` where the source
      throws and the entry is skipped. */
  function PhoneEntry(data: string): (r: Option<PhoneNumber>)
    ensures r.Some? ==> Valid(r.value)
  {
    match Find(data, ',', 0)
    case None => None
    case Some(comma) =>
      match ScanInt(data[..comma], 0)
      case None => None
      case Some((kind, _)) =>
        match MakePhone(kind, data[comma + 1..])
        case Failure(_) => None
        case Success(p) => Some(p)
  }

  /** The texts the scan of `fromString` finds from index `pos` on: at a
      `(`, the text up to the next `)` is taken and the scan goes on after
      that `)`; a `(` with no `)` after it ends the scan; every other
      character is passed over. */
  function Bracketed(s: string, pos: nat): seq<string>
    requires pos <= |s|
    decreases |s| - pos
  {
    if pos == |s| then []
    else if s[pos] != '(' then Bracketed(s, pos + 1)
    else
      match Find(s, ')', pos)
      case None => []
      case Some(close) => [s[pos + 1..close]] + Bracketed(s, close + 1)
  }

  /** Each text read with `read`; those it refuses are skipped.  The
      reader is a parameter so that the scan can be reasoned about apart
      from how one entry is read; `fromString` uses `PhoneEntry`. */
  function ReadEach(read: string -> Option<PhoneNumber>, ds: seq<string>): (ps: seq<PhoneNumber>)
  {
    if ds == [] then [] else Found(read(ds[0])) + ReadEach(read, ds[1..])
  }

  /** The phone an entry yields, if any, as a list of zero or one. */
  function Found(entry: Option<PhoneNumber>): seq<PhoneNumber> {
    if entry.Some? then [entry.value] else []
  }

  /** The phones `fromString` reads from the text after `phones:`. */
  function ScanPhones(s: string, pos: nat): (ps: seq<PhoneNumber>)
    requires pos <= |s|
    ensures AllValid(ps)
  {
    ReadEntriesValid(Bracketed(s, pos));
    ReadEach(PhoneEntry, Bracketed(s, pos))
  }

  lemma ReadEachCons(read: string -> Option<PhoneNumber>, d: string, ds: seq<string>)
    ensures ReadEach(read, [d] + ds) == Found(read(d)) + ReadEach(read, ds)
  {
    assert ([d] + ds)[1..] == ds;
  }

  /** Every phone read with `PhoneEntry` is valid. */
  lemma ReadEntriesValid(ds: seq<string>)
    ensures AllValid(ReadEach(PhoneEntry, ds))
  {
    assert forall d :: PhoneEntry(d).Some? ==> Valid(PhoneEntry(d).value);
    ReadEachValid(PhoneEntry, ds);
  }

  /** A reader that yields only valid phones reads only valid phones. */
  lemma {:induction false} ReadEachValid(read: string -> Option<PhoneNumber>, ds: seq<string>)
    requires forall d :: read(d).Some? ==> Valid(read(d).value)
    ensures AllValid(ReadEach(read, ds))
    decreases |ds|
  {
    if ds != [] {
      ReadEachValid(read, ds[1..]);
      var here := Found(read(ds[0]));
      assert AllValid(here);
      AllValidConcat(here, ReadEach(read, ds[1..]));
    }
  }

  /** Texts that each read as the phone at the same index read as exactly
      those phones. */
  lemma {:induction false} ReadEachAll(read: string -> Option<PhoneNumber>, ds: seq<string>, ps: seq<PhoneNumber>)
    requires |ds| == |ps| && forall i :: 0 <= i < |ds| ==> read(ds[i]) == Some(ps[i])
    ensures ReadEach(read, ds) == ps
    decreases |ds|
  {
    if ds != [] {
      assert read(ds[0]) == Some(ps[0]);
      assert forall i :: 0 <= i < |ds[1..]| ==> ds[1..][i] == ds[i + 1] && ps[1..][i] == ps[i + 1];
      ReadEachAll(read, ds[1..], ps[1..]);
      assert ps == [ps[0]] + ps[1..];
    }
  }

  /** The phones of the line: scanned only when there is a seventh token
      and it starts with `phones:`. */
  function TokenPhones(tokens: seq<string>): (ps: seq<PhoneNumber>)
    ensures AllValid(ps)
  {
    if |tokens| > 6 && "phones:" <= tokens[6] then ScanPhones(tokens[6][7..], 0) else []
  }

  /** `Contact::fromString`: the line split at `;` and read token by token. */
  function Parse(line: string, today: Date): Result<ContactRecord> {
    ParseTokens(Split(line, ';'), today)
  }

  /** The tokens of `fromString`: fewer than six is a format error; then
      the constructor on tokens 0, 1 and 5, the middle name (token 2),
      address (token 3) and birth date (token 4) setters; the placeholder
      phone is dropped and the phones of token 6 are read.  What it accepts
      is well formed and has a birth date valid on `today`. */
  function ParseTokens(t: seq<string>, today: Date): (r: Result<ContactRecord>)
    ensures r.Success? ==> WellFormed(r.value) && DateValid(r.value.birthDate, today)
  {
    if |t| < 6 then Failure(InvalidArgument("Invalid contact string format"))
    else
      match Construct(t[0], t[1], t[5], Placeholder())
      case Failure(e) => Failure(e)
      case Success(c) =>
        if t[2] != [] && !NameValid(t[2]) then Failure(InvalidArgument("Invalid middle name"))
        else if t[4] != [] && !DateValid(t[4], today) then Failure(InvalidArgument("Invalid birth date"))
        else
          var r := c.(middleName := Trim(t[2]), address := Trim(t[3]), birthDate := t[4],
                      phones := TokenPhones(t));
          ParsedWellFormed(t, r);
          Success(r)
  }

  /** The record `fromString` builds from accepted tokens is well formed. */
  lemma ParsedWellFormed(t: seq<string>, r: ContactRecord)
    requires |t| >= 6 && NameValid(t[0]) && NameValid(t[1]) && EmailValid(t[5])
    requires t[2] == [] || NameValid(t[2])
    requires r == ContactRecord(Trim(t[0]), Trim(t[1]), Trim(t[2]), Trim(t[3]), t[4], Trim(t[5]), TokenPhones(t))
    ensures WellFormed(r)
  {
    NameOkOfTrim(t[0]);
    NameOkOfTrim(t[1]);
    MiddleOkOfTrim(t[2]);
    TrimIdempotent(t[3]);
    EmailOkOfTrim(t[5]);
  }

  /** `ParseTokens` step by step: the constructor's error, then the middle
      name, then the birth date, then the finished record. */
  lemma ParseTokensSteps(t: seq<string>, today: Date)
    requires |t| >= 6
    ensures var made := Construct(t[0], t[1], t[5], Placeholder());
      && (made.Failure? ==> ParseTokens(t, today) == Failure(made.error))
      && (made.Success? && t[2] != [] && !NameValid(t[2]) ==>
            ParseTokens(t, today) == Failure(InvalidArgument("Invalid middle name")))
      && (made.Success? && (t[2] == [] || NameValid(t[2])) && !DateValid(t[4], today) ==>
            ParseTokens(t, today) == Failure(InvalidArgument("Invalid birth date")))
      && (made.Success? && (t[2] == [] || NameValid(t[2])) && DateValid(t[4], today) ==>
            ParseTokens(t, today) == Success(made.value.(middleName := Trim(t[2]), address := Trim(t[3]),
                                                         birthDate := t[4], phones := TokenPhones(t))))
  {
  }

  /** Accepted tokens parse to the constructed record with the other
      fields set and the phones of token 6, when there is one. */
  lemma ParsedAs(t: seq<string>, today: Date, built: ContactRecord, ps: seq<PhoneNumber>)
    requires |t| >= 6 && Construct(t[0], t[1], t[5], Placeholder()) == Success(built)
    requires (t[2] == [] || NameValid(t[2])) && DateValid(t[4], today)
    requires |t| > 6 && "phones:" <= t[6] ==> ps == ScanPhones(t[6][7..], 0)
    requires !(|t| > 6 && "phones:" <= t[6]) ==> ps == []
    ensures ParseTokens(t, today)
      == Success(built.(middleName := Trim(t[2]), address := Trim(t[3]), birthDate := t[4], phones := ps))
  {
    ParseTokensSteps(t, today);
    assert ps == TokenPhones(t);
  }

  /** The error of `fromString` for each way a line can be refused, in the
      order the source checks. */
  lemma ParseErrors(line: string, today: Date)
    ensures var t := Split(line, ';');
      && (|t| < 6 ==> Parse(line, today) == Failure(InvalidArgument("Invalid contact string format")))
      && (|t| >= 6 && !NameValid(t[0]) ==> Parse(line, today) == Failure(InvalidArgument("Invalid first name")))
      && (|t| >= 6 && NameValid(t[0]) && !NameValid(t[1]) ==>
            Parse(line, today) == Failure(InvalidArgument("Invalid last name")))
      && (|t| >= 6 && NameValid(t[0]) && NameValid(t[1]) && !EmailValid(t[5]) ==>
            Parse(line, today) == Failure(InvalidArgument("Invalid email")))
      && (|t| >= 6 && NameValid(t[0]) && NameValid(t[1]) && EmailValid(t[5])
            && t[2] != [] && !NameValid(t[2]) ==>
            Parse(line, today) == Failure(InvalidArgument("Invalid middle name")))
      && (|t| >= 6 && NameValid(t[0]) && NameValid(t[1]) && EmailValid(t[5])
            && (t[2] == [] || NameValid(t[2])) && !DateValid(t[4], today) ==>
            Parse(line, today) == Failure(InvalidArgument("Invalid birth date")))
  {
  }

  /** Tokens are accepted exactly when there are six and every checked
      token passes; the fields are then the trimmed tokens (the birth date
      as it is). */
  lemma ParseTokensAccepts(t: seq<string>, today: Date)
    ensures ParseTokens(t, today).Success? <==>
        (|t| >= 6 && NameValid(t[0]) && NameValid(t[1]) && EmailValid(t[5])
         && (t[2] == [] || NameValid(t[2])) && DateValid(t[4], today))
    ensures ParseTokens(t, today).Success? ==>
        ParseTokens(t, today).value
          == ContactRecord(Trim(t[0]), Trim(t[1]), Trim(t[2]), Trim(t[3]), t[4], Trim(t[5]), TokenPhones(t))
  {
  }

  /** A line is accepted exactly when its tokens are. */
  lemma ParseAccepts(line: string, today: Date)
    ensures var t := Split(line, ';');
      Parse(line, today).Success? <==>
        (|t| >= 6 && NameValid(t[0]) && NameValid(t[1]) && EmailValid(t[5])
         && (t[2] == [] || NameValid(t[2])) && DateValid(t[4], today))
    ensures var t := Split(line, ';');
      Parse(line, today).Success? ==>
        Parse(line, today).value
          == ContactRecord(Trim(t[0]), Trim(t[1]), Trim(t[2]), Trim(t[3]), t[4], Trim(t[5]), TokenPhones(t))
  {
    ParseTokensAccepts(Split(line, ';'), today);
  }

  // ---------------------------------------------------------------------
  // The round trip toString / fromString
  // ---------------------------------------------------------------------

  /** The conditions under which the line format can carry a contact: no
      `;` in the address or birth date, and no `;` or `)` in a number. */
  predicate Serializable(c: ContactRecord) {
    && Lacks(c.address, ';')
    && Lacks(c.birthDate, ';')
    && NumbersLack(c.phones, ';')
    && NumbersLack(c.phones, ')')
  }

  predicate NumbersLack(ps: seq<PhoneNumber>, d: char) {
    forall i :: 0 <= i < |ps| ==> Lacks(ps[i].number, d)
  }

  /** `fromString(toString(c))` gives `c` back, for a well-formed contact
      that the format can carry and whose birth date is still valid. */
  lemma ParseSerialize(c: ContactRecord, today: Date)
    requires WellFormed(c) && Serializable(c) && DateValid(c.birthDate, today)
    ensures Parse(Serialize(c), today) == Success(c)
  {
    WellFormedLacks(c);
    FieldsLackSemicolon(c);
    SplitJoin(Fields(c), ';');
    ScanPhonesText(c.phones);
    TokenPhonesOfFields(c);
    ParseFields(c, today);
  }

  /** The tokens written for a well-formed contact with a valid birth date,
      whose phone text reads back to its phones, parse to that contact. */
  lemma ParseFields(c: ContactRecord, today: Date)
    requires WellFormed(c) && DateValid(c.birthDate, today)
    requires TokenPhones(Fields(c)) == c.phones
    ensures ParseTokens(Fields(c), today) == Success(c)
  {
    FieldsAt(c);
    ParseTokensAccepts(Fields(c), today);
  }

  lemma FieldsAt(c: ContactRecord)
    ensures var t := Fields(c);
      && |t| == 7 && t[0] == c.firstName && t[1] == c.lastName && t[2] == c.middleName
      && t[3] == c.address && t[4] == c.birthDate && t[5] == c.email
  {
  }

  lemma TokenPhonesOfFields(c: ContactRecord)
    requires ScanPhones(PhonesText(c.phones), 0) == c.phones
    ensures TokenPhones(Fields(c)) == c.phones
  {
    var t6 := "phones:" + PhonesText(c.phones);
    assert "phones:" <= t6 && t6[7..] == PhonesText(c.phones);
  }

  /** The name and e-mail fields of a well-formed contact hold no `;`. */
  lemma WellFormedLacks(c: ContactRecord)
    requires WellFormed(c)
    ensures Lacks(c.firstName, ';') && Lacks(c.lastName, ';')
    ensures Lacks(c.middleName, ';') && Lacks(c.email, ';')
  {
    NameHasNoSemicolon(c.firstName);
    NameHasNoSemicolon(c.lastName);
    if c.middleName != [] {
      NameHasNoSemicolon(c.middleName);
    }
    EmailHasNoSemicolon(c.email);
  }

  /** No field holds a `;` when no text field and no number does. */
  lemma FieldsLackSemicolon(c: ContactRecord)
    requires Lacks(c.firstName, ';') && Lacks(c.lastName, ';') && Lacks(c.middleName, ';')
    requires Lacks(c.address, ';') && Lacks(c.birthDate, ';') && Lacks(c.email, ';')
    requires NumbersLack(c.phones, ';')
    ensures forall i :: 0 <= i < |Fields(c)| ==> Lacks(Fields(c)[i], ';')
  {
    PhonesTextLacks(c.phones);
    LacksConcat("phones:", PhonesText(c.phones), ';');
  }

  lemma EmailHasNoSemicolon(email: string)
    requires EmailValid(email)
    ensures Lacks(Trim(email), ';')
  {
    EmailChars(email);
    var t := Trim(email);
    forall k | 0 <= k < |t| ensures t[k] != ';' {
      assert EmailChar(t[k]) || t[k] == ' ';
    }
  }

  /** The phone entries hold no `;` when no number does. */
  lemma {:induction false} PhonesTextLacks(ps: seq<PhoneNumber>)
    requires NumbersLack(ps, ';')
    ensures Lacks(PhonesText(ps), ';')
    decreases |ps|
  {
    if ps != [] {
      assert NumbersLack(ps[1..], ';') by {
        forall i | 0 <= i < |ps[1..]| ensures Lacks(ps[1..][i].number, ';') {
          assert ps[1..][i] == ps[i + 1];
        }
      }
      PhonesTextLacks(ps[1..]);
      EntryTextLacks(ps[0]);
      LacksConcat(EntryText(ps[0]), PhonesText(ps[1..]), ';');
    }
  }

  /** An entry holds a `;` only where its number does. */
  lemma EntryTextLacks(p: PhoneNumber)
    requires Lacks(p.number, ';')
    ensures Lacks(EntryText(p), ';')
  {
    var e := EntryText(p);
    var k := IntToString(p.kind);
    forall j | 0 <= j < |e| ensures e[j] != ';' {
      if 1 <= j < 1 + |k| {
        assert e[j] == k[j - 1];
      } else if 1 + |k| < j < |e| - 1 {
        assert e[j] == p.number[j - 2 - |k|];
      }
    }
  }

  lemma LacksConcat(a: string, b: string, d: char)
    requires Lacks(a, d) && Lacks(b, d)
    ensures Lacks(a + b, d)
  {
    forall k | 0 <= k < |a + b| ensures (a + b)[k] != d {
      if k >= |a| {
        assert (a + b)[k] == b[k - |a|];
      }
    }
  }

  /** The insides of the entries, in order. */
  function Insides(ps: seq<PhoneNumber>): (ds: seq<string>)
    ensures |ds| == |ps|
  {
    if ps == [] then [] else [Inside(ps[0])] + Insides(ps[1..])
  }

  /** Scanning the written entries reads the phones back, in order. */
  lemma ScanPhonesText(ps: seq<PhoneNumber>)
    requires AllValid(ps) && NumbersLack(ps, ')')
    ensures ScanPhones(PhonesText(ps), 0) == ps
  {
    var s := PhonesText(ps);
    assert s[0..] == s;
    BracketedText(s, 0, ps);
    ReadInsides(ps);
  }

  /** The scan finds exactly the insides of the written entries. */
  lemma {:induction false} BracketedText(s: string, pos: nat, ps: seq<PhoneNumber>)
    requires pos <= |s| && s[pos..] == PhonesText(ps)
    requires NumbersLack(ps, ')')
    ensures Bracketed(s, pos) == Insides(ps)
    decreases |ps|
  {
    if ps == [] {
      assert pos == |s|;
    } else {
      var e := EntryText(ps[0]);
      SliceAt(s, pos, e, PhonesText(ps[1..]));
      NumbersLackTail(ps, ')');
      BracketedEntry(s, pos, ps[0]);
      BracketedText(s, pos + |e|, ps[1..]);
    }
  }

  lemma NumbersLackTail(ps: seq<PhoneNumber>, d: char)
    requires ps != [] && NumbersLack(ps, d)
    ensures Lacks(ps[0].number, d) && NumbersLack(ps[1..], d)
  {
    forall i | 0 <= i < |ps[1..]| ensures Lacks(ps[1..][i].number, d) {
      assert ps[1..][i] == ps[i + 1];
    }
  }

  /** An entry written at `pos` is the next text the scan finds. */
  lemma BracketedEntry(s: string, pos: nat, p: PhoneNumber)
    requires Lacks(p.number, ')')
    requires pos + |EntryText(p)| <= |s| && s[pos..pos + |EntryText(p)|] == EntryText(p)
    ensures Bracketed(s, pos) == [Inside(p)] + Bracketed(s, pos + |EntryText(p)|)
  {
    EntryShape(p);
    BracketedAt(s, pos, EntryText(p));
  }

  /** The insides of valid entries read back as their phones. */
  lemma ReadInsides(ps: seq<PhoneNumber>)
    requires AllValid(ps)
    ensures ReadEach(PhoneEntry, Insides(ps)) == ps
  {
    var ds := Insides(ps);
    forall i | 0 <= i < |ds| ensures PhoneEntry(ds[i]) == Some(ps[i]) {
      InsidesAt(ps, i);
      EntryOfText(ps[i], ds[i]);
    }
    ReadEachAll(PhoneEntry, ds, ps);
  }

  lemma {:induction false} InsidesAt(ps: seq<PhoneNumber>, i: nat)
    requires i < |ps|
    ensures Insides(ps)[i] == Inside(ps[i])
    decreases i
  {
    if i > 0 {
      InsidesAt(ps[1..], i - 1);
    }
  }

  lemma SliceAt(s: string, pos: nat, e: string, rest: string)
    requires pos <= |s| && s[pos..] == e + rest
    ensures pos + |e| <= |s| && s[pos..pos + |e|] == e && s[pos + |e|..] == rest
  {
    assert s[pos..pos + |e|] == s[pos..][..|e|];
    assert s[pos + |e|..] == s[pos..][|e|..];
  }

  /** A bracketed text copied at `pos` is the next one the scan finds. */
  lemma BracketedAt(s: string, pos: nat, e: string)
    requires |e| >= 2 && pos + |e| <= |s| && s[pos..pos + |e|] == e
    requires e[0] == '(' && e[|e| - 1] == ')' && forall j :: 0 <= j < |e| - 1 ==> e[j] != ')'
    ensures Bracketed(s, pos) == [e[1..|e| - 1]] + Bracketed(s, pos + |e|)
  {
    FindClose(s, pos, e);
  }

  /** An entry opens with `(`, closes with its only `)`, and holds the
      type, a `,` and the number in between. */
  lemma EntryShape(p: PhoneNumber)
    requires Lacks(p.number, ')')
    ensures var e := EntryText(p);
      && |e| >= 2 && e[0] == '(' && e[|e| - 1] == ')'
      && (forall j :: 0 <= j < |e| - 1 ==> e[j] != ')')
      && e[1..|e| - 1] == Inside(p)
  {
    var e := EntryText(p);
    var k := IntToString(p.kind);
    forall j | 0 <= j < |e| - 1 ensures e[j] != ')' {
      if 1 <= j < 1 + |k| {
        assert e[j] == k[j - 1];
      } else if 1 + |k| < j {
        assert e[j] == p.number[j - 2 - |k|];
      }
    }
  }

  /** The first `)` from `pos` on is the last character of a bracketed
      text copied at `pos`. */
  lemma FindClose(s: string, pos: nat, e: string)
    requires |e| >= 2 && pos + |e| <= |s| && s[pos..pos + |e|] == e
    requires e[|e| - 1] == ')' && forall j :: 0 <= j < |e| - 1 ==> e[j] != ')'
    ensures s[pos] == e[0]
    ensures Find(s, ')', pos) == Some(pos + |e| - 1)
    ensures s[pos + 1..pos + |e| - 1] == e[1..|e| - 1]
  {
    var close := pos + |e| - 1;
    assert s[pos] == e[0];
    forall j | pos <= j < close ensures s[j] != ')' {
      assert s[j] == e[j - pos];
    }
    assert s[close] == e[|e| - 1];
    FindFirstAt(s, ')', pos, close);
    var mid, inner := s[pos + 1..close], e[1..|e| - 1];
    forall j | 0 <= j < |inner| ensures mid[j] == inner[j] {
      assert s[pos..pos + |e|][j + 1] == e[j + 1];
    }
  }

  /** The text between the brackets of an entry is read back as its phone. */
  lemma EntryOfText(p: PhoneNumber, data: string)
    requires Valid(p) && data == Inside(p)
    ensures PhoneEntry(data) == Some(p)
  {
    var k := IntToString(p.kind);
    assert data[|k|] == ',';
    forall j | 0 <= j < |k| ensures data[j] != ',' {
      assert data[j] == k[j];
    }
    FindFirstAt(data, ',', 0, |k|);
    assert data[..|k|] == k;
    assert data[|k| + 1..] == p.number;
    ScanIntOfIntToString(p.kind);
    MakePhoneOfValid(p);
  }

  // ---------------------------------------------------------------------
  // The object
  // ---------------------------------------------------------------------

  /** One turn of the phone loop: writing the next entry extends the text
      of the phones written so far. */
  lemma PhonesStep(text: string, done: seq<PhoneNumber>, p: PhoneNumber, r: string)
    requires r == text + PhonesText(done)
    ensures r + EntryText(p) == text + PhonesText(done + [p])
  {
    PhonesTextSnoc(done, p);
  }

  /** The phone loop of `toString`: each entry written after `text`. */
  method WritePhones(text: string, ps: seq<PhoneNumber>) returns (r: string)
    ensures r == text + PhonesText(ps)
  {
    r := text;
    var i := 0;
    while i < |ps|
      invariant i <= |ps|
      invariant r == text + PhonesText(ps[..i])
    {
      PhonesStep(text, ps[..i], ps[i], r);
      assert ps[..i] + [ps[i]] == ps[..i + 1];
      r := WriteEntry(r, ps[i]);
      i := i + 1;
    }
    assert ps[..i] == ps;
  }

  /** One `oss << "(" << type << "," << number << ")"` of `toString`. */
  method WriteEntry(text: string, p: PhoneNumber) returns (r: string)
    ensures r == text + EntryText(p)
  {
    r := text + "(" + IntToString(p.kind) + "," + p.number + ")";
    var k, n := IntToString(p.kind), p.number;
    assert r == text + ("(" + (k + "," + n) + ")");
  }

  class Contact {
    var firstName: string
    var lastName: string
    var middleName: string
    var address: string
    var birthDate: string
    var email: string
    var phones: seq<PhoneNumber>

    function Value(): ContactRecord
      reads this
    {
      ContactRecord(firstName, lastName, middleName, address, birthDate, email, phones)
    }

    /** The members as they are before the constructor body runs. */
    constructor Empty()
      ensures Value() == Blank
    {
      firstName, lastName, middleName := "", "", "";
      address, birthDate, email := "", "", "";
      phones := [];
    }

    /** `Contact(first, last, email, phone)`: a new contact, or the error
        the first failing setter throws. */
    static method Create(first: string, last: string, mail: string, phone: PhoneNumber)
      returns (r: Result<Contact>)
      requires Valid(phone)
      ensures r.Failure? ==> Construct(first, last, mail, phone) == Failure(r.error)
      ensures r.Success? ==> fresh(r.value) && Construct(first, last, mail, phone) == Success(r.value.Value())
    {
      var c := new Contact.Empty();
      var s := c.Fill(first, last, mail, phone);
      if s.Failed? {
        return Failure(s.error);
      }
      assert Construct(first, last, mail, phone).Success?;
      assert [] + [phone] == [phone];
      assert c.Value() == Blank.(firstName := Trim(first), lastName := Trim(last), email := Trim(mail), phones := [phone]);
      return Success(c);
    }

    /** The body of the constructor: the first, last and e-mail setters in
        that order, then `addPhone`; the first setter that fails stops it,
        with the error `Construct` gives. */
    method Fill(first: string, last: string, mail: string, phone: PhoneNumber) returns (s: Status)
      requires Valid(phone)
      modifies this
      ensures Construct(first, last, mail, phone).Failure? ==>
        s == Failed(Construct(first, last, mail, phone).error)
      ensures Construct(first, last, mail, phone).Success? ==>
        s == Done
        && Value() == old(Value()).(firstName := Trim(first), lastName := Trim(last), email := Trim(mail),
                                    phones := old(phones) + [phone])
    {
      s := SetFirstName(first);
      if s.Failed? {
        return;
      }
      s := SetLastName(last);
      if s.Failed? {
        return;
      }
      s := SetEmail(mail);
      if s.Failed? {
        return;
      }
      AddPhone(phone);
    }

    /** `setFirstName`: the trimmed name, or `invalid_argument` and no change. */
    method SetFirstName(name: string) returns (s: Status)
      modifies this
      ensures NameValid(name) ==> s == Done && Value() == old(Value()).(firstName := Trim(name))
      ensures !NameValid(name) ==> s == Failed(InvalidArgument("Invalid first name")) && Value() == old(Value())
    {
      var ok := ValidateName(name);
      if !ok {
        return Failed(InvalidArgument("Invalid first name"));
      }
      firstName := Trim(name);
      return Done;
    }

    /** `setLastName`: the trimmed name, or `invalid_argument` and no change. */
    method SetLastName(name: string) returns (s: Status)
      modifies this
      ensures NameValid(name) ==> s == Done && Value() == old(Value()).(lastName := Trim(name))
      ensures !NameValid(name) ==> s == Failed(InvalidArgument("Invalid last name")) && Value() == old(Value())
    {
      var ok := ValidateName(name);
      if !ok {
        return Failed(InvalidArgument("Invalid last name"));
      }
      lastName := Trim(name);
      return Done;
    }

    /** `setMiddleName`: empty is allowed; anything else must be a valid
        name, so blanks alone are refused.  Stores the trimmed value. */
    method SetMiddleName(name: string) returns (s: Status)
      modifies this
      ensures name == [] || NameValid(name) ==> s == Done && Value() == old(Value()).(middleName := Trim(name))
      ensures name != [] && !NameValid(name) ==>
        s == Failed(InvalidArgument("Invalid middle name")) && Value() == old(Value())
    {
      if name != [] {
        var ok := ValidateName(name);
        if !ok {
          return Failed(InvalidArgument("Invalid middle name"));
        }
      }
      middleName := Trim(name);
      return Done;
    }

    /** `setAddress`: never fails, stores the trimmed value. */
    method SetAddress(addr: string)
      modifies this
      ensures Value() == old(Value()).(address := Trim(addr))
    {
      address := Trim(addr);
    }

    /** `setBirthDate`: empty or valid on `today`, stored as given;
        otherwise `invalid_argument` and no change. */
    method SetBirthDate(date: string, today: Date) returns (s: Status)
      modifies this
      ensures DateValid(date, today) ==> s == Done && Value() == old(Value()).(birthDate := date)
      ensures !DateValid(date, today) ==>
        s == Failed(InvalidArgument("Invalid birth date")) && Value() == old(Value())
    {
      if date != [] && !DateValid(date, today) {
        return Failed(InvalidArgument("Invalid birth date"));
      }
      birthDate := date;
      return Done;
    }

    /** `setEmail`: the trimmed address, or `invalid_argument` and no change. */
    method SetEmail(mail: string) returns (s: Status)
      modifies this
      ensures EmailValid(mail) ==> s == Done && Value() == old(Value()).(email := Trim(mail))
      ensures !EmailValid(mail) ==> s == Failed(InvalidArgument("Invalid email")) && Value() == old(Value())
    {
      var trimmed := Trim(mail);
      var ok := ValidateEmail(mail);
      if !ok {
        return Failed(InvalidArgument("Invalid email"));
      }
      email := trimmed;
      return Done;
    }

    /** `toString`: the head, then one `(type,number)` entry per phone. */
    method ToString() returns (text: string)
      ensures text == Serialize(Value())
    {
      text := firstName + ";" + lastName + ";" + middleName + ";" + address + ";"
              + birthDate + ";" + email + ";phones:";
      assert text == Head(Value());
      text := WritePhones(text, phones);
      SerializeShape(Value());
    }

    /** `addPhone`: appends at the end. */
    method AddPhone(phone: PhoneNumber)
      requires Valid(phone)
      modifies this
      ensures Value() == old(Value()).(phones := old(phones) + [phone])
    {
      phones := phones + [phone];
    }

    /** `removePhone(index)`: `out_of_range` and no change past the end;
        otherwise entry `index` goes and the rest keep their order. */
    method RemovePhone(index: nat) returns (s: Status)
      modifies this
      ensures index >= |old(phones)| ==>
        s == Failed(OutOfRange("Invalid phone index")) && Value() == old(Value())
      ensures index < |old(phones)| ==>
        s == Done && Value() == old(Value()).(phones := old(phones)[..index] + old(phones)[index + 1..])
    {
      if index >= |phones| {
        return Failed(OutOfRange("Invalid phone index"));
      }
      phones := phones[..index] + phones[index + 1..];
      return Done;
    }

    /** `Contact::fromString`, step by step as the source does it. */
    static method FromString(line: string, today: Date) returns (r: Result<Contact>)
      ensures r.Failure? ==> Parse(line, today) == Failure(r.error)
      ensures r.Success? ==> fresh(r.value) && Parse(line, today) == Success(r.value.Value())
    {
      var tokens := Tokenize(line);
      r := FromTokens(tokens, today);
    }

    /** `fromString` once the line is split: the six-token check, the
        constructor, then the remaining fields. */
    static method FromTokens(tokens: seq<string>, today: Date) returns (r: Result<Contact>)
      ensures r.Failure? ==> ParseTokens(tokens, today) == Failure(r.error)
      ensures r.Success? ==> fresh(r.value) && ParseTokens(tokens, today) == Success(r.value.Value())
    {
      if |tokens| < 6 {
        return Failure(InvalidArgument("Invalid contact string format"));
      }
      ParseTokensSteps(tokens, today);
      var created := Create(tokens[0], tokens[1], tokens[5], Placeholder());
      if created.Failure? {
        return Failure(created.error);
      }
      var c := created.value;
      var s := c.SetRest(tokens, today);
      if s.Failed? {
        return Failure(s.error);
      }
      return Success(c);
    }

    /** The middle name, address and birth date of tokens 2 to 4, then the
        phones of token 6; a refused middle name or date stops it there. */
    method SetRest(tokens: seq<string>, today: Date) returns (s: Status)
      requires |tokens| >= 6
      modifies this
      ensures !(tokens[2] == [] || NameValid(tokens[2])) ==>
        s == Failed(InvalidArgument("Invalid middle name")) && Value() == old(Value())
      ensures (tokens[2] == [] || NameValid(tokens[2])) && !DateValid(tokens[4], today) ==>
        s == Failed(InvalidArgument("Invalid birth date"))
        && Value() == old(Value()).(middleName := Trim(tokens[2]), address := Trim(tokens[3]))
      ensures (tokens[2] == [] || NameValid(tokens[2])) && DateValid(tokens[4], today) ==>
        s == Done && Value() == old(Value()).(middleName := Trim(tokens[2]), address := Trim(tokens[3]),
                                              birthDate := tokens[4], phones := TokenPhones(tokens))
    {
      s := SetMiddleName(tokens[2]);
      if s.Failed? {
        return;
      }
      SetAddress(tokens[3]);
      s := SetBirthDate(tokens[4], today);
      if s.Failed? {
        return;
      }
      SetTokenPhones(tokens);
    }

    /** The phones of `fromString`: none, or those read from token 6 when
        it starts with `phones:`. */
    method SetTokenPhones(tokens: seq<string>)
      modifies this
      ensures Value() == old(Value()).(phones := TokenPhones(tokens))
    {
      phones := [];
      if |tokens| > 6 && "phones:" <= tokens[6] {
        ReadPhones(tokens[6][7..], PhoneEntry);
      }
    }

    /** The scanning loop of `fromString`: every entry that `read` turns
        into a phone is appended with `addPhone`. */
    method ReadPhones(text: string, read: string -> Option<PhoneNumber>)
      requires forall d :: read(d).Some? ==> Valid(read(d).value)
      modifies this
      ensures Value() == old(Value()).(phones := old(phones) + ReadEach(read, Bracketed(text, 0)))
    {
      ghost var whole := old(phones) + ReadEach(read, Bracketed(text, 0));
      var pos: nat := 0;
      while pos < |text|
        invariant pos <= |text|
        invariant Value() == old(Value()).(phones := phones)
        invariant phones + ReadEach(read, Bracketed(text, pos)) == whole
        decreases |text| - pos
      {
        if text[pos] == '(' {
          var next := ReadBracket(text, read, pos);
          if next.None? {
            assert phones + [] == phones;
            break;
          }
          pos := next.value;
        } else {
          assert Bracketed(text, pos) == Bracketed(text, pos + 1);
          pos := pos + 1;
        }
      }
      assert Bracketed(text, pos) == [];
    }

    /** One pass of the scanning loop at a `(`: the position after the
        matching `)`, with the entry between them appended (the `push_back`
        of `addPhone`) when `read` turns it into a phone, or `None` and no
        change when no `)` follows. */
    method ReadBracket(text: string, read: string -> Option<PhoneNumber>, pos: nat) returns (next: Option<nat>)
      requires pos < |text| && text[pos] == '('
      modifies this
      ensures next.None? ==> Bracketed(text, pos) == [] && Value() == old(Value())
      ensures next.Some? ==> pos < next.value <= |text| && Value() == old(Value()).(phones := phones)
      ensures next.Some? ==>
        phones + ReadEach(read, Bracketed(text, next.value)) == old(phones) + ReadEach(read, Bracketed(text, pos))
    {
      var close := Find(text, ')', pos);
      if close.None? {
        BracketUnclosed(text, pos);
        return None;
      }
      var data := text[pos + 1..close.value];
      var entry := read(data);
      BracketStep(text, read, pos, close.value);
      ConcatAssoc(phones, Found(entry), ReadEach(read, Bracketed(text, close.value + 1)));
      phones := phones + Found(entry);
      next := Some(close.value + 1);
    }
  }

  /** A `(` with no `)` after it ends the scan. */
  lemma BracketUnclosed(text: string, pos: nat)
    requires pos < |text| && text[pos] == '(' && Find(text, ')', pos).None?
    ensures Bracketed(text, pos) == []
  {
  }

  lemma ConcatAssoc<T>(a: seq<T>, b: seq<T>, c: seq<T>)
    ensures (a + b) + c == a + (b + c)
  {
  }

  /** A `(` whose `)` is found contributes the text between them and then
      what follows the `)`. */
  lemma BracketStep(text: string, read: string -> Option<PhoneNumber>, pos: nat, close: nat)
    requires pos < |text| && text[pos] == '(' && Find(text, ')', pos) == Some(close)
    ensures pos < close < |text|
    ensures ReadEach(read, Bracketed(text, pos))
         == Found(read(text[pos + 1..close])) + ReadEach(read, Bracketed(text, close + 1))
  {
    var data := text[pos + 1..close];
    assert Bracketed(text, pos) == [data] + Bracketed(text, close + 1);
    ReadEachCons(read, data, Bracketed(text, close + 1));
  }

  /** The `getline(ss, token, ';')` loop of `fromString`: each pass takes
      the text up to the next `;` from what is left of the line. */
  method Tokenize(line: string) returns (tokens: seq<string>)
    ensures tokens == Split(line, ';')
  {
    tokens := [];
    var rest := line;
    while rest != []
      invariant tokens + Split(rest, ';') == Split(line, ';')
      decreases |rest|
    {
      var semi := Find(rest, ';', 0);
      if semi.None? {
        tokens := tokens + [rest];
        rest := [];
      } else {
        tokens := tokens + [rest[..semi.value]];
        rest := rest[semi.value + 1..];
      }
    }
  }
}
