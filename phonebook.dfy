/** `PhoneBook` (tel5/phonebook.cpp): a vector of contacts addressed by
    index, with add, remove, edit, search, sort by a named field, and the
    line logic of saving to and loading from a text file.  The vector holds
    copies of `Contact` objects, so the book keeps their values. */
module PhoneBooks {
  import opened Errors
  import opened StdString
  import opened Validator
  import opened ContactRecords
  import opened Contacts

  // ---------------------------------------------------------------------
  // search
  // ---------------------------------------------------------------------

  /** The test of `search` for an already lowered query `q`: the lowered
      first name, last name or e-mail contains `q`. */
  predicate Matches(c: ContactRecord, q: string) {
    Contains(Lower(c.firstName), q) || Contains(Lower(c.lastName), q) || Contains(Lower(c.email), q)
  }

  /** The contacts of `cs` that match `q`, in book order. */
  function Filter(cs: seq<ContactRecord>, q: string): (rs: seq<ContactRecord>)
    ensures |rs| <= |cs|
    ensures forall i :: 0 <= i < |rs| ==> Matches(rs[i], q)
  {
    if cs == [] then []
    else Filter(cs[..|cs| - 1], q) + (if Matches(cs[|cs| - 1], q) then [cs[|cs| - 1]] else [])
  }

  /** What `search(query)` returns: nothing for an empty query, otherwise
      the contacts matching the lowered query. */
  function SearchResults(cs: seq<ContactRecord>, query: string): seq<ContactRecord> {
    if query == [] then [] else Filter(cs, Lower(query))
  }

  /** Each contact occurs in the result exactly as often as in the book
      when it matches, and not at all otherwise. */
  lemma {:induction false} FilterCount(cs: seq<ContactRecord>, q: string, x: ContactRecord)
    ensures multiset(Filter(cs, q))[x] == if Matches(x, q) then multiset(cs)[x] else 0
    decreases |cs|
  {
    if cs != [] {
      var init, last := cs[..|cs| - 1], cs[|cs| - 1];
      assert cs == init + [last];
      FilterCount(init, q, x);
    }
  }

  /** Filtering keeps the order: the result for two stretches of the book
      is the result for the first followed by the result for the second. */
  lemma {:induction false} FilterConcat(a: seq<ContactRecord>, b: seq<ContactRecord>, q: string)
    ensures Filter(a + b, q) == Filter(a, q) + Filter(b, q)
    decreases |b|
  {
    if b == [] {
      assert a + b == a;
    } else {
      var init, last := b[..|b| - 1], b[|b| - 1];
      assert (a + b)[..|a + b| - 1] == a + init;
      assert (a + b)[|a + b| - 1] == last;
      FilterConcat(a, init, q);
    }
  }

  /** A contact is found exactly when the query is not empty, the contact
      is in the book and it matches the lowered query. */
  lemma SearchMembers(cs: seq<ContactRecord>, query: string, x: ContactRecord)
    ensures x in SearchResults(cs, query) <==> query != [] && x in cs && Matches(x, Lower(query))
  {
    if query != [] {
      FilterCount(cs, Lower(query), x);
      assert x in Filter(cs, Lower(query)) <==> multiset(Filter(cs, Lower(query)))[x] > 0;
      assert x in cs <==> multiset(cs)[x] > 0;
    }
  }

  /** The case of the query makes no difference. */
  lemma SearchIgnoresCase(cs: seq<ContactRecord>, query: string)
    ensures SearchResults(cs, Lower(query)) == SearchResults(cs, query)
  {
    LowerIdempotent(query);
  }

  lemma LowerIdempotent(s: string)
    ensures Lower(Lower(s)) == Lower(s)
  {
    var l := Lower(s);
    forall i | 0 <= i < |s| ensures Lower(l)[i] == l[i] {
      assert l[i] == ToLower(s[i]);
    }
  }

  // ---------------------------------------------------------------------
  // sortByField
  // ---------------------------------------------------------------------

  /** The four fields `sortByField` can order by. */
  datatype SortKey = ByFirstName | ByLastName | ByEmail | ByBirthDate

  /** The field name, lowered, picks the key; any other name picks none. */
  function KeyOfField(field: string): Option<SortKey> {
    var f := Lower(field);
    if f == "name" || f == "firstname" || f == "first" then Some(ByFirstName)
    else if f == "last" || f == "lastname" || f == "surname" then Some(ByLastName)
    else if f == "email" then Some(ByEmail)
    else if f == "birthdate" || f == "date" then Some(ByBirthDate)
    else None
  }

  /** The names `sortByField` accepts are exactly the nine lower-cased
      words, in any mix of cases. */
  lemma KeyOfFieldNames(field: string)
    ensures KeyOfField(field).Some? <==>
      Lower(field) in {"name", "firstname", "first", "last", "lastname", "surname", "email", "birthdate", "date"}
    ensures KeyOfField(Lower(field)) == KeyOfField(field)
  {
    LowerIdempotent(field);
  }

  /** The value a contact is compared on. */
  function Key(c: ContactRecord, k: SortKey): string {
    match k
    case ByFirstName => c.firstName
    case ByLastName => c.lastName
    case ByEmail => c.email
    case ByBirthDate => c.birthDate
  }

  /** `a` may come before `b`: `b`'s key is not smaller than `a`'s. */
  predicate KeyLe(a: ContactRecord, b: ContactRecord, k: SortKey) {
    !LexLess(Key(b, k), Key(a, k))
  }

  /** Ascending by the key, byte-wise, between every two positions. */
  predicate SortedBy(cs: seq<ContactRecord>, k: SortKey) {
    forall i, j :: 0 <= i < j < |cs| ==> KeyLe(cs[i], cs[j], k)
  }

  predicate LeAll(x: ContactRecord, cs: seq<ContactRecord>, k: SortKey) {
    forall i :: 0 <= i < |cs| ==> KeyLe(x, cs[i], k)
  }

  /** `x` placed before the first contact whose key is greater. */
  function Insert(x: ContactRecord, cs: seq<ContactRecord>, k: SortKey): (r: seq<ContactRecord>)
    ensures multiset(r) == multiset(cs) + multiset{x}
  {
    if cs == [] || LexLess(Key(x, k), Key(cs[0], k)) then [x] + cs
    else
      assert cs == [cs[0]] + cs[1..];
      [cs[0]] + Insert(x, cs[1..], k)
  }

  /** An ordering of `cs` ascending by the key: one of the orders
      `std::sort` may leave, since it promises nothing about equal keys. */
  function SortBy(cs: seq<ContactRecord>, k: SortKey): (r: seq<ContactRecord>)
    ensures SortedBy(r, k)
    ensures multiset(r) == multiset(cs)
  {
    if cs == [] then []
    else
      var rest := SortBy(cs[1..], k);
      InsertSorted(cs[0], rest, k);
      assert cs == [cs[0]] + cs[1..];
      Insert(cs[0], rest, k)
  }

  lemma LexLessAsymmetric(a: string, b: string)
    requires LexLess(a, b)
    ensures !LexLess(b, a)
  {
    if LexLess(b, a) {
      LexLessTransitive(a, b, a);
      LexLessIrreflexive(a);
    }
  }

  /** Inserting into a sorted sequence keeps it sorted. */
  lemma {:induction false} InsertSorted(x: ContactRecord, cs: seq<ContactRecord>, k: SortKey)
    requires SortedBy(cs, k)
    ensures SortedBy(Insert(x, cs, k), k)
    decreases |cs|
  {
    if cs == [] {
    } else if LexLess(Key(x, k), Key(cs[0], k)) {
      forall i | 0 <= i < |cs| ensures KeyLe(x, cs[i], k) {
        if i == 0 {
          LexLessAsymmetric(Key(x, k), Key(cs[0], k));
        } else {
          assert KeyLe(cs[0], cs[i], k);
          if LexLess(Key(cs[i], k), Key(x, k)) {
            LexLessTransitive(Key(cs[i], k), Key(x, k), Key(cs[0], k));
          }
        }
      }
      SortedCons(x, cs, k);
    } else {
      var c, tail := cs[0], cs[1..];
      SortedTail(cs, k);
      InsertSorted(x, tail, k);
      LeAllInsert(c, x, tail, k);
      SortedCons(c, Insert(x, tail, k), k);
    }
  }

  lemma SortedTail(cs: seq<ContactRecord>, k: SortKey)
    requires cs != [] && SortedBy(cs, k)
    ensures SortedBy(cs[1..], k) && LeAll(cs[0], cs[1..], k)
  {
    var tail := cs[1..];
    forall i, j | 0 <= i < j < |tail| ensures KeyLe(tail[i], tail[j], k) {
      assert tail[i] == cs[i + 1] && tail[j] == cs[j + 1];
    }
    forall i | 0 <= i < |tail| ensures KeyLe(cs[0], tail[i], k) {
      assert tail[i] == cs[i + 1];
    }
  }

  lemma SortedCons(x: ContactRecord, cs: seq<ContactRecord>, k: SortKey)
    requires LeAll(x, cs, k) && SortedBy(cs, k)
    ensures SortedBy([x] + cs, k)
  {
    var r := [x] + cs;
    forall i, j | 0 <= i < j < |r| ensures KeyLe(r[i], r[j], k) {
      assert r[j] == cs[j - 1];
      if i > 0 {
        assert r[i] == cs[i - 1];
      }
    }
  }

  /** A contact not after `x` nor after anything in `cs` is not after
      anything in `cs` with `x` inserted. */
  lemma LeAllInsert(y: ContactRecord, x: ContactRecord, cs: seq<ContactRecord>, k: SortKey)
    requires LeAll(y, cs, k) && KeyLe(y, x, k)
    ensures LeAll(y, Insert(x, cs, k), k)
  {
    var r := Insert(x, cs, k);
    forall i | 0 <= i < |r| ensures KeyLe(y, r[i], k) {
      assert r[i] in multiset(r);
      if r[i] != x {
        assert r[i] in multiset(cs);
        var m :| 0 <= m < |cs| && cs[m] == r[i];
      }
    }
  }

  // ---------------------------------------------------------------------
  // saveToFile / loadFromFile, over the lines of the file
  // ---------------------------------------------------------------------

  /** The lines `saveToFile` writes: one `toString()` per contact, in book
      order. */
  function SavedLines(cs: seq<ContactRecord>): (lines: seq<string>)
    ensures |lines| == |cs|
    ensures forall i :: 0 <= i < |cs| ==> lines[i] == Serialize(cs[i])
  {
    if cs == [] then [] else SavedLines(cs[..|cs| - 1]) + [Serialize(cs[|cs| - 1])]
  }

  /** How `loadFromFile` reads one line: `Contact::fromString` on the
      date `today`. */
  function Reader(today: Date): string -> Result<ContactRecord> {
    line => Parse(line, today)
  }

  /** What one line adds to the book: nothing when it is empty or `read`
      throws on it, otherwise the contact read. */
  function LoadedLine(read: string -> Result<ContactRecord>, line: string): seq<ContactRecord> {
    if line == [] then []
    else match read(line)
      case Success(c) => [c]
      case Failure(_) => []
  }

  /** The book `loadFromFile` builds from the lines of the file. */
  function LoadedLines(read: string -> Result<ContactRecord>, lines: seq<string>): (cs: seq<ContactRecord>)
    ensures |cs| <= |lines|
  {
    if lines == [] then []
    else LoadedLines(read, lines[..|lines| - 1]) + LoadedLine(read, lines[|lines| - 1])
  }

  lemma InitLast<T>(s: seq<T>)
    requires s != []
    ensures s[..|s| - 1] + [s[|s| - 1]] == s
  {
  }

  lemma LoadedSnoc(read: string -> Result<ContactRecord>, lines: seq<string>, line: string)
    ensures LoadedLines(read, lines + [line]) == LoadedLines(read, lines) + LoadedLine(read, line)
  {
    assert (lines + [line])[..|lines|] == lines;
  }

  /** One pass of the loading loop: the book so far, then what line `i`
      adds. */
  lemma LoadStep(read: string -> Result<ContactRecord>, lines: seq<string>, i: nat,
                 cs: seq<ContactRecord>, found: seq<ContactRecord>)
    requires i < |lines| && cs == LoadedLines(read, lines[..i]) && found == LoadedLine(read, lines[i])
    ensures cs + found == LoadedLines(read, lines[..i + 1])
  {
    assert lines[..i + 1][..i] == lines[..i];
  }

  /** Every contact loaded was read from one of the lines. */
  lemma {:induction false} LoadedFrom(read: string -> Result<ContactRecord>, lines: seq<string>, c: ContactRecord)
    requires c in LoadedLines(read, lines)
    ensures exists j :: 0 <= j < |lines| && read(lines[j]) == Success(c)
    decreases |lines|
  {
    var init, last := lines[..|lines| - 1], lines[|lines| - 1];
    if c in LoadedLines(read, init) {
      LoadedFrom(read, init, c);
      var j :| 0 <= j < |init| && read(init[j]) == Success(c);
      assert init[j] == lines[j];
    } else {
      assert read(lines[|lines| - 1]) == Success(c);
    }
  }

  /** Every contact loaded is well formed, with a birth date valid on
      `today`. */
  lemma LoadedWellFormed(lines: seq<string>, today: Date, c: ContactRecord)
    requires c in LoadedLines(Reader(today), lines)
    ensures WellFormed(c) && DateValid(c.birthDate, today)
  {
    LoadedFrom(Reader(today), lines, c);
    var j :| 0 <= j < |lines| && Reader(today)(lines[j]) == Success(c);
    assert ParseTokens(Split(lines[j], ';'), today) == Success(c);
  }

  /** Reading back the saved lines gives the contacts back when `read`
      inverts `toString` on each of them. */
  lemma {:induction false} LoadSavedLines(read: string -> Result<ContactRecord>, cs: seq<ContactRecord>)
    requires forall i :: 0 <= i < |cs| ==> read(Serialize(cs[i])) == Success(cs[i])
    ensures LoadedLines(read, SavedLines(cs)) == cs
    decreases |cs|
  {
    if cs != [] {
      var init, last := cs[..|cs| - 1], cs[|cs| - 1];
      assert forall i :: 0 <= i < |init| ==> init[i] == cs[i];
      LoadSavedLines(read, init);
      LoadedSnoc(read, SavedLines(init), Serialize(last));
      SerializeNotEmpty(last);
      InitLast(cs);
    }
  }

  /** Loading what was saved gives the book back, for contacts the line
      format can carry whose birth dates are still valid. */
  lemma LoadSaved(cs: seq<ContactRecord>, today: Date)
    requires forall i :: 0 <= i < |cs| ==> WellFormed(cs[i]) && Serializable(cs[i])
    requires forall i :: 0 <= i < |cs| ==> DateValid(cs[i].birthDate, today)
    ensures LoadedLines(Reader(today), SavedLines(cs)) == cs
  {
    forall i | 0 <= i < |cs| ensures Reader(today)(Serialize(cs[i])) == Success(cs[i]) {
      ParseSerialize(cs[i], today);
    }
    LoadSavedLines(Reader(today), cs);
  }

  lemma SerializeNotEmpty(c: ContactRecord)
    ensures Serialize(c) != []
  {
    SerializeShape(c);
    assert |Head(c)| >= 8;
  }

  /** The text of the file: each line followed by a newline. */
  function FileText(lines: seq<string>): string {
    if lines == [] then [] else lines[0] + "\n" + FileText(lines[1..])
  }

  /** `getline` over the file gives back the lines written to it, when no
      line holds a newline of its own. */
  lemma {:induction false} SplitFileText(lines: seq<string>)
    requires forall i :: 0 <= i < |lines| ==> Lacks(lines[i], '\n')
    ensures Split(FileText(lines), '\n') == lines
    decreases |lines|
  {
    if lines != [] {
      var rest := lines[1..];
      forall i | 0 <= i < |rest| ensures Lacks(rest[i], '\n') {
        assert rest[i] == lines[i + 1];
      }
      SplitFileText(rest);
      SplitFirst(lines[0], '\n', FileText(rest));
      assert [lines[0]] + rest == lines;
    }
  }

  // ---------------------------------------------------------------------
  // The book
  // ---------------------------------------------------------------------

  /** Removing entry `index` shifts the later entries down by one and
      keeps everything else. */
  lemma RemovedShifts(cs: seq<ContactRecord>, index: nat)
    requires index < |cs|
    ensures var r := cs[..index] + cs[index + 1..];
      && |r| == |cs| - 1
      && (forall i :: 0 <= i < index ==> r[i] == cs[i])
      && (forall i :: index <= i < |r| ==> r[i] == cs[i + 1])
      && multiset(r) + multiset{cs[index]} == multiset(cs)
  {
    assert cs == cs[..index] + [cs[index]] + cs[index + 1..];
  }

  /** One pass of the `getline` loop of `loadFromFile`: an empty line is
      skipped, otherwise `Contact::fromString` is tried and a line it throws
      on is skipped. */
  method ReadLine(line: string, today: Date) returns (found: seq<ContactRecord>)
    ensures found == LoadedLine(Reader(today), line)
  {
    found := [];
    if line == [] {
      return;
    }
    var r := Contact.FromString(line, today);
    if r.Success? {
      found := [r.value.Value()];
    }
  }

  class PhoneBook {
    var contacts: seq<ContactRecord>

    /** A new book is empty (the database it opens is not part of this
        model). */
    constructor ()
      ensures contacts == []
    {
      contacts := [];
    }

    /** `addContact`: a copy of the contact goes at the end. */
    method AddContact(contact: Contact)
      modifies this
      ensures contacts == old(contacts) + [contact.Value()]
    {
      contacts := contacts + [contact.Value()];
    }

    /** `removeContact`: `out_of_range` and no change past the end,
        otherwise entry `index` is erased. */
    method RemoveContact(index: nat) returns (s: Status)
      modifies this
      ensures index >= |old(contacts)| ==> s == Failed(OutOfRange("Invalid index")) && contacts == old(contacts)
      ensures index < |old(contacts)| ==>
        s == Done && contacts == old(contacts)[..index] + old(contacts)[index + 1..]
    {
      if index >= |contacts| {
        return Failed(OutOfRange("Invalid index"));
      }
      contacts := contacts[..index] + contacts[index + 1..];
      return Done;
    }

    /** `editContact`: `out_of_range` and no change past the end,
        otherwise entry `index` becomes a copy of the contact. */
    method EditContact(index: nat, contact: Contact) returns (s: Status)
      modifies this
      ensures index >= |old(contacts)| ==> s == Failed(OutOfRange("Invalid index")) && contacts == old(contacts)
      ensures index < |old(contacts)| ==> s == Done && contacts == old(contacts)[index := contact.Value()]
    {
      if index >= |contacts| {
        return Failed(OutOfRange("Invalid index"));
      }
      contacts := contacts[index := contact.Value()];
      return Done;
    }

    /** `search`: the loop over the book that keeps every contact whose
        lowered first name, last name or e-mail contains the lowered query. */
    method Search(query: string) returns (results: seq<ContactRecord>)
      ensures results == SearchResults(contacts, query)
    {
      results := [];
      if query == [] {
        return;
      }
      var q := Lower(query);
      var i := 0;
      while i < |contacts|
        invariant i <= |contacts|
        invariant results == Filter(contacts[..i], q)
      {
        var c := contacts[i];
        assert contacts[..i + 1][..i] == contacts[..i];
        if Contains(Lower(c.firstName), q) || Contains(Lower(c.lastName), q) || Contains(Lower(c.email), q) {
          results := results + [c];
        }
        i := i + 1;
      }
      assert contacts[..i] == contacts;
    }

    /** `sortByField`: `true` and the book in ascending order of the named
        field for a known name, `false` and no change otherwise. */
    method SortByField(field: string) returns (ok: bool)
      modifies this
      ensures ok <==> KeyOfField(field).Some?
      ensures !ok ==> contacts == old(contacts)
      ensures ok ==> SortedBy(contacts, KeyOfField(field).value)
      ensures multiset(contacts) == multiset(old(contacts))
    {
      var key := KeyOfField(field);
      if key.None? {
        return false;
      }
      contacts := SortBy(contacts, key.value);
      return true;
    }

    /** `saveToFile`: `runtime_error` when the file cannot be opened,
        otherwise the lines written, one per contact. */
    method SaveToFile(isOpen: bool) returns (r: Result<seq<string>>)
      ensures !isOpen ==> r == Failure(RuntimeError("Cannot open file for writing"))
      ensures isOpen ==> r == Success(SavedLines(contacts))
    {
      if !isOpen {
        return Failure(RuntimeError("Cannot open file for writing"));
      }
      var lines := [];
      var i := 0;
      while i < |contacts|
        invariant i <= |contacts|
        invariant lines == SavedLines(contacts[..i])
      {
        assert contacts[..i + 1][..i] == contacts[..i];
        lines := lines + [Serialize(contacts[i])];
        i := i + 1;
      }
      assert contacts[..i] == contacts;
      return Success(lines);
    }

    /** `loadFromFile`: no change when the file cannot be opened (`None`);
        otherwise the book is cleared and each non-empty line that
        `fromString` accepts is appended, the rest skipped. */
    method LoadFromFile(file: Option<seq<string>>, today: Date)
      modifies this
      ensures file.None? ==> contacts == old(contacts)
      ensures file.Some? ==> contacts == LoadedLines(Reader(today), file.value)
    {
      if file.None? {
        return;
      }
      var lines := file.value;
      contacts := [];
      for i := 0 to |lines|
        invariant contacts == LoadedLines(Reader(today), lines[..i])
      {
        var found := ReadLine(lines[i], today);
        LoadStep(Reader(today), lines, i, contacts, found);
        contacts := contacts + found;
      }
      assert lines[..|lines|] == lines;
    }
  }
}
