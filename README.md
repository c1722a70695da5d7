# Phonebook core in Dafny

This project models the contact-validation and serialisation core of a
small C++ phonebook and proves properties of that model. It covers four
parts:

- **Validator** (`validator.cpp`): `trim`, `validateName`,
  `validateEmail`, `validatePhone` and `validateDate`, over CP-1251 byte
  strings. The letter class is ASCII A-Z and a-z, plus bytes 0xC0-0xFF,
  0xA8 and 0xB8.
- **PhoneNumber** (`phonenumber.cpp`): a type tag and a trimmed number that
  passes the phone rule. The constructor throws on any other number, so
  every `PhoneNumber` object satisfies `PhoneNumbers.Valid`. The model
  keeps that invariant as a precondition of everything that takes a phone
  from its caller: `Contacts.Construct`, `Contact.Create`, `Contact.Fill`,
  `Contact.AddPhone`, and the reader passed to `Contact.ReadPhones`. As a
  result, a `Contact` never holds an invalid phone.
- **Contact** (`tel5/contact.cpp`): a class whose setters re-validate each
  field. It has add and remove on its phone list, and the one-line
  `first;last;middle;address;birth;email;phones:(t,n)...` format written
  by `toString` and read by `fromString`.
- **PhoneBook** (`tel5/phonebook.cpp`): a class holding a sequence of
  contact values. It has add, remove, edit, search and sort-by-field, and
  the line logic of saving and loading.

Modules, one file each:

- `Errors` (`errors.dfy`): `Option`, `Result`, `Status`, and the three C++
  exception kinds with their messages.
- `StdString` (`stdstring.dfy`): the parts of the C++ standard library the
  code uses. These are `find` and `rfind`, `getline` splitting,
  `operator>>(int)` and `std::stoi` (a 32-bit range check included),
  `operator<<(int)`, `::tolower` and `std::string::operator<`.
- `Validator` (`validator.dfy`).
- `PhoneNumbers` (`phonenumber.dfy`).
- `ContactRecords` (`contactrecord.dfy`): the value a `Contact` holds and
  the invariant its setters keep.
- `Contacts` (`contact.dfy`).
- `PhoneBooks` (`phonebook.dfy`).

How the model is built:

- Code that changes state in place is proved against a function of the old
  state. This covers the setters, `addPhone`, `removePhone`, the loops of
  `validateName`, `validateEmail`, `validatePhone`, `toString` and
  `fromString`, and every `PhoneBook` operation.
- The functions carry the lemmas: trimming, the validation rules, the
  round trip `fromString(toString(c)) == c`, search membership and order,
  sortedness and permutation, and load after save.
- Today's date is a parameter wherever the source reads the clock.
- Save returns the lines it would write. Load takes the lines of the file,
  or `None` when the file cannot be opened.

Behaviours of the code worth noting:

- `PhoneNumber` stores the trimmed input as given (`+7 999 ...` remains as
  written). It does not store the normalised `8XXXXXXXXXX` digits.
- `validateDate` does not demand a fixed-width `YYYY-MM-DD`. It reads
  integers with `>>`, so leading white space, signs and unpadded fields
  are accepted, and text after the day is ignored.
- `sortByField` uses `std::sort`, which is not stable. The model therefore
  promises only a sorted permutation.
- When the file cannot be opened, `loadFromFile` leaves the book as it was.
  It does not empty it.
- A line needs only six `;`-separated tokens. A contact read from a line
  without `phones:` has no phones at all.
- `validateEmail` lets a second `@` through.

## Model

| member | source | states |
|---|---|---|
| Validator.Trim | validator.cpp:35-40 | the result is empty exactly when the input is only spaces and tabs; otherwise it has no space or tab at either end, it is the contiguous slice starting at the first non-blank, and only blanks follow it |
| Validator.TrimIdempotent | validator.cpp:35-40 | trimming twice gives the same as trimming once |
| Validator.TrimOfTrimmed | validator.cpp:35-40 | a string with no space or tab at either end is its own trim |
| Validator.ValidateName | validator.cpp:42-65 | the index loop returns true exactly when the trimmed name is non-empty, starts with a Latin or CP-1251 letter, holds only letters, digits, spaces and hyphens, does not end in a hyphen and has no two adjacent hyphens |
| Validator.NameValidOfTrim | validator.cpp:43 | whether a name is accepted depends only on its trimmed form |
| Validator.NameHasNoSemicolon | validator.cpp:49-56 | an accepted name, trimmed, holds no `;` |
| Validator.NameRejectsBlank | validator.cpp:43-44 | every string of only spaces and tabs, the empty one included, trims to nothing and is refused |
| Validator.NameRejectsLeadingHyphen | validator.cpp:47 | `-Ann` is refused: the first character must be a letter |
| Validator.NameRejectsDoubleHyphen | validator.cpp:60-61 | `Jo--e` is refused |
| Validator.NameAcceptsHyphenSpaceDigit | validator.cpp:49-64 | `Jo-e 2` is accepted |
| Validator.EraseSpacesBeforeAt | validator.cpp:75 | the first erase loop drops exactly the run of spaces before the `@` and moves the index back by its length |
| Validator.EraseSpacesAfterAt | validator.cpp:76 | the second erase loop drops exactly the run of spaces after the `@` |
| Validator.EraseSpacesAroundAt | validator.cpp:74-76 | both loops together give the address with the spaces next to that `@` removed, and the index still points at the `@` |
| Validator.AllEmailChars | validator.cpp:81-83 | the character loop returns true exactly when every character is alphanumeric, `@`, `.`, `_` or `-` |
| Validator.ValidateEmail | validator.cpp:67-85 | the method returns exactly the e-mail rule: trimmed input non-empty; first `@` neither first nor last; after the spaces around it are dropped, the last `.` is more than one place after the `@` and not last, and all characters are allowed |
| Validator.EmailValidOfTrim | validator.cpp:68 | whether an address is accepted depends only on its trimmed form |
| Validator.EmailHasInnerAt | validator.cpp:71-72 | an accepted address has an `@` that is neither the first nor the last character of its trimmed form |
| Validator.EmailChars | validator.cpp:74-83 | an accepted address, trimmed, holds only allowed characters and spaces, so no `;` |
| Validator.EmailWithoutSpaces | validator.cpp:71-84 | for a trimmed address without spaces, acceptance is exactly the `@` placement and the dot-and-characters test |
| Validator.EmailAcceptsSimple | validator.cpp:67-85 | `a@b.c` is accepted |
| Validator.EmailAcceptsSecondAt | validator.cpp:71-84 | `a@b@c.d` is accepted: a second `@` is not refused |
| Validator.EmailRejectsLeadingAt | validator.cpp:72 | `@b.c` is refused |
| Validator.EmailRejectsNoDot | validator.cpp:78-79 | `a@b` is refused |
| Validator.EmailAcceptsSpacesAroundAt | validator.cpp:74-76 | `a @ b.c` is accepted, because the spaces next to the `@` are dropped |
| Validator.Extracted | validator.cpp:91-95 | the digit buffer is no longer than the input and holds only digits, except possibly a `+` in first place |
| Validator.ExtractDigits | validator.cpp:91-95 | the buffer-building loop yields exactly the digits of the input, with a `+` kept only when it comes before any digit |
| Validator.ValidatePhone | validator.cpp:87-102 | the method returns exactly the phone rule on the trimmed input |
| Validator.PhoneValidIff | validator.cpp:97-101 | a number is accepted exactly when the normalised buffer has 11 characters and starts with `8`; the final all-digits test never decides |
| Validator.PhoneFormsAccepted | validator.cpp:97-100 | `8`, `7` or `+7` followed by ten digits is accepted |
| Validator.PlusWithoutSevenRejected | validator.cpp:94-100 | a buffer that starts with `+` not followed by `7` is refused |
| Validator.DaysIn | validator.cpp:113-114 | a month has 28 to 31 days, and February has 29 exactly in a Gregorian leap year |
| Validator.ValidateDateAsWritten | validator.cpp:104-129 | the source's check, with the function-static month table passed in and returned; the table keeps 13 entries |
| Validator.AsWrittenTableStates | validator.cpp:113-114 | the table only ever holds its initial contents or those with February set to 29 |
| Validator.AsWrittenAgreesWhileFresh | validator.cpp:104-129 | with the untouched table, the source's check equals the Gregorian rule |
| Validator.AsWrittenStoresLeapFebruary | validator.cpp:114 | checking a leap-year February date leaves February at 29 in the table |
| Validator.AsWrittenAfterLeapFebruary | validator.cpp:113-115 | once February is at 29, a date is accepted exactly when the Gregorian rule accepts it or it is 29 February of a common year that passes the other checks |
| Validator.StickyLeapFebruary | validator.cpp:113-115 | after any accepted 29 February of a leap year, an in-range 29 February of a common year is accepted, though the Gregorian rule refuses it |
| Validator.StickyLeapFebruaryExample | validator.cpp:113-115 | `2024-02-29` and then `2023-02-29`, with today in 2025 or later: the second is accepted, and the Gregorian rule refuses it |
| Validator.CommonLeapDayRefused | validator.cpp:111-115 | the Gregorian rule refuses 29 February of a common year |
| Validator.IsoDateParse | validator.cpp:109-110 | a `YYYY-MM-DD` string of digits reads as the decimal values of its three fields |
| Validator.IsoDateValid | validator.cpp:104-129 | a `YYYY-MM-DD` string is a valid birth date exactly when its year is 1900 or later, the month is 1-12, the day is within that month, and the date is strictly before today |
| Validator.DateRejectsTodayAndLater | validator.cpp:126 | today and every later date are refused |
| Validator.DateAcceptsLeapDay | validator.cpp:113-115 | `2024-02-29` is accepted when today is in 2025 or later |
| Validator.DateRejectsCommonLeapDay | validator.cpp:113-115 | `2023-02-29` is refused |
| Validator.DateRejectsThirtiethFebruary | validator.cpp:113-115 | `2024-02-30` is refused |
| Validator.DateRejectsBefore1900 | validator.cpp:111 | `1899-12-31` is refused |
| StdString.Split | tel5/contact.cpp:89-92 | the tokens of the `getline` loop: none exactly for an empty input, and no token holds the delimiter |
| StdString.SplitJoin | tel5/contact.cpp:67-92 | splitting a joined line gives back its fields when no field holds the delimiter and the last field is not empty |
| StdString.ScanIntOfIntToString | tel5/contact.cpp:77 | `stoi` reads back the decimal text that `operator<<` writes for every 32-bit integer |
| StdString.LexLessTransitive | tel5/phonebook.cpp:86-110 | `std::string::operator<` is transitive |
| StdString.LexLessTotal | tel5/phonebook.cpp:86-110 | of two different strings, one is smaller than the other |
| StdString.LexLessIrreflexive | tel5/phonebook.cpp:86-110 | no string is smaller than itself |
| PhoneNumbers.MakePhone | phonenumber.cpp:6-11 | construction succeeds exactly when the trimmed number passes the phone rule; it then keeps the type as given and the trimmed number, and otherwise fails with `invalid_argument("Invalid phone number")` |
| PhoneNumbers.MakePhoneOfValid | phonenumber.cpp:6-11 | constructing again from a constructed number gives the same number |
| PhoneNumbers.MakePhoneOfTrim | phonenumber.cpp:7 | blanks around the input make no difference to construction |
| PhoneNumbers.ValidNumberEnds | phonenumber.cpp:7-10 | a constructed number is non-empty and has no space or tab at either end |
| PhoneNumbers.StoredNumberNotNormalised | phonenumber.cpp:7 | `+7` and ten digits is stored with its `+7`, not rewritten to `8` |
| PhoneNumbers.PlaceholderValid | tel5/contact.cpp:99 | the placeholder `80000000000` of `fromString` is a valid number |
| ContactRecords.NameOkOfTrim | tel5/contact.cpp:17-22 | an accepted name, trimmed, is the stored form of a name |
| ContactRecords.MiddleOkOfTrim | tel5/contact.cpp:31-36 | an empty or accepted middle name, trimmed, is the stored form of a middle name |
| ContactRecords.EmailOkOfTrim | tel5/contact.cpp:49-54 | an accepted address, trimmed, is the stored form of an address |
| Contacts.SetFirstNameKeeps | tel5/contact.cpp:17-22 | storing an accepted first name keeps a contact well formed |
| Contacts.SetLastNameKeeps | tel5/contact.cpp:24-29 | storing an accepted last name keeps a contact well formed |
| Contacts.SetMiddleNameKeeps | tel5/contact.cpp:31-36 | storing an empty or accepted middle name keeps a contact well formed |
| Contacts.SetAddressKeeps | tel5/contact.cpp:38-40 | storing any trimmed address keeps a contact well formed |
| Contacts.SetEmailKeeps | tel5/contact.cpp:49-54 | storing an accepted address keeps a contact well formed |
| Contacts.AddPhoneKeeps | tel5/contact.cpp:56-58 | appending a constructed number keeps a contact well formed |
| Contacts.RemovePhoneKeeps | tel5/contact.cpp:60-65 | removing an existing entry keeps a contact well formed |
| Contacts.Construct | tel5/contact.cpp:8-15 | for a valid phone, the constructor succeeds exactly when first name, last name and e-mail are accepted; it then holds them trimmed, with empty middle name, address and birth date and the one phone; otherwise it fails with the error of the first failing setter, in the order first, last, e-mail |
| Contacts.ConstructWellFormed | tel5/contact.cpp:8-15 | a constructed contact with a constructed phone is well formed |
| Contacts.SerializeShape | tel5/contact.cpp:67-82 | the line is the six fields, each followed by `;`, then `phones:`, then one `(type,number)` per phone in order |
| Contacts.PhonesTextSnoc | tel5/contact.cpp:76-79 | one more phone adds its entry at the end of the phones text |
| Contacts.PhonesStep | tel5/contact.cpp:76-79 | one pass of the phone loop extends the text by exactly the next entry |
| Contacts.WriteEntry | tel5/contact.cpp:77-78 | one pass writes `(`, the decimal type, `,`, the number and `)` |
| Contacts.WritePhones | tel5/contact.cpp:76-79 | the loop appends the entries of all phones in list order |
| Contacts.PhoneEntry | tel5/contact.cpp:120-131 | an entry that is read yields a valid number |
| Contacts.ScanPhones | tel5/contact.cpp:112-140 | every phone the scan reads is valid |
| Contacts.ReadEachValid | tel5/contact.cpp:124-131 | a reader that yields only valid numbers reads only valid numbers |
| Contacts.ReadEachAll | tel5/contact.cpp:116-140 | texts that each read as their phone read as exactly those phones, in order |
| Contacts.TokenPhones | tel5/contact.cpp:108-141 | the phones of a line, all valid, read only when a seventh token starts with `phones:` |
| Contacts.ParseTokens | tel5/contact.cpp:94-143 | what `fromString` accepts is well formed, with a birth date valid on the given day |
| Contacts.ParseErrors | tel5/contact.cpp:94-105 | each refused line gets the error of the first check it fails, in the order: token count, first name, last name, e-mail, middle name, birth date |
| Contacts.ParseTokensAccepts | tel5/contact.cpp:94-108 | tokens are accepted exactly when there are at least six and tokens 0, 1, 5, 2 and 4 pass their checks; the fields are then the trimmed tokens, the birth date as given, and the phones of token 6 |
| Contacts.ParseAccepts | tel5/contact.cpp:84-108 | the same, for a whole line split at `;` |
| Contacts.ParseSerialize | tel5/contact.cpp:67-144 | `fromString(toString(c))` gives `c` back, for a well-formed contact with no `;` in its address or birth date, no `;` or `)` in its numbers, and a birth date valid on the same day |
| Contacts.ScanPhonesText | tel5/contact.cpp:112-140 | scanning the written phones text reads back the same phones in the same order |
| Contacts.BracketedText | tel5/contact.cpp:116-140 | the scan finds exactly the text inside each written entry |
| Contacts.EntryOfText | tel5/contact.cpp:120-128 | the text inside a written entry reads back as that phone |
| Contacts.WellFormedLacks | tel5/contact.cpp:17-54 | the stored names and e-mail of a well-formed contact hold no `;` |
| Contacts.Tokenize | tel5/contact.cpp:85-92 | the `getline` loop collects exactly the `;`-tokens of the line |
| Contacts.Contact.Create | tel5/contact.cpp:8-15 | for a valid phone, the constructor makes a new object whose value is `Construct` of the arguments, or fails with `Construct`'s error |
| Contacts.Contact.Fill | tel5/contact.cpp:10-15 | for a valid phone, the constructor body runs the setters in order and then `addPhone`; on success the object holds the trimmed first name, last name and e-mail, with the phone appended |
| Contacts.Contact.SetFirstName | tel5/contact.cpp:17-22 | an accepted name is stored trimmed; otherwise `invalid_argument("Invalid first name")`, and nothing changes |
| Contacts.Contact.SetLastName | tel5/contact.cpp:24-29 | an accepted name is stored trimmed; otherwise `invalid_argument("Invalid last name")`, and nothing changes |
| Contacts.Contact.SetMiddleName | tel5/contact.cpp:31-36 | an empty or accepted name is stored trimmed; otherwise `invalid_argument("Invalid middle name")`, and nothing changes |
| Contacts.Contact.SetAddress | tel5/contact.cpp:38-40 | never fails and stores the trimmed address; nothing else changes |
| Contacts.Contact.SetBirthDate | tel5/contact.cpp:42-47 | an empty or valid date is stored untrimmed; otherwise `invalid_argument("Invalid birth date")`, and nothing changes |
| Contacts.Contact.SetEmail | tel5/contact.cpp:49-54 | an accepted address is stored trimmed; otherwise `invalid_argument("Invalid email")`, and nothing changes |
| Contacts.Contact.AddPhone | tel5/contact.cpp:56-58 | takes only a valid phone, as every `PhoneNumber` is one; appends it at the end; everything else is unchanged |
| Contacts.Contact.RemovePhone | tel5/contact.cpp:60-65 | an index past the end gives `out_of_range("Invalid phone index")` with no change; otherwise exactly that entry goes and the rest keep their order |
| Contacts.Contact.ToString | tel5/contact.cpp:67-82 | the text written is the line format of the object's value |
| Contacts.Contact.FromString | tel5/contact.cpp:84-144 | a new object whose value is what `Parse` gives for the line, or `Parse`'s error |
| Contacts.Contact.FromTokens | tel5/contact.cpp:94-105 | fewer than six tokens is the format error; otherwise the constructor on tokens 0, 1 and 5, then the rest of the fields, with the result `ParseTokens` gives |
| Contacts.Contact.SetRest | tel5/contact.cpp:103-141 | middle name, address and birth date set in order, and the first refusal stops the rest; on success the phones are those of token 6 |
| Contacts.Contact.SetTokenPhones | tel5/contact.cpp:107-141 | the placeholder phone is cleared, then the phones of token 6 are read; nothing else changes |
| Contacts.Contact.ReadPhones | tel5/contact.cpp:114-140 | for a reader that yields only valid numbers, the `pos` scanning loop appends exactly the phones read from the bracketed texts, in order, stopping at a `(` with no `)` |
| Contacts.Contact.ReadBracket | tel5/contact.cpp:117-135 | one pass at a `(`: with no `)` after it, the scan ends and nothing changes; otherwise the entry between the brackets is appended when it reads as a phone, and the scan goes on after the `)` |
| Contacts.BracketStep | tel5/contact.cpp:118-133 | a `(` whose `)` is found contributes the text between them, then whatever follows the `)` |
| Contacts.BracketUnclosed | tel5/contact.cpp:118-136 | a `(` with no `)` after it ends the scan |
| Contacts.Placeholder | tel5/contact.cpp:99 | the placeholder phone passed to the constructor is a valid number of type `Work` |
| PhoneBooks.Filter | tel5/phonebook.cpp:59-77 | the kept contacts are no more than the book, and every one matches |
| PhoneBooks.FilterCount | tel5/phonebook.cpp:59-77 | each contact occurs in the result as often as in the book when it matches, and not at all when it does not |
| PhoneBooks.FilterConcat | tel5/phonebook.cpp:59-77 | the result keeps book order: filtering two stretches of the book gives the two results in sequence |
| PhoneBooks.SearchMembers | tel5/phonebook.cpp:50-79 | a contact is found exactly when the query is non-empty, the contact is in the book, and its lowered first name, last name or e-mail contains the lowered query |
| PhoneBooks.SearchIgnoresCase | tel5/phonebook.cpp:56-57 | lowering the query first changes nothing |
| PhoneBooks.KeyOfFieldNames | tel5/phonebook.cpp:82-113 | a sort field is recognised exactly when its lowered name is one of `name`, `firstname`, `first`, `last`, `lastname`, `surname`, `email`, `birthdate` or `date`; the case of the name makes no difference |
| PhoneBooks.Insert | tel5/phonebook.cpp:86-110 | inserting adds exactly the one contact |
| PhoneBooks.InsertSorted | tel5/phonebook.cpp:86-110 | inserting into a sorted sequence keeps it sorted |
| PhoneBooks.SortBy | tel5/phonebook.cpp:86-110 | the result is ascending by the key, byte-wise, and is a permutation of the book |
| PhoneBooks.SavedLines | tel5/phonebook.cpp:122-124 | one line per contact, in book order, each the contact's `toString` |
| PhoneBooks.LoadedLines | tel5/phonebook.cpp:135-144 | the book loaded has at most one contact per line |
| PhoneBooks.LoadStep | tel5/phonebook.cpp:135-144 | one pass of the load loop adds exactly what that line yields |
| PhoneBooks.LoadedFrom | tel5/phonebook.cpp:135-144 | every loaded contact was read from one of the lines |
| PhoneBooks.LoadedWellFormed | tel5/phonebook.cpp:135-144 | every loaded contact is well formed, with a birth date valid on the given day |
| PhoneBooks.LoadSavedLines | tel5/phonebook.cpp:116-147 | reading back the saved lines gives the contacts back when the reader inverts `toString` on each |
| PhoneBooks.LoadSaved | tel5/phonebook.cpp:116-147 | loading what was saved gives the book back, for contacts the line format can carry whose birth dates are still valid |
| PhoneBooks.SplitFileText | tel5/phonebook.cpp:122-137 | `getline` over the written file gives back the lines written, when no line holds a newline |
| PhoneBooks.RemovedShifts | tel5/phonebook.cpp:34-39 | erasing entry `index` keeps the earlier entries, shifts the later ones down by one, and removes exactly that contact |
| PhoneBooks.ReadLine | tel5/phonebook.cpp:135-141 | an empty line, and a line `fromString` throws on, add nothing; any other line adds its parsed contact |
| PhoneBooks.PhoneBook.constructor | tel5/phonebook.cpp:10-14 | a new book is empty |
| PhoneBooks.PhoneBook.AddContact | tel5/phonebook.cpp:29-31 | a copy of the contact is appended; earlier contacts are unchanged |
| PhoneBooks.PhoneBook.RemoveContact | tel5/phonebook.cpp:34-39 | an index past the end gives `out_of_range("Invalid index")` with no change; otherwise only that entry is erased |
| PhoneBooks.PhoneBook.EditContact | tel5/phonebook.cpp:42-47 | an index past the end gives `out_of_range("Invalid index")` with no change; otherwise only that entry is replaced |
| PhoneBooks.PhoneBook.Search | tel5/phonebook.cpp:50-79 | the loop returns the search result for the book, without changing it: nothing for an empty query |
| PhoneBooks.PhoneBook.SortByField | tel5/phonebook.cpp:81-114 | returns true exactly for a recognised field and leaves the book sorted by that key; otherwise returns false with no change; in both cases the result is a permutation of the book |
| PhoneBooks.PhoneBook.SaveToFile | tel5/phonebook.cpp:116-127 | a file that cannot be opened gives `runtime_error("Cannot open file for writing")`; otherwise one line per contact in book order |
| PhoneBooks.PhoneBook.LoadFromFile | tel5/phonebook.cpp:129-147 | a file that cannot be opened leaves the book unchanged; otherwise the book becomes the contacts of the non-empty lines that parse, in order |

## Left out

- File streams, the SQLite database and its synchronisation are left out. This covers `initializeDatabase`, `syncToDatabase`, `saveToDatabase`, `loadFromDatabase`, `clearAllContacts` and the destructor. Save returns its lines, and load takes the lines of the file or `None` for a file that cannot be opened.
- The Qt windows, the console program and the headers are left out. The headers hold only declarations and getters.
- The clock is not modelled. `time` and `localtime` become a `today` parameter.
- Locale-dependent `isalnum`, `isdigit` and `::tolower` are taken as their ASCII ("C" locale) versions, each `char` standing for one byte.
- `PhoneType` is kept as its underlying `int`, because `fromString` casts any `stoi` result to it.
- Contacts.Contact.SetBirthDate: it checks the date by the Gregorian rule (`Validator.DateValid`). It does not model the function-static month table that one call can overwrite for later calls. `Contacts.ParseTokens` and everything built on it does the same. The table is modelled only in `Validator.ValidateDateAsWritten`; see Findings.
- Contacts.Contact.Fill: when a setter throws, its contract gives the error but not the half-set object, because the C++ constructor discards that object.
- Contacts.Contact.ReadBracket: this one-pass step of `Contacts.Contact.ReadPhones` appends what the reader yields and does not itself require a valid reader. Its only caller, `ReadPhones`, does require one. A validity fact in the step's own proof makes that proof too expensive.
- Contacts.Contact.ReadPhones: the routine that reads one entry is a parameter. `fromString` passes `PhoneEntry`, a function that models `stoi` and the `PhoneNumber` constructor.
- Well-formedness is not a class invariant of `Contacts.Contact`. It is stated about the record by the `...Keeps` lemmas, `Contacts.ConstructWellFormed` and `Contacts.ParseTokens`.
- The book holds contact values, as `std::vector<Contact>` holds copies. Aliasing between a caller's `Contact` and the book cannot arise, and is not modelled.
- PhoneBooks.PhoneBook.SortByField: when keys are equal, the model does not fix the order `std::sort` leaves. The contract promises only a sorted permutation. `PhoneBooks.SortBy` is one such order.
- PhoneBooks.PhoneBook.LoadFromFile: it takes the file as lines already split at `\n`. `PhoneBooks.SplitFileText` connects the two forms for lines without a newline. A field holding `\n` is not otherwise considered.
- PhoneBooks.LoadSaved: the round trip assumes no `;` in addresses, birth dates or numbers, and no `)` in numbers. Other lines do not survive the format.

## Findings

| source | as written | input that shows it | evidently intended | confidence | as-written member | corrected member |
|---|---|---|---|---|---|---|
| validator.cpp:113-115 | `days` is a function-static table, and `days[2] = 29` is never undone, so every later call allows 29 February in any year | `validateDate("2024-02-29")` and then `validateDate("2023-02-29")` with today in 2025 or later: the second returns true | 29 February is valid only in leap years, on every call; the corrected rule refuses `2023-02-29` (`Validator.CommonLeapDayRefused`, `Validator.DateRejectsCommonLeapDay`) | not executed | Validator.StickyLeapFebruaryExample | Validator.DateValid |
