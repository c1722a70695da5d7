/** Field validation for the phonebook: trimming, the name, e-mail, phone
    and birth-date rules (validator.cpp).  Text is a byte string in the
    CP-1251 code page; a `char` stands for one byte. */
module Validator {
  import opened Errors
  import opened StdString

  // ---------------------------------------------------------------------
  // Character classes
  // ---------------------------------------------------------------------

  /** CP-1251 Cyrillic letters: 0xC0-0xDF, 0xE0-0xFF, and 0xA8, 0xB8. */
  predicate IsRussianLetter(c: char) {
    (0xC0 <= c as int <= 0xDF) || (0xE0 <= c as int <= 0xFF) || c as int == 0xA8 || c as int == 0xB8
  }

  predicate IsLatinLetter(c: char) { 'A' <= c <= 'Z' || 'a' <= c <= 'z' }

  predicate IsLetter(c: char) { IsLatinLetter(c) || IsRussianLetter(c) }

  /** What `trim` strips: only space and tab. */
  predicate IsBlank(c: char) { c == ' ' || c == '\t' }

  // ---------------------------------------------------------------------
  // trim
  // ---------------------------------------------------------------------

  /** `find_first_not_of(" \t")`, or `|s|` when there is none. */
  function TrimStart(s: string): (i: nat)
    ensures i <= |s|
    ensures forall k :: 0 <= k < i ==> IsBlank(s[k])
    ensures i < |s| ==> !IsBlank(s[i])
    decreases |s|
  {
    if s == [] || !IsBlank(s[0]) then 0 else 1 + TrimStart(s[1..])
  }

  /** One past `find_last_not_of(" \t")`, or 0 when there is none. */
  function TrimEnd(s: string): (j: nat)
    ensures j <= |s|
    ensures forall k :: j <= k < |s| ==> IsBlank(s[k])
    ensures j > 0 ==> !IsBlank(s[j - 1])
    decreases |s|
  {
    if s == [] || !IsBlank(s[|s| - 1]) then |s| else TrimEnd(s[..|s| - 1])
  }

  /** `Validator::trim`: `s` without its leading and trailing spaces and tabs. */
  function Trim(s: string): (r: string)
    ensures r == [] <==> forall k :: 0 <= k < |s| ==> IsBlank(s[k])
    ensures r != [] ==> !IsBlank(r[0]) && !IsBlank(r[|r| - 1])
    ensures TrimStart(s) + |r| <= |s| && r == s[TrimStart(s)..TrimStart(s) + |r|]
    ensures forall k :: TrimStart(s) + |r| <= k < |s| ==> IsBlank(s[k])
  {
    var i := TrimStart(s);
    if i == |s| then [] else s[i..TrimEnd(s)]
  }

  /** A string with no blank at either end is its own trim. */
  lemma TrimOfTrimmed(s: string)
    requires s == [] || (!IsBlank(s[0]) && !IsBlank(s[|s| - 1]))
    ensures Trim(s) == s
  {
    if s != [] {
      assert TrimStart(s) == 0 && TrimEnd(s) == |s|;
      assert s[0..|s|] == s;
    }
  }

  lemma TrimIdempotent(s: string)
    ensures Trim(Trim(s)) == Trim(s)
  {
    TrimOfTrimmed(Trim(s));
  }

  // ---------------------------------------------------------------------
  // validateName
  // ---------------------------------------------------------------------

  /** The characters a name may contain. */
  predicate NameChar(c: char) { IsLetter(c) || IsDigit(c) || c == ' ' || c == '-' }

  /** The name rule: after trimming, not empty, starts with a letter, holds
      only letters, digits, spaces and hyphens, does not end in a hyphen and
      has no two hyphens in a row. */
  predicate NameValid(name: string) {
    var t := Trim(name);
    && t != []
    && IsLetter(t[0])
    && (forall i :: 0 <= i < |t| ==> NameChar(t[i]))
    && t[|t| - 1] != '-'
    && (forall i :: 0 < i < |t| ==> t[i] == '-' ==> t[i - 1] != '-')
  }

  /** `Validator::validateName`: the index loop of the source. */
  method ValidateName(name: string) returns (ok: bool)
    ensures ok == NameValid(name)
  {
    var t := Trim(name);
    if t == [] {
      return false;
    }
    if !IsLetter(t[0]) {
      return false;
    }
    var i := 0;
    while i < |t|
      invariant 0 <= i <= |t|
      invariant forall k :: 0 <= k < i ==> NameChar(t[k])
      invariant forall k :: 0 <= k < i ==> t[k] == '-' ==> k != |t| - 1
      invariant forall k :: 0 < k < i ==> t[k] == '-' ==> t[k - 1] != '-'
    {
      var c := t[i];
      if !IsLetter(c) && !IsDigit(c) && c != ' ' && c != '-' {
        return false;
      }
      if c == '-' && (i == 0 || i == |t| - 1) {
        return false;
      }
      if c == '-' && i > 0 && t[i - 1] == '-' {
        return false;
      }
      i := i + 1;
    }
    return true;
  }

  /** Whether a name is accepted depends only on its trimmed form. */
  lemma NameValidOfTrim(name: string)
    ensures NameValid(Trim(name)) == NameValid(name)
  {
    TrimIdempotent(name);
  }

  /** An accepted name, once trimmed, holds no `;` (the field separator of
      the contact line format). */
  lemma NameHasNoSemicolon(name: string)
    requires NameValid(name)
    ensures Lacks(Trim(name), ';')
  {
    var t := Trim(name);
    forall k | 0 <= k < |t| ensures t[k] != ';' {
      assert NameChar(t[k]);
    }
  }

  /** A name of only spaces and tabs, the empty one included, trims to
      nothing and is refused. */
  lemma NameRejectsBlank(name: string)
    requires forall k :: 0 <= k < |name| ==> IsBlank(name[k])
    ensures Trim(name) == [] && !NameValid(name)
  {
  }

  lemma NameRejectsLeadingHyphen()
    ensures !NameValid("-Ann")
  {
    TrimOfTrimmed("-Ann");
  }

  lemma NameRejectsDoubleHyphen()
    ensures !NameValid("Jo--e")
  {
    TrimOfTrimmed("Jo--e");
    assert "Jo--e"[3] == '-' && "Jo--e"[2] == '-';
  }

  lemma NameAcceptsHyphenSpaceDigit()
    ensures NameValid("Jo-e 2")
  {
    TrimOfTrimmed("Jo-e 2");
  }

  // ---------------------------------------------------------------------
  // validateEmail
  // ---------------------------------------------------------------------

  /** The characters an address may hold once the spaces next to `@` are gone. */
  predicate EmailChar(c: char) { IsAlnum(c) || c == '@' || c == '.' || c == '_' || c == '-' }

  /** `s` without the run of spaces (not tabs) at its end. */
  function DropTrailingSpaces(s: string): (r: string)
    ensures |r| <= |s| && r == s[..|r|]
    ensures forall k :: |r| <= k < |s| ==> s[k] == ' '
    ensures r == [] || r[|r| - 1] != ' '
    decreases |s|
  {
    if s != [] && s[|s| - 1] == ' ' then DropTrailingSpaces(s[..|s| - 1]) else s
  }

  /** `s` without the run of spaces (not tabs) at its start. */
  function DropLeadingSpaces(s: string): (r: string)
    ensures |r| <= |s| && r == s[|s| - |r|..]
    ensures forall k :: 0 <= k < |s| - |r| ==> s[k] == ' '
    ensures r == [] || r[0] != ' '
    decreases |s|
  {
    if s != [] && s[0] == ' ' then DropLeadingSpaces(s[1..]) else s
  }

  /** The trimmed address with the spaces directly before and after the
      `@` at index `at` dropped. */
  function StripAroundAt(t: string, at: nat): (u: string)
    requires at < |t|
  {
    DropTrailingSpaces(t[..at]) + ['@'] + DropLeadingSpaces(t[at + 1..])
  }

  /** The checks made after the spaces are dropped, `at` being the index of
      the `@` in `u`: the last `.` lies more than one place after it and is
      not last, and every character is an address character. */
  predicate DotAndCharsOk(u: string, at: nat) {
    match RFind(u, '.')
    case None => false
    case Some(dot) =>
      && at + 1 < dot < |u| - 1
      && forall i :: 0 <= i < |u| ==> EmailChar(u[i])
  }

  /** The e-mail rule (an ad-hoc check, not RFC 5322).  On the trimmed input:
      the first `@` is neither first nor last; the spaces directly before and
      after it are dropped; in what remains the last `.` lies more than one
      place after the `@` and is not last, and every character is a letter,
      digit, `@`, `.`, `_` or `-`.  A second `@` is not rejected. */
  predicate EmailValid(email: string) {
    TrimmedEmailValid(Trim(email))
  }

  /** The e-mail rule on an already trimmed address. */
  predicate TrimmedEmailValid(t: string) {
    match Find(t, '@', 0)
    case None => false
    case Some(at) =>
      && at != 0
      && at != |t| - 1
      && DotAndCharsOk(StripAroundAt(t, at), |DropTrailingSpaces(t[..at])|)
  }

  /** The first erase loop of `validateEmail`: drop the spaces directly
      before the `@` at index `at0`, moving the index back with them. */
  method EraseSpacesBeforeAt(t0: string, at0: nat) returns (t: string, at: nat)
    requires at0 < |t0| && t0[at0] == '@'
    ensures at == |DropTrailingSpaces(t0[..at0])|
    ensures t == DropTrailingSpaces(t0[..at0]) + t0[at0..]
  {
    t, at := t0, at0;
    while at > 0 && t[at - 1] == ' '
      invariant at <= at0
      invariant t == t0[..at] + t0[at0..]
      invariant DropTrailingSpaces(t0[..at]) == DropTrailingSpaces(t0[..at0])
      decreases at
    {
      assert t0[..at][..at - 1] == t0[..at - 1];
      t := t[..at - 1] + t[at..];
      at := at - 1;
    }
    assert t0[..at] == DropTrailingSpaces(t0[..at]);
  }

  /** The second erase loop of `validateEmail`: drop the spaces directly
      after index `at`. */
  method EraseSpacesAfterAt(t0: string, at: nat) returns (t: string)
    requires at < |t0|
    ensures t == t0[..at + 1] + DropLeadingSpaces(t0[at + 1..])
  {
    t := t0;
    while at + 1 < |t| && t[at + 1] == ' '
      invariant at + 1 <= |t|
      invariant t[..at + 1] == t0[..at + 1]
      invariant DropLeadingSpaces(t[at + 1..]) == DropLeadingSpaces(t0[at + 1..])
      decreases |t|
    {
      EraseOneAfter(t, at);
      t := t[..at + 1] + t[at + 2..];
    }
    EraseDoneAfter(t, at);
  }

  /** One step of the second erase loop keeps the prefix and what
      `DropLeadingSpaces` gives on the rest. */
  lemma EraseOneAfter(t: string, at: nat)
    requires at + 1 < |t| && t[at + 1] == ' '
    ensures var next := t[..at + 1] + t[at + 2..];
      next[..at + 1] == t[..at + 1] && DropLeadingSpaces(next[at + 1..]) == DropLeadingSpaces(t[at + 1..])
  {
    var next := t[..at + 1] + t[at + 2..];
    assert next[at + 1..] == t[at + 2..] == t[at + 1..][1..];
  }

  /** When the second erase loop stops, nothing is left to drop. */
  lemma EraseDoneAfter(t: string, at: nat)
    requires at + 1 <= |t| && !(at + 1 < |t| && t[at + 1] == ' ')
    ensures t == t[..at + 1] + DropLeadingSpaces(t[at + 1..])
  {
    assert DropLeadingSpaces(t[at + 1..]) == t[at + 1..];
    assert t == t[..at + 1] + t[at + 1..];
  }

  /** Both erase loops: the result is `StripAroundAt`. */
  method EraseSpacesAroundAt(t0: string, at0: nat) returns (t: string, at: nat)
    requires at0 < |t0| && t0[at0] == '@'
    ensures t == StripAroundAt(t0, at0)
    ensures at == |DropTrailingSpaces(t0[..at0])| && at < |t| && t[at] == '@'
  {
    var t1;
    t1, at := EraseSpacesBeforeAt(t0, at0);
    assert t1[at] == '@' && t1[..at + 1] == DropTrailingSpaces(t0[..at0]) + ['@'];
    assert t1[at + 1..] == t0[at0 + 1..];
    t := EraseSpacesAfterAt(t1, at);
  }

  /** `Validator::validateEmail`. */
  method ValidateEmail(email: string) returns (ok: bool)
    ensures ok == EmailValid(email)
  {
    var t := Trim(email);
    if t == [] {
      return false;
    }
    var found := Find(t, '@', 0);
    if found.None? || found.value == 0 || found.value == |t| - 1 {
      return false;
    }
    ghost var trimmed := t;
    assert EmailValid(email) == DotAndCharsOk(StripAroundAt(trimmed, found.value),
                                              |DropTrailingSpaces(trimmed[..found.value])|);
    var at: nat;
    t, at := EraseSpacesAroundAt(t, found.value);
    var dot := RFind(t, '.');
    if dot.None? || dot.value <= at + 1 || dot.value == |t| - 1 {
      return false;
    }
    ok := AllEmailChars(t);
  }

  /** The final character loop of `validateEmail`. */
  method AllEmailChars(t: string) returns (ok: bool)
    ensures ok == forall k :: 0 <= k < |t| ==> EmailChar(t[k])
  {
    var i := 0;
    while i < |t|
      invariant 0 <= i <= |t|
      invariant forall k :: 0 <= k < i ==> EmailChar(t[k])
    {
      if !EmailChar(t[i]) {
        return false;
      }
      i := i + 1;
    }
    return true;
  }

  /** Whether an address is accepted depends only on its trimmed form. */
  lemma EmailValidOfTrim(email: string)
    ensures EmailValid(Trim(email)) == EmailValid(email)
  {
    TrimIdempotent(email);
  }

  /** An accepted address holds an `@` that is neither its first nor its
      last character of the trimmed text. */
  lemma EmailHasInnerAt(email: string)
    requires EmailValid(email)
    ensures var t := Trim(email); exists k :: 0 < k < |t| - 1 && t[k] == '@'
  {
    var t := Trim(email);
    var at := Find(t, '@', 0).value;
    assert 0 < at < |t| - 1 && t[at] == '@';
  }

  /** Once trimmed, an accepted address holds only address characters and
      spaces (the spaces next to its first `@`); in particular no `;`. */
  lemma EmailChars(email: string)
    requires EmailValid(email)
    ensures forall k :: 0 <= k < |Trim(email)| ==> EmailChar(Trim(email)[k]) || Trim(email)[k] == ' '
  {
    TrimmedEmailChars(Trim(email));
  }

  lemma TrimmedEmailChars(t: string)
    requires TrimmedEmailValid(t)
    ensures forall k :: 0 <= k < |t| ==> EmailChar(t[k]) || t[k] == ' '
  {
    var at := Find(t, '@', 0).value;
    var u := StripAroundAt(t, at);
    assert DotAndCharsOk(u, |DropTrailingSpaces(t[..at])|);
    StrippedChars(t, at);
  }

  /** Every character of `t` is a space or reappears in `StripAroundAt(t, at)`. */
  lemma StrippedChars(t: string, at: nat)
    requires at < |t| && t[at] == '@'
    requires forall i :: 0 <= i < |StripAroundAt(t, at)| ==> EmailChar(StripAroundAt(t, at)[i])
    ensures forall k :: 0 <= k < |t| ==> EmailChar(t[k]) || t[k] == ' '
  {
    var left, right := t[..at], t[at + 1..];
    var local, rest := DropTrailingSpaces(left), DropLeadingSpaces(right);
    var u := StripAroundAt(t, at);
    assert u == local + ['@'] + rest;
    forall k | 0 <= k < at ensures EmailChar(t[k]) || t[k] == ' ' {
      assert t[k] == left[k];
      if k < |local| {
        assert local[k] == u[k];
      }
    }
    forall j | 0 <= j < |right| ensures EmailChar(right[j]) || right[j] == ' ' {
      var gap := |right| - |rest|;
      if j >= gap {
        assert right[j] == rest[j - gap];
        assert u[|local| + 1 + (j - gap)] == rest[j - gap];
      }
    }
    forall k | at < k < |t| ensures EmailChar(t[k]) || t[k] == ' ' {
      assert t[k] == right[k - (at + 1)];
    }
  }

  /** For an address without spaces no erasing happens. */
  lemma EmailWithoutSpaces(t: string, at: nat)
    requires t != [] && !IsBlank(t[0]) && !IsBlank(t[|t| - 1])
    requires forall k :: 0 <= k < |t| ==> t[k] != ' '
    requires Find(t, '@', 0) == Some(at)
    ensures EmailValid(t) == (at != 0 && at != |t| - 1 && DotAndCharsOk(t, at))
  {
    TrimOfTrimmed(t);
    var left, right := t[..at], t[at + 1..];
    assert left == [] || left[|left| - 1] != ' ';
    assert DropTrailingSpaces(left) == left;
    assert right == [] || right[0] != ' ';
    assert DropLeadingSpaces(right) == right;
    SplitAround(t, at);
  }

  lemma SplitAround(t: string, at: nat)
    requires at < |t|
    ensures t[..at] + [t[at]] + t[at + 1..] == t
  {
  }

  /** A plain address passes. */
  lemma EmailAcceptsSimple()
    ensures EmailValid("a@b.c")
  {
    var t := "a@b.c";
    assert t[0] == 'a' && t[1] == '@' && t[3] == '.' && t[4] == 'c';
    assert forall k :: 0 <= k < |t| ==> t[k] != ' ';
    assert Find(t, '@', 0) == Some(1);
    assert RFind(t, '.') == Some(3);
    assert forall i :: 0 <= i < |t| ==> EmailChar(t[i]);
    assert DotAndCharsOk(t, 1);
    EmailWithoutSpaces(t, 1);
  }

  /** The looseness of the rule: a second `@` passes. */
  lemma EmailAcceptsSecondAt()
    ensures EmailValid("a@b@c.d")
  {
    var t := "a@b@c.d";
    assert t[0] == 'a' && t[1] == '@' && t[5] == '.' && t[6] == 'd';
    assert forall k :: 0 <= k < |t| ==> t[k] != ' ';
    assert Find(t, '@', 0) == Some(1);
    assert RFind(t, '.') == Some(5);
    assert forall i :: 0 <= i < |t| ==> EmailChar(t[i]);
    assert DotAndCharsOk(t, 1);
    EmailWithoutSpaces(t, 1);
  }

  /** An address starting with `@` is refused. */
  lemma EmailRejectsLeadingAt()
    ensures !EmailValid("@b.c")
  {
    var t := "@b.c";
    assert t[0] == '@' && t[3] == 'c';
    TrimOfTrimmed(t);
    assert Find(t, '@', 0) == Some(0);
  }

  /** An address without a `.` is refused. */
  lemma EmailRejectsNoDot()
    ensures !EmailValid("a@b")
  {
    var t := "a@b";
    assert t[0] == 'a' && t[1] == '@' && t[2] == 'b';
    assert forall k :: 0 <= k < |t| ==> t[k] != ' ';
    assert Find(t, '@', 0) == Some(1);
    assert RFind(t, '.') == None;
    EmailWithoutSpaces(t, 1);
  }

  /** The spaces directly around the `@` are dropped before the checks. */
  lemma EmailAcceptsSpacesAroundAt()
    ensures EmailValid("a @ b.c")
  {
    var t := "a @ b.c";
    assert Trim(t) == t by {
      assert t[0] == 'a' && t[6] == 'c';
      TrimOfTrimmed(t);
    }
    assert Find(t, '@', 0) == Some(2) by {
      assert t[0] == 'a' && t[1] == ' ' && t[2] == '@';
    }
    StripExample();
    DropBeforeExample();
    DottedExample();
    assert DotAndCharsOk(StripAroundAt(t, 2), |DropTrailingSpaces(t[..2])|);
    TrimmedEmailValidIntro(t, 2);
  }

  lemma DropBeforeExample()
    ensures DropTrailingSpaces("a @ b.c"[..2]) == "a"
  {
    var t := "a @ b.c";
    assert t[..2] == "a ";
    assert "a "[..1] == "a";
  }

  lemma DottedExample()
    ensures DotAndCharsOk("a@b.c", 1)
  {
    var u := "a@b.c";
    assert u[3] == '.' && u[4] == 'c';
    assert RFind(u, '.') == Some(3);
    assert forall i :: 0 <= i < |u| ==> EmailChar(u[i]);
  }

  lemma StripExample()
    ensures StripAroundAt("a @ b.c", 2) == "a@b.c"
  {
    DropBeforeExample();
    DropAfterExample();
    assert "a" + ['@'] + "b.c" == "a@b.c";
  }

  lemma DropAfterExample()
    ensures DropLeadingSpaces("a @ b.c"[3..]) == "b.c"
  {
    var t := "a @ b.c";
    assert t[3..] == " b.c";
    assert " b.c"[1..] == "b.c";
  }

  /** The trimmed-address rule, read forwards from its parts. */
  lemma TrimmedEmailValidIntro(t: string, at: nat)
    requires Find(t, '@', 0) == Some(at) && at != 0 && at != |t| - 1
    requires DotAndCharsOk(StripAroundAt(t, at), |DropTrailingSpaces(t[..at])|)
    ensures TrimmedEmailValid(t)
  {
  }

  // ---------------------------------------------------------------------
  // validatePhone
  // ---------------------------------------------------------------------

  /** The `digits` buffer of the source: every digit of `t`, plus one `+`
      when a `+` comes before the first digit. */
  function Extracted(t: string): (r: string)
    ensures |r| <= |t|
    ensures forall i :: 0 <= i < |r| ==> IsDigit(r[i]) || (i == 0 && r[i] == '+')
    decreases |t|
  {
    if t == [] then []
    else
      var d := Extracted(t[..|t| - 1]);
      var c := t[|t| - 1];
      if IsDigit(c) then d + [c]
      else if c == '+' && d == [] then ['+']
      else d
  }

  /** A leading `+7` or `7` becomes the trunk prefix `8`. */
  function Normalized(digits: string): string {
    if |digits| >= 2 && digits[..2] == "+7" then "8" + digits[2..]
    else if |digits| >= 1 && digits[0] == '7' then "8" + digits[1..]
    else digits
  }

  /** The phone rule: the normalised digit buffer of the trimmed input is
      `8` followed by ten digits. */
  predicate PhoneValid(phone: string) {
    var t := Trim(phone);
    && t != []
    && var n := Normalized(Extracted(t));
       && |n| == 11
       && n[0] == '8'
       && forall k :: 1 <= k < |n| ==> IsDigit(n[k])
  }

  /** `Validator::validatePhone`. */
  method ValidatePhone(phone: string) returns (ok: bool)
    ensures ok == PhoneValid(phone)
  {
    var t := Trim(phone);
    if t == [] {
      return false;
    }
    var digits := ExtractDigits(t);
    if |digits| >= 2 && digits[..2] == "+7" {
      digits := "8" + digits[2..];
    } else if |digits| >= 1 && digits[0] == '7' {
      digits := "8" + digits[1..];
    }
    assert digits == Normalized(Extracted(t));
    if |digits| != 11 || digits[0] != '8' {
      return false;
    }
    ok := forall k :: 1 <= k < |digits| ==> IsDigit(digits[k]);
  }

  /** The buffer-building loop of `validatePhone`. */
  method ExtractDigits(t: string) returns (digits: string)
    ensures digits == Extracted(t)
  {
    digits := "";
    var i := 0;
    while i < |t|
      invariant 0 <= i <= |t|
      invariant digits == Extracted(t[..i])
    {
      assert t[..i + 1][..i] == t[..i];
      var c := t[i];
      if IsDigit(c) {
        digits := digits + [c];
      } else if c == '+' && digits == [] {
        digits := digits + ['+'];
      }
      i := i + 1;
    }
    assert t[..|t|] == t;
  }

  /** The final all-digits test of the source never fails: the result is
      exactly "the normalised buffer has 11 characters and starts with 8". */
  lemma PhoneValidIff(phone: string)
    ensures PhoneValid(phone) <==>
      (var n := Normalized(Extracted(Trim(phone))); |n| == 11 && n[0] == '8')
  {
  }

  /** A string of digits is its own digit buffer. */
  lemma {:induction false} ExtractedOfDigits(t: string)
    requires AllDigits(t)
    ensures Extracted(t) == t
    decreases |t|
  {
    if t != [] {
      ExtractedOfDigits(t[..|t| - 1]);
      assert t[..|t| - 1] + [t[|t| - 1]] == t;
    }
  }

  /** The prefix `+` survives into the buffer. */
  lemma {:induction false} ExtractedOfPlusDigits(t: string)
    requires |t| >= 1 && t[0] == '+' && AllDigits(t[1..])
    ensures Extracted(t) == t
    decreases |t|
  {
    if |t| > 1 {
      var p := t[..|t| - 1];
      assert p[1..] == t[1..][..|t| - 2];
      ExtractedOfPlusDigits(p);
      assert p + [t[|t| - 1]] == t;
    }
  }

  /** The three accepted spellings of a number: `8`, `7` or `+7` followed by
      ten digits. */
  lemma PhoneFormsAccepted(ten: string)
    requires |ten| == 10 && AllDigits(ten)
    ensures PhoneValid("8" + ten)
    ensures PhoneValid("7" + ten)
    ensures PhoneValid("+7" + ten)
  {
    EightFormAccepted(ten);
    SevenFormAccepted(ten);
    PlusSevenFormAccepted(ten);
  }

  lemma EightFormAccepted(ten: string)
    requires |ten| == 10 && AllDigits(ten)
    ensures PhoneValid("8" + ten)
  {
    var a := "8" + ten;
    DigitThenDigits('8', ten);
    TrimOfTrimmed(a);
    ExtractedOfDigits(a);
    assert Normalized(a) == a by {
      assert a[..2][0] == '8';
    }
    ValidOfBuffer(a);
  }

  lemma SevenFormAccepted(ten: string)
    requires |ten| == 10 && AllDigits(ten)
    ensures PhoneValid("7" + ten)
  {
    var b := "7" + ten;
    DigitThenDigits('7', ten);
    DigitThenDigits('8', ten);
    TrimOfTrimmed(b);
    ExtractedOfDigits(b);
    assert b[1..] == ten;
    assert Normalized(b) == "8" + ten by {
      assert b[..2][0] == '7';
    }
    ValidOfBuffer(b);
  }

  lemma PlusSevenFormAccepted(ten: string)
    requires |ten| == 10 && AllDigits(ten)
    ensures PhoneValid("+7" + ten)
  {
    var c := "+7" + ten;
    DigitThenDigits('7', ten);
    DigitThenDigits('8', ten);
    TrimOfTrimmed(c);
    assert c[1..] == "7" + ten;
    ExtractedOfPlusDigits(c);
    assert c[..2] == "+7" && c[2..] == ten;
    assert Normalized(c) == "8" + ten;
    ValidOfBuffer(c);
  }

  lemma DigitThenDigits(d: char, ten: string)
    requires IsDigit(d) && AllDigits(ten)
    ensures AllDigits([d] + ten)
  {
    var s := [d] + ten;
    forall i | 0 <= i < |s| ensures IsDigit(s[i]) {
      if i > 0 {
        assert s[i] == ten[i - 1];
      }
    }
  }

  /** A trimmed number whose normalised buffer is `8` and ten more digits
      passes the phone rule. */
  lemma ValidOfBuffer(t: string)
    requires t != [] && Trim(t) == t
    requires var n := Normalized(Extracted(t)); |n| == 11 && n[0] == '8' && AllDigits(n)
    ensures PhoneValid(t)
  {
  }

  /** A `+` that is not followed by `7` is rejected. */
  lemma PlusWithoutSevenRejected(phone: string)
    requires var d := Extracted(Trim(phone)); |d| >= 1 && d[0] == '+' && (|d| == 1 || d[1] != '7')
    ensures !PhoneValid(phone)
  {
    var d := Extracted(Trim(phone));
    if |d| >= 2 {
      assert d[..2] != "+7" by { assert d[..2][1] == d[1]; }
    }
  }

  // ---------------------------------------------------------------------
  // validateDate
  // ---------------------------------------------------------------------

  /** A calendar date, as the three integers the source reads or takes from
      `localtime`. */
  datatype Date = Date(year: int, month: int, day: int)

  /** The source's month-length table, index 0 unused. */
  const InitialDays: seq<int> := [0, 31, 28, 31, 30, 31, 30, 31, 31, 30, 31, 30, 31]

  predicate IsLeapYear(y: int) { (y % 4 == 0 && y % 100 != 0) || y % 400 == 0 }

  /** The number of days in month `m` of year `y` under the Gregorian rule. */
  function DaysIn(y: int, m: int): (n: int)
    requires 1 <= m <= 12
    ensures 28 <= n <= 31
    ensures m == 2 ==> (n == 29 <==> IsLeapYear(y))
  {
    if m == 2 && IsLeapYear(y) then 29 else InitialDays[m]
  }

  /** `iss >> y >> c1 >> m >> c2 >> d` with `c1 == '-'` and `c2 == '-'`:
      each integer may have white space and a sign before it, and whatever
      follows the day is ignored. */
  function ParseDate(date: string): Option<Date> {
    match ScanInt(date, 0)
    case None => None
    case Some((y, i1)) =>
      match ScanChar(date, i1)
      case None => None
      case Some((c1, i2)) =>
        match ScanInt(date, i2)
        case None => None
        case Some((m, i3)) =>
          match ScanChar(date, i3)
          case None => None
          case Some((c2, i4)) =>
            match ScanInt(date, i4)
            case None => None
            case Some((d, _)) =>
              if c1 == '-' && c2 == '-' then Some(Date(y, m, d)) else None
  }

  /** `a` is strictly earlier than `b`. */
  predicate Before(a: Date, b: Date) {
    a.year < b.year || (a.year == b.year && a.month < b.month)
    || (a.year == b.year && a.month == b.month && a.day < b.day)
  }

  /** The birth-date rule with the leap-year rule applied afresh on every
      call: empty, or a parsed date from 1900 on, with a month 1-12 and a day
      within that month, strictly before `today`. */
  predicate DateValid(date: string, today: Date) {
    date == [] ||
    match ParseDate(date)
    case None => false
    case Some(dt) =>
      && dt.year >= 1900
      && 1 <= dt.month <= 12
      && 1 <= dt.day <= DaysIn(dt.year, dt.month)
      && Before(dt, today)
  }

  /** `Validator::validateDate` as written: `days` is the function-static
      table, which the call may overwrite (`days[2] = 29` for a leap-year
      February) and which the next call sees.  Gives the verdict and the
      table after the call. */
  function ValidateDateAsWritten(date: string, today: Date, days: seq<int>): (r: (bool, seq<int>))
    requires |days| == 13
    ensures |r.1| == 13
  {
    if date == [] then (true, days)
    else
      match ParseDate(date)
      case None => (false, days)
      case Some(dt) =>
        var y, m, d := dt.year, dt.month, dt.day;
        if y < 1900 || m < 1 || m > 12 || d < 1 || d > 31 then (false, days)
        else
          var days' := if m == 2 && IsLeapYear(y) then days[2 := 29] else days;
          if d > days'[m] then (false, days')
          else if y > today.year || (y == today.year && m > today.month)
                  || (y == today.year && m == today.month && d >= today.day) then (false, days')
          else (true, days')
  }

  /** The table only ever holds its initial contents or those with a
      29-day February. */
  lemma AsWrittenTableStates(date: string, today: Date, days: seq<int>)
    requires days == InitialDays || days == InitialDays[2 := 29]
    ensures var t := ValidateDateAsWritten(date, today, days).1;
      t == InitialDays || t == InitialDays[2 := 29]
  {
  }

  /** Until a leap-year February has been validated, the source follows the
      Gregorian rule exactly. */
  lemma AsWrittenAgreesWhileFresh(date: string, today: Date)
    ensures ValidateDateAsWritten(date, today, InitialDays).0 == DateValid(date, today)
  {
  }

  /** After the 29-day February has been stored, a date is accepted exactly
      when the Gregorian rule accepts it or it is 29 February of a common
      year that the rest of the check lets through. */
  lemma AsWrittenAfterLeapFebruary(date: string, today: Date)
    ensures ValidateDateAsWritten(date, today, InitialDays[2 := 29]).0 <==>
      (DateValid(date, today) ||
       (ParseDate(date).Some? && var dt := ParseDate(date).value;
        dt.month == 2 && dt.day == 29 && dt.year >= 1900 && !IsLeapYear(dt.year) && Before(dt, today)))
  {
  }

  /** The discrepancy: once any valid 29 February of a leap year (`leap`)
      has been checked, a 29 February of a common year (`common`) that is
      otherwise in range is accepted, though the Gregorian rule refuses it. */
  lemma StickyLeapFebruary(leap: string, common: string, today: Date)
    requires DateValid(leap, today) && ParseDate(leap).Some?
    requires ParseDate(leap).value.month == 2 && ParseDate(leap).value.day == 29
    requires ParseDate(common).Some? && var c := ParseDate(common).value;
      c.month == 2 && c.day == 29 && c.year >= 1900 && !IsLeapYear(c.year) && Before(c, today)
    ensures var first := ValidateDateAsWritten(leap, today, InitialDays);
      first.0 && ValidateDateAsWritten(common, today, first.1).0
    ensures !DateValid(common, today)
  {
    AsWrittenAgreesWhileFresh(leap, today);
    AsWrittenStoresLeapFebruary(leap, today);
    AsWrittenAfterLeapFebruary(common, today);
    CommonLeapDayRefused(common, today);
  }

  /** A 29 February of a common year is refused by the Gregorian rule. */
  lemma CommonLeapDayRefused(date: string, today: Date)
    requires ParseDate(date).Some? && var c := ParseDate(date).value;
      c.month == 2 && c.day == 29 && !IsLeapYear(c.year)
    ensures !DateValid(date, today)
  {
  }

  /** The inputs that show it: `2024-02-29`, then `2023-02-29`, with today
      in 2025 or later. */
  lemma StickyLeapFebruaryExample(leap: string, common: string, today: Date)
    requires Spells(leap, "2024-02-29") && Spells(common, "2023-02-29") && today.year >= 2025
    ensures var first := ValidateDateAsWritten(leap, today, InitialDays);
      first.0 && ValidateDateAsWritten(common, today, first.1).0
    ensures !DateValid(common, today)
  {
    DateAcceptsLeapDay(leap, today);
    LeapDayParses(leap);
    CommonLeapDayParses(common);
    CommonYear2023();
    var c := Date(2023, 2, 29);
    assert c.month == 2 && c.day == 29 && c.year >= 1900 && Before(c, today);
    StickyLeapFebruary(leap, common, today);
  }

  lemma CommonYear2023()
    ensures !IsLeapYear(2023)
  {
    assert 2023 % 4 == 3;
  }

  lemma LeapDayParses(date: string)
    requires Spells(date, "2024-02-29")
    ensures ParseDate(date) == Some(Date(2024, 2, 29))
  {
    assert date[0] == '2' && date[1] == '0' && date[2] == '2' && date[3] == '4';
    assert date[5] == '0' && date[6] == '2' && date[8] == '2' && date[9] == '9';
    IsoDateParse(date);
  }

  lemma CommonLeapDayParses(date: string)
    requires Spells(date, "2023-02-29")
    ensures ParseDate(date) == Some(Date(2023, 2, 29))
  {
    assert date[0] == '2' && date[1] == '0' && date[2] == '2' && date[3] == '3';
    assert date[5] == '0' && date[6] == '2' && date[8] == '2' && date[9] == '9';
    IsoDateParse(date);
  }

  /** Checking a February date of a leap year that passes the range checks
      leaves a 29-day February in the table. */
  lemma AsWrittenStoresLeapFebruary(date: string, today: Date)
    requires ParseDate(date).Some? && var dt := ParseDate(date).value;
      dt.month == 2 && IsLeapYear(dt.year) && dt.year >= 1900 && 1 <= dt.day <= 31
    ensures ValidateDateAsWritten(date, today, InitialDays).1 == InitialDays[2 := 29]
  {
  }

  /** Ten characters `YYYY-MM-DD` with a digit in every field place. */
  predicate IsoShape(date: string) {
    && |date| == 10 && date[4] == '-' && date[7] == '-'
    && IsDigit(date[0]) && IsDigit(date[1]) && IsDigit(date[2]) && IsDigit(date[3])
    && IsDigit(date[5]) && IsDigit(date[6]) && IsDigit(date[8]) && IsDigit(date[9])
  }

  /** A `YYYY-MM-DD` string parses to the decimal values of its fields. */
  lemma IsoDateParse(date: string)
    requires IsoShape(date)
    ensures ParseDate(date) == Some(Date(
      1000 * DigitValue(date[0]) + 100 * DigitValue(date[1]) + 10 * DigitValue(date[2]) + DigitValue(date[3]),
      10 * DigitValue(date[5]) + DigitValue(date[6]),
      10 * DigitValue(date[8]) + DigitValue(date[9])))
  {
    assert date[..4] == [date[0], date[1], date[2], date[3]];
    assert date[5..7] == [date[5], date[6]];
    assert date[8..] == [date[8], date[9]];
    DigitsValue4(date[..4]);
    DigitsValue2(date[5..7]);
    DigitsValue2(date[8..]);
    ParsesAs(date);
  }

  lemma DigitsValue1(s: string)
    requires |s| == 1 && AllDigits(s)
    ensures DigitsValue(s) == DigitValue(s[0])
  {
    assert s[..0] == [];
    assert DigitsValue(s) == 10 * DigitsValue(s[..0]) + DigitValue(s[0]);
  }

  lemma DigitsValue2(s: string)
    requires |s| == 2 && AllDigits(s)
    ensures DigitsValue(s) == 10 * DigitValue(s[0]) + DigitValue(s[1])
  {
    DigitsValue1(s[..1]);
    assert DigitsValue(s) == 10 * DigitsValue(s[..1]) + DigitValue(s[1]);
  }

  lemma DigitsValue3(s: string)
    requires |s| == 3 && AllDigits(s)
    ensures DigitsValue(s) == 100 * DigitValue(s[0]) + 10 * DigitValue(s[1]) + DigitValue(s[2])
  {
    DigitsValue2(s[..2]);
    assert DigitsValue(s) == 10 * DigitsValue(s[..2]) + DigitValue(s[2]);
  }

  lemma DigitsValue4(s: string)
    requires |s| == 4 && AllDigits(s)
    ensures DigitsValue(s) ==
      1000 * DigitValue(s[0]) + 100 * DigitValue(s[1]) + 10 * DigitValue(s[2]) + DigitValue(s[3])
  {
    DigitsValue3(s[..3]);
    assert DigitsValue(s) == 10 * DigitsValue(s[..3]) + DigitValue(s[3]);
  }

  /** `YYYY-MM-DD` with digit fields parses to the values of those fields. */
  lemma ParsesAs(date: string)
    requires |date| == 10 && date[4] == '-' && date[7] == '-'
    requires AllDigits(date[..4]) && AllDigits(date[5..7]) && AllDigits(date[8..])
    ensures ParseDate(date) ==
      Some(Date(DigitsValue(date[..4]), DigitsValue(date[5..7]), DigitsValue(date[8..])))
  {
    ScanIntAt(date, 0, 4);
    ScanIntAt(date, 5, 7);
    ScanIntAt(date, 8, 10);
  }

  /** A run of at most four digits at `from..to` that is not followed by a
      digit reads back as its value. */
  lemma ScanIntAt(s: string, from: nat, to: nat)
    requires from < to <= |s| && to - from <= 4 && AllDigits(s[from..to])
    requires to == |s| || !IsDigit(s[to])
    ensures ScanInt(s, from) == Some((DigitsValue(s[from..to]), to))
  {
    var t := s[from..to];
    assert s[from] == t[0];
    assert SkipSpaces(s, from) == from;
    forall k | from <= k < to ensures IsDigit(s[k]) {
      assert s[k] == t[k - from];
    }
    DigitsEndUpTo(s, from, to);
    DigitsValueBelow(t);
    assert Pow10(|t|) <= 10000 by {
      assert Pow10(1) == 10 && Pow10(2) == 100 && Pow10(3) == 1000 && Pow10(4) == 10000;
    }
    assert s[from..to] == t;
  }

  /** The value of `n` digits is below `10^n`. */
  lemma {:induction false} DigitsValueBelow(s: string)
    requires AllDigits(s)
    ensures DigitsValue(s) < Pow10(|s|)
    decreases |s|
  {
    if s != [] {
      DigitsValueBelow(s[..|s| - 1]);
    }
  }

  function Pow10(n: nat): (p: nat)
    ensures p >= 1
  {
    if n == 0 then 1 else 10 * Pow10(n - 1)
  }

  lemma {:induction false} DigitsEndUpTo(s: string, i: nat, to: nat)
    requires i <= to <= |s|
    requires forall k :: i <= k < to ==> IsDigit(s[k])
    requires to == |s| || !IsDigit(s[to])
    ensures DigitsEnd(s, i) == to
    decreases (to as int) - i
  {
    if i < to {
      DigitsEndUpTo(s, i + 1, to);
    }
  }

  /** Today and every later day are rejected. */
  lemma DateRejectsTodayAndLater(date: string, today: Date)
    requires ParseDate(date).Some? && !Before(ParseDate(date).value, today)
    ensures !DateValid(date, today)
  {
  }

  /** A `YYYY-MM-DD` string is a valid birth date exactly when its fields
      name a real day from 1900 on that lies before `today`. */
  lemma IsoDateValid(date: string, today: Date)
    requires IsoShape(date)
    ensures var y := 1000 * DigitValue(date[0]) + 100 * DigitValue(date[1])
                     + 10 * DigitValue(date[2]) + DigitValue(date[3]);
            var m := 10 * DigitValue(date[5]) + DigitValue(date[6]);
            var d := 10 * DigitValue(date[8]) + DigitValue(date[9]);
      DateValid(date, today) <==>
        (y >= 1900 && 1 <= m <= 12 && 1 <= d <= DaysIn(y, m) && Before(Date(y, m, d), today))
  {
    IsoDateParse(date);
  }

  /** 29 February of a leap year is a valid birth date. */
  lemma DateAcceptsLeapDay(date: string, today: Date)
    requires Spells(date, "2024-02-29") && today.year >= 2025
    ensures DateValid(date, today)
  {
    assert date[0] == '2' && date[1] == '0' && date[2] == '2' && date[3] == '4';
    assert date[5] == '0' && date[6] == '2' && date[8] == '2' && date[9] == '9';
    IsoDateValid(date, today);
  }

  /** 29 February of a common year is not. */
  lemma DateRejectsCommonLeapDay(date: string, today: Date)
    requires Spells(date, "2023-02-29")
    ensures !DateValid(date, today)
  {
    assert date[0] == '2' && date[1] == '0' && date[2] == '2' && date[3] == '3';
    assert date[5] == '0' && date[6] == '2' && date[8] == '2' && date[9] == '9';
    IsoDateValid(date, today);
    assert !IsLeapYear(2023);
  }

  /** No year has a 30 February. */
  lemma DateRejectsThirtiethFebruary(date: string, today: Date)
    requires Spells(date, "2024-02-30")
    ensures !DateValid(date, today)
  {
    assert date[0] == '2' && date[1] == '0' && date[2] == '2' && date[3] == '4';
    assert date[5] == '0' && date[6] == '2' && date[8] == '3' && date[9] == '0';
    IsoDateValid(date, today);
  }

  /** Years before 1900 are refused. */
  lemma DateRejectsBefore1900(date: string, today: Date)
    requires Spells(date, "1899-12-31")
    ensures !DateValid(date, today)
  {
    assert date[0] == '1' && date[1] == '8' && date[2] == '9' && date[3] == '9';
    assert date[5] == '1' && date[6] == '2' && date[8] == '3' && date[9] == '1';
    IsoDateValid(date, today);
  }
}
