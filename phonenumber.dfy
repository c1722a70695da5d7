/** `PhoneNumber` (phonenumber.cpp): an immutable pair of a type tag and a
    number, checked when it is made. */
module PhoneNumbers {
  import opened Errors
  import opened StdString
  import opened Validator

  /** The named values of `enum class PhoneType`.  The tag is kept as the
      underlying `int`, because a reader may cast any integer to it. */
  const Work: Int32 := 0
  const Home: Int32 := 1
  const Office: Int32 := 2

  datatype PhoneNumber = PhoneNumber(kind: Int32, number: string)

  /** What the constructor guarantees of every object it lets through: the
      stored number is trimmed and passes the phone rule. */
  predicate Valid(p: PhoneNumber) {
    p.number == Trim(p.number) && PhoneValid(p.number)
  }

  predicate AllValid(ps: seq<PhoneNumber>) {
    forall i :: 0 <= i < |ps| ==> Valid(ps[i])
  }

  lemma AllValidConcat(ps: seq<PhoneNumber>, qs: seq<PhoneNumber>)
    requires AllValid(ps) && AllValid(qs)
    ensures AllValid(ps + qs)
  {
    var rs := ps + qs;
    forall i | 0 <= i < |rs| ensures Valid(rs[i]) {
      if i < |ps| {
        assert rs[i] == ps[i];
      } else {
        assert rs[i] == qs[i - |ps|];
      }
    }
  }

  lemma AllValidSlice(ps: seq<PhoneNumber>, i: nat, j: nat)
    requires AllValid(ps) && i <= j <= |ps|
    ensures AllValid(ps[i..j])
  {
    var rs := ps[i..j];
    forall k | 0 <= k < |rs| ensures Valid(rs[k]) {
      assert rs[k] == ps[i + k];
    }
  }

  /** `PhoneNumber(type, number)`: stores the type and the trimmed number
      (not its normalised digits), and throws `invalid_argument` when the
      trimmed number fails `validatePhone`. */
  function MakePhone(kind: Int32, raw: string): (r: Result<PhoneNumber>)
    ensures r.Success? <==> PhoneValid(Trim(raw))
    ensures r.Success? ==> r.value.kind == kind && r.value.number == Trim(raw) && Valid(r.value)
    ensures r.Failure? ==> r.error == InvalidArgument("Invalid phone number")
  {
    var number := Trim(raw);
    TrimIdempotent(raw);
    if PhoneValid(number) then Success(PhoneNumber(kind, number))
    else Failure(InvalidArgument("Invalid phone number"))
  }

  /** Making a number again from a valid one gives it back. */
  lemma MakePhoneOfValid(p: PhoneNumber)
    requires Valid(p)
    ensures MakePhone(p.kind, p.number) == Success(p)
  {
  }

  /** Blanks around the input make no difference. */
  lemma MakePhoneOfTrim(kind: Int32, raw: string)
    ensures MakePhone(kind, Trim(raw)) == MakePhone(kind, raw)
  {
    TrimIdempotent(raw);
  }

  /** A valid number is not empty and has no space or tab at either end. */
  lemma ValidNumberEnds(p: PhoneNumber)
    requires Valid(p)
    ensures p.number != [] && !IsBlank(p.number[0]) && !IsBlank(p.number[|p.number| - 1])
  {
  }

  /** The number is stored as written: `+7` followed by ten digits is
      accepted and kept with its `+7`, not rewritten to `8`. */
  lemma StoredNumberNotNormalised(kind: Int32, ten: string)
    requires |ten| == 10 && AllDigits(ten)
    ensures MakePhone(kind, "+7" + ten) == Success(PhoneNumber(kind, "+7" + ten))
    ensures "+7" + ten != "8" + ten
  {
    var c := "+7" + ten;
    PlusSevenFormAccepted(ten);
    TrimOfTrimmed(c);
    MakePhoneOfValid(PhoneNumber(kind, c));
    assert c[0] != ("8" + ten)[0];
  }

  /** The placeholder that `Contact::fromString` builds is a valid number. */
  lemma PlaceholderValid(s: string)
    requires Spells(s, "80000000000")
    ensures MakePhone(Work, s) == Success(PhoneNumber(Work, s))
  {
    assert Trim(s) == s by {
      assert s[0] == '8' && s[10] == '0';
      TrimOfTrimmed(s);
    }
    var ten := s[1..];
    assert AllDigits(ten) && |ten| == 10 by {
      forall k | 0 <= k < 10 ensures ten[k] == '0' {
        assert ten[k] == s[k + 1];
      }
    }
    assert s == "8" + ten;
    EightFormAccepted(ten);
  }
}
