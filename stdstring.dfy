/** The pieces of the C++ standard library that the phonebook core relies on,
    stated over byte strings.  A `char` in this model stands for one byte
    (code 0..255); character classes are those of the "C" locale. */
module StdString {
  import opened Errors

  const MinInt: int := -0x8000_0000
  const MaxInt: int := 0x7FFF_FFFF

  /** The range of a 32-bit C++ `int`. */
  type Int32 = x: int | MinInt <= x <= MaxInt

  // ---------------------------------------------------------------------
  // <cctype> in the "C" locale
  // ---------------------------------------------------------------------

  predicate IsDigit(c: char) { '0' <= c <= '9' }

  predicate IsAlpha(c: char) { 'A' <= c <= 'Z' || 'a' <= c <= 'z' }

  predicate IsAlnum(c: char) { IsDigit(c) || IsAlpha(c) }

  /** `isspace`: space, tab, newline, vertical tab, form feed, carriage return. */
  predicate IsSpace(c: char) { c == ' ' || '\t' <= c <= '\r' }

  predicate AllDigits(s: string) { forall i :: 0 <= i < |s| ==> IsDigit(s[i]) }

  /** `tolower`: upper-case ASCII letters map to lower case, all else is kept. */
  function ToLower(c: char): (r: char)
    ensures 'A' <= c <= 'Z' ==> 'a' <= r <= 'z' && r as int - c as int == 32
    ensures !('A' <= c <= 'Z') ==> r == c
  {
    if 'A' <= c <= 'Z' then (c as int + 32) as char else c
  }

  /** `std::transform(s.begin(), s.end(), s.begin(), ::tolower)`. */
  function Lower(s: string): (r: string)
    ensures |r| == |s|
    ensures forall i :: 0 <= i < |s| ==> r[i] == ToLower(s[i])
  {
    seq(|s|, i requires 0 <= i < |s| => ToLower(s[i]))
  }

  // ---------------------------------------------------------------------
  // std::string searches
  // ---------------------------------------------------------------------

  /** `s.find(c, from)`: the first index at or after `from` holding `c`. */
  function Find(s: string, c: char, from: nat): (r: Option<nat>)
    requires from <= |s|
    ensures r.Some? ==> from <= r.value < |s| && s[r.value] == c
    ensures r.Some? ==> forall k :: from <= k < r.value ==> s[k] != c
    ensures r.None? ==> forall k :: from <= k < |s| ==> s[k] != c
    decreases |s| - from
  {
    if from == |s| then None
    else if s[from] == c then Some(from)
    else Find(s, c, from + 1)
  }

  /** The last index below `n` holding `c`. */
  function FindBefore(s: string, c: char, n: nat): (r: Option<nat>)
    requires n <= |s|
    ensures r.Some? ==> r.value < n && s[r.value] == c
    ensures r.Some? ==> forall k :: r.value < k < n ==> s[k] != c
    ensures r.None? ==> forall k :: 0 <= k < n ==> s[k] != c
  {
    if n == 0 then None
    else if s[n - 1] == c then Some(n - 1)
    else FindBefore(s, c, n - 1)
  }

  /** `s.rfind(c)`: the last index holding `c`. */
  function RFind(s: string, c: char): (r: Option<nat>)
    ensures r.Some? ==> r.value < |s| && s[r.value] == c
    ensures r.Some? ==> forall k :: r.value < k < |s| ==> s[k] != c
    ensures r.None? ==> forall k :: 0 <= k < |s| ==> s[k] != c
  {
    FindBefore(s, c, |s|)
  }

  /** `s.find(t) != npos`: `t` occurs in `s` as a contiguous substring. */
  predicate Contains(s: string, t: string)
    decreases |s|
  {
    t <= s || (s != [] && Contains(s[1..], t))
  }

  // ---------------------------------------------------------------------
  // std::getline(stream, token, delim) over a whole string
  // ---------------------------------------------------------------------

  /** The tokens a `while (std::getline(ss, token, d))` loop collects: the
      pieces between delimiters, except that no token follows a final
      delimiter (getline fails once nothing is left to extract). */
  function Split(s: string, d: char): (r: seq<string>)
    ensures s == [] <==> r == []
    ensures forall i :: 0 <= i < |r| ==> Lacks(r[i], d)
    decreases |s|
  {
    if s == [] then []
    else match Find(s, d, 0)
      case None => [s]
      case Some(k) => [s[..k]] + Split(s[k + 1..], d)
  }

  /** `s` has the characters of `text`, one by one: the same as
      `s == text`.  The example lemmas take their string as a parameter
      that satisfies this, instead of naming the literal, because the
      verifier unfolds a function applied to literal arguments without a
      bound, and a date or phone rule applied to a literal string makes
      their proofs far more expensive. */
  predicate Spells(s: string, text: string) {
    |s| == |text| && forall i :: 0 <= i < |text| ==> s[i] == text[i]
  }

  /** `s` holds no `d`. */
  predicate Lacks(s: string, d: char) { forall k :: 0 <= k < |s| ==> s[k] != d }

  /** The fields written one after another with `d` between them. */
  function Join(xs: seq<string>, d: char): string
    requires |xs| > 0
  {
    if |xs| == 1 then xs[0] else xs[0] + [d] + Join(xs[1..], d)
  }

  lemma {:induction false} JoinSnoc(xs: seq<string>, y: string, d: char)
    requires |xs| > 0
    ensures Join(xs + [y], d) == Join(xs, d) + [d] + y
    decreases |xs|
  {
    if |xs| == 1 {
      assert (xs + [y])[1..] == [y];
    } else {
      assert (xs + [y])[1..] == xs[1..] + [y];
      JoinSnoc(xs[1..], y, d);
      var x, j := xs[0], Join(xs[1..], d);
      assert x + [d] + (j + [d] + y) == (x + [d] + j) + [d] + y;
    }
  }

  /** `find` stops at the first occurrence. */
  lemma {:induction false} FindFirstAt(s: string, c: char, from: nat, k: nat)
    requires from <= k < |s| && s[k] == c
    requires forall j :: from <= j < k ==> s[j] != c
    ensures Find(s, c, from) == Some(k)
    decreases k - from
  {
    if from < k {
      FindFirstAt(s, c, from + 1, k);
    }
  }

  lemma SplitFirst(a: string, d: char, b: string)
    requires Lacks(a, d)
    ensures Split(a + [d] + b, d) == [a] + Split(b, d)
  {
    var s := a + [d] + b;
    FindFirstAt(s, d, 0, |a|);
    assert s[..|a|] == a;
    assert s[|a| + 1..] == b;
  }

  /** Splitting inverts joining when no field holds the delimiter and the
      last field is not empty. */
  lemma {:induction false} SplitJoin(xs: seq<string>, d: char)
    requires |xs| > 0 && xs[|xs| - 1] != []
    requires forall i :: 0 <= i < |xs| ==> Lacks(xs[i], d)
    ensures Split(Join(xs, d), d) == xs
    decreases |xs|
  {
    if |xs| == 1 {
      assert Join(xs, d) == xs[0];
      SplitSingle(xs[0], d);
    } else {
      var x, rest := xs[0], xs[1..];
      var j := Join(rest, d);
      assert Join(xs, d) == x + [d] + j;
      assert Lacks(x, d);
      SplitFirst(x, d, j);
      assert rest[|rest| - 1] == xs[|xs| - 1];
      forall i | 0 <= i < |rest| ensures Lacks(rest[i], d) {
        assert rest[i] == xs[i + 1];
      }
      SplitJoin(rest, d);
      assert [x] + rest == xs;
    }
  }

  lemma SplitSingle(x: string, d: char)
    requires x != [] && Lacks(x, d)
    ensures Split(x, d) == [x]
  {
    var f := Find(x, d, 0);
    assert f.None?;
  }

  // ---------------------------------------------------------------------
  // Decimal integers: operator<<(int), operator>>(int) and std::stoi
  // ---------------------------------------------------------------------

  function DigitChar(n: nat): (c: char)
    requires n < 10
    ensures IsDigit(c)
  {
    ('0' as int + n) as char
  }

  function DigitValue(c: char): (n: nat)
    requires IsDigit(c)
    ensures n < 10
  {
    c as int - '0' as int
  }

  /** Decimal digits of `n`, most significant first, without leading zeros. */
  function NatToString(n: nat): (r: string)
    ensures r != [] && AllDigits(r)
    decreases n
  {
    if n < 10 then [DigitChar(n)] else NatToString(n / 10) + [DigitChar(n % 10)]
  }

  /** What `ostream << int` writes. */
  function IntToString(k: int): (r: string)
    ensures r != []
    ensures forall i :: 0 <= i < |r| ==> IsDigit(r[i]) || (i == 0 && r[i] == '-')
  {
    if k < 0 then ['-'] + NatToString(-k) else NatToString(k)
  }

  /** The value of a string of decimal digits. */
  function DigitsValue(s: string): nat
    requires AllDigits(s)
    decreases |s|
  {
    if s == [] then 0 else 10 * DigitsValue(s[..|s| - 1]) + DigitValue(s[|s| - 1])
  }

  lemma {:induction false} DigitsValueOfNatToString(n: nat)
    ensures DigitsValue(NatToString(n)) == n
    decreases n
  {
    var r := NatToString(n);
    if n >= 10 {
      assert r[..|r| - 1] == NatToString(n / 10);
      DigitsValueOfNatToString(n / 10);
    }
  }

  /** The first index at or after `i` that is not white space. */
  function SkipSpaces(s: string, i: nat): (j: nat)
    requires i <= |s|
    ensures i <= j <= |s|
    ensures forall k :: i <= k < j ==> IsSpace(s[k])
    ensures j < |s| ==> !IsSpace(s[j])
    decreases |s| - i
  {
    if i < |s| && IsSpace(s[i]) then SkipSpaces(s, i + 1) else i
  }

  /** The end of the run of digits that starts at `i`. */
  function DigitsEnd(s: string, i: nat): (j: nat)
    requires i <= |s|
    ensures i <= j <= |s|
    ensures forall k :: i <= k < j ==> IsDigit(s[k])
    ensures j < |s| ==> !IsDigit(s[j])
    decreases |s| - i
  {
    if i < |s| && IsDigit(s[i]) then DigitsEnd(s, i + 1) else i
  }

  lemma {:induction false} DigitsEndAll(s: string, i: nat)
    requires i <= |s|
    requires forall k :: i <= k < |s| ==> IsDigit(s[k])
    ensures DigitsEnd(s, i) == |s|
    decreases |s| - i
  {
    if i < |s| {
      DigitsEndAll(s, i + 1);
    }
  }

  lemma DigitsRun(s: string, i: nat)
    requires i <= |s|
    ensures AllDigits(s[i..DigitsEnd(s, i)])
  {
    var r := s[i..DigitsEnd(s, i)];
    forall k | 0 <= k < |r| ensures IsDigit(r[k]) {
      assert r[k] == s[i + k];
    }
  }

  /** Reading an `int` from position `i`, as `istream >> int` and `std::stoi`
      both do in the "C" locale: skip white space, an optional sign, then at
      least one decimal digit; the value must fit in 32 bits (otherwise the
      stream fails and `stoi` throws).  Gives the value and the position just
      after the last digit, or `None` when the read fails. */
  function ScanInt(s: string, i: nat): (r: Option<(Int32, nat)>)
    requires i <= |s|
    ensures r.Some? ==> i < r.value.1 <= |s| && IsDigit(s[r.value.1 - 1])
  {
    var j := SkipSpaces(s, i);
    var signed := j < |s| && (s[j] == '-' || s[j] == '+');
    var k := if signed then j + 1 else j;
    var e := DigitsEnd(s, k);
    if e == k then None
    else
      DigitsRun(s, k);
      var magnitude: int := DigitsValue(s[k..e]);
      var v: int := if signed && s[j] == '-' then -magnitude else magnitude;
      if MinInt <= v <= MaxInt then Some((v, e)) else None
  }

  /** `istream >> char`: skip white space, then take one character. */
  function ScanChar(s: string, i: nat): (r: Option<(char, nat)>)
    requires i <= |s|
    ensures r.Some? ==> i < r.value.1 <= |s| && r.value.0 == s[r.value.1 - 1]
    ensures r.Some? ==> !IsSpace(r.value.0)
    ensures r.None? ==> forall k :: i <= k < |s| ==> IsSpace(s[k])
  {
    var j := SkipSpaces(s, i);
    if j == |s| then None else Some((s[j], j + 1))
  }

  lemma ScanDigitsOf(s: string, k: nat, n: nat)
    requires k <= |s| && s[k..] == NatToString(n)
    ensures DigitsEnd(s, k) == |s| && DigitsValue(s[k..|s|]) == n
  {
    forall j | k <= j < |s| ensures IsDigit(s[j]) {
      assert s[j] == s[k..][j - k];
    }
    DigitsEndAll(s, k);
    assert s[k..|s|] == s[k..];
    DigitsValueOfNatToString(n);
  }

  lemma ScanIntOfNegative(s: string, n: nat)
    requires s == ['-'] + NatToString(n) && n <= -MinInt
    ensures ScanInt(s, 0) == Some((-(n as int), |s|))
  {
    assert SkipSpaces(s, 0) == 0;
    assert s[1..] == NatToString(n);
    ScanDigitsOf(s, 1, n);
  }

  lemma ScanIntOfNonNegative(s: string, n: nat)
    requires s == NatToString(n) && n <= MaxInt
    ensures ScanInt(s, 0) == Some((n, |s|))
  {
    assert !IsSpace(s[0]);
    assert SkipSpaces(s, 0) == 0;
    assert s[0..] == s;
    ScanDigitsOf(s, 0, n);
  }

  /** Reading back what `ostream << k` wrote gives `k` and consumes it all. */
  lemma ScanIntOfIntToString(k: Int32)
    ensures ScanInt(IntToString(k), 0) == Some((k, |IntToString(k)|))
  {
    if k < 0 {
      ScanIntOfNegative(IntToString(k), -(k as int));
    } else {
      ScanIntOfNonNegative(IntToString(k), k);
    }
  }

  // ---------------------------------------------------------------------
  // std::string operator< : byte-wise lexicographic order
  // ---------------------------------------------------------------------

  /** `a < b` on `std::string`: compares bytes as unsigned values; a proper
      prefix is smaller. */
  predicate LexLess(a: string, b: string)
    decreases |a|
  {
    if a == [] then b != []
    else if b == [] then false
    else if a[0] != b[0] then a[0] < b[0]
    else LexLess(a[1..], b[1..])
  }

  lemma {:induction false} LexLessIrreflexive(a: string)
    ensures !LexLess(a, a)
    decreases |a|
  {
    if a != [] {
      LexLessIrreflexive(a[1..]);
    }
  }

  lemma {:induction false} LexLessTransitive(a: string, b: string, c: string)
    requires LexLess(a, b) && LexLess(b, c)
    ensures LexLess(a, c)
    decreases |a|
  {
    if a != [] && b != [] && c != [] && a[0] == b[0] && b[0] == c[0] {
      LexLessTransitive(a[1..], b[1..], c[1..]);
    }
  }

  lemma {:induction false} LexLessTotal(a: string, b: string)
    requires a != b
    ensures LexLess(a, b) || LexLess(b, a)
    decreases |a|
  {
    if a != [] && b != [] && a[0] == b[0] {
      assert a == [a[0]] + a[1..] && b == [b[0]] + b[1..];
      LexLessTotal(a[1..], b[1..]);
    }
  }
}
