/** Entity names and ids (`EntityStoreValidation`), and the decimal spelling of ids. */
module EntityStoreValidation {
  import opened Wrappers
  import opened Sequences

  newtype int32 = x: int | -0x8000_0000 <= x < 0x8000_0000

  const INT_MAX: int := 0x7FFF_FFFF

  predicate IsDigit(c: char) {
    '0' <= c <= '9'
  }

  /** `std::isalnum` in the C locale. */
  predicate IsAlphanumeric(c: char) {
    IsDigit(c) || 'a' <= c <= 'z' || 'A' <= c <= 'Z'
  }

  predicate IsValidEntityName(name: string) {
    name != "" && forall i | 0 <= i < |name| :: IsAlphanumeric(name[i]) || name[i] == '_' || name[i] == '-'
  }

  /** A valid name has letters, digits, underscores and hyphens of ASCII only: no dot, slash or blank, so that it
      stays one component of a path and is neither "." nor "..". */
  lemma {:induction false} ValidNamesAre(name: string)
    ensures IsValidEntityName(name) <==>
            name != "" && forall i | 0 <= i < |name| ::
              var code := name[i] as int;
              48 <= code <= 57 || 65 <= code <= 90 || 97 <= code <= 122 || code == 95 || code == 45
    ensures IsValidEntityName(name) ==> '.' !in name && '/' !in name
  {
    assert '0' as int == 48 && '9' as int == 57 && 'A' as int == 65 && 'Z' as int == 90;
    assert 'a' as int == 97 && 'z' as int == 122 && '_' as int == 95 && '-' as int == 45;
  }

  // ---------- Decimal numbers ----------

  function Digit(d: nat): (c: char)
    requires d < 10
    ensures IsDigit(c) && DigitValue(c) == d
  {
    ('0' as int + d) as char
  }

  function DigitValue(c: char): (d: nat)
    requires IsDigit(c)
    ensures d < 10
  {
    c as int - '0' as int
  }

  predicate IsDigits(s: string) {
    forall i | 0 <= i < |s| :: IsDigit(s[i])
  }

  /** The number that a digit string spells. */
  function Value(s: string): nat
    requires IsDigits(s)
  {
    if s == "" then 0 else 10 * Value(s[..|s| - 1]) + DigitValue(s[|s| - 1])
  }

  /** The spelling of a number that is not negative. */
  function Decimal(n: nat): (s: string)
    ensures IsDigits(s) && s != ""
  {
    if n < 10 then [Digit(n)] else Decimal(n / 10) + [Digit(n % 10)]
  }

  /** `std::to_string` of any number. */
  function ToString(n: int): string {
    if n < 0 then "-" + Decimal(-n) else Decimal(n)
  }

  lemma {:induction false} ValueOfDecimal(n: nat)
    ensures Value(Decimal(n)) == n
  {
    if n >= 10 {
      ValueOfDecimal(n / 10);
      assert Decimal(n)[..|Decimal(n)| - 1] == Decimal(n / 10);
    }
  }

  /** Distinct ids have distinct spellings. */
  lemma {:induction false} DecimalInjective(a: nat, b: nat)
    ensures Decimal(a) == Decimal(b) <==> a == b
  {
    ValueOfDecimal(a);
    ValueOfDecimal(b);
  }

  lemma {:induction false} ValueGrows(s: string, k: nat)
    requires IsDigits(s) && k <= |s|
    ensures Value(s[..k]) <= Value(s)
    decreases |s|
  {
    if k == |s| {
      assert s[..k] == s;
    } else {
      ValueGrows(s[..|s| - 1], k);
      assert s[..|s| - 1][..k] == s[..k];
    }
  }

  // ---------- Ids ----------

  function LeadingDigits(s: string): (t: string)
    ensures IsDigits(t) && |t| <= |s| && t == s[..|t|] && (|t| < |s| ==> !IsDigit(s[|t|]))
  {
    if s != "" && IsDigit(s[0]) then [s[0]] + LeadingDigits(s[1..]) else ""
  }

  /** No number that the parser of ids forms on the way exceeds the range of `int`. */
  predicate InRange(segment: string) {
    Value(LeadingDigits(segment)) <= INT_MAX
  }

  /** The id that a segment spells, if it is a digit string. */
  function ParsedId(segment: string): Option<nat> {
    if segment != "" && IsDigits(segment) then Some(Value(segment)) else None
  }

  lemma {:induction false} LeadingDigitsOfDigits(s: string)
    ensures IsDigits(s) <==> LeadingDigits(s) == s
  {
    if |LeadingDigits(s)| < |s| {
      assert !IsDigit(s[|LeadingDigits(s)|]);
    }
  }

  /** `EntityStoreValidation::ParseId`. The accumulator is an `int`: that it does not leave its range is
      part of what is proved. */
  method ParseId(segment: string) returns (ok: bool, outId: int32)
    requires InRange(segment)
    ensures ok == ParsedId(segment).Some?
    ensures ok ==> outId as int == ParsedId(segment).value
  {
    outId := 0;
    if segment == "" {
      return false, 0;
    }
    LeadingDigitsOfDigits(segment);
    ghost var digits := LeadingDigits(segment);
    var result: int32 := 0;
    for i := 0 to |segment|
      invariant i <= |digits|
      invariant result as int == Value(digits[..i])
    {
      if !IsDigit(segment[i]) {
        return false, 0;
      }
      assert i < |digits| && segment[i] == digits[i];
      assert digits[..i + 1][..i] == digits[..i];
      ValueGrows(digits, i + 1);
      result := result * 10 + DigitValue(segment[i]) as int32;
    }
    assert digits[..|segment|] == segment;
    return true, result;
  }

  /** Every id survives being spelled and parsed. */
  lemma {:induction false} ParseSpelled(n: nat)
    requires n <= INT_MAX
    ensures InRange(Decimal(n)) && ParsedId(Decimal(n)) == Some(n)
  {
    ValueOfDecimal(n);
    LeadingDigitsOfDigits(Decimal(n));
  }

  /** Decimal notation: the digits are written as usual, the most significant first. */
  lemma {:induction false} DecimalNotation(n: nat)
    ensures n < 10 ==> Decimal(n) == ["0123456789"[n]]
    ensures n >= 10 ==> Decimal(n) == Decimal(n / 10) + Decimal(n % 10)
  {
    assert '0' as int == 48;
  }

  function Zeros(k: nat): string {
    seq(k, _ => '0')
  }

  lemma {:induction false} ValueBehindZeros(k: nat, s: string)
    requires IsDigits(s)
    ensures IsDigits(Zeros(k) + s) && Value(Zeros(k) + s) == Value(s)
    decreases |s|
  {
    if s == "" {
      ValueOfZeros(k);
      assert Zeros(k) + s == Zeros(k);
    } else {
      var init := s[..|s| - 1];
      ValueBehindZeros(k, init);
      assert (Zeros(k) + s)[..|Zeros(k) + s| - 1] == Zeros(k) + init;
    }
  }

  lemma {:induction false} ValueOfZeros(k: nat)
    ensures IsDigits(Zeros(k)) && Value(Zeros(k)) == 0
  {
    if k > 0 {
      ValueOfZeros(k - 1);
      assert Zeros(k)[..k - 1] == Zeros(k - 1);
    }
  }

  lemma {:induction false} SplitZeros(s: string) returns (k: nat)
    requires IsDigits(s)
    ensures s == Zeros(k) + StripZeros(s)
    decreases |s|
  {
    k := 0;
    if s != "" && s[0] == '0' {
      var more := SplitZeros(s[1..]);
      k := more + 1;
      assert Zeros(k) == "0" + Zeros(more) && s == "0" + s[1..];
      Associate("0", Zeros(more), StripZeros(s[1..]));
    } else {
      assert Zeros(0) + s == s;
    }
  }

  /** A segment is the id n exactly if it is the decimal notation of n behind any number of zeros. */
  lemma {:induction false} ParsedIdExactly(s: string, n: nat)
    ensures ParsedId(s) == Some(n) <==> exists k: nat :: s == Zeros(k) + Decimal(n)
  {
    if k: nat :| s == Zeros(k) + Decimal(n) {
      ValueBehindZeros(k, Decimal(n));
      ValueOfDecimal(n);
    }
    if ParsedId(s) == Some(n) {
      var k := SplitZeros(s);
      StripZerosIsCanonical(s);
      if n == 0 {
        assert s == Zeros(k) + "" == Zeros(k) && k > 0;
        assert Zeros(k) == Zeros(k - 1) + Decimal(0);
      }
    }
  }

  function StripZeros(s: string): string {
    if s != "" && s[0] == '0' then StripZeros(s[1..]) else s
  }

  lemma {:induction false} StripZerosSnoc(s: string, c: char)
    ensures StripZeros(s + [c]) == if StripZeros(s) == "" && c == '0' then "" else StripZeros(s) + [c]
    decreases |s|
  {
    if s == "" {
      assert s + [c] == [c];
    } else {
      assert (s + [c])[1..] == s[1..] + [c];
      StripZerosSnoc(s[1..], c);
    }
  }

  /** Without its leading zeros, a digit string is the spelling of its value. */
  lemma {:induction false} StripZerosIsCanonical(s: string)
    requires IsDigits(s)
    ensures StripZeros(s) == if Value(s) == 0 then "" else Decimal(Value(s))
    decreases |s|
  {
    if s != "" {
      var init, c := s[..|s| - 1], s[|s| - 1];
      StripZerosIsCanonical(init);
      StripZerosSnoc(init, c);
      assert s == init + [c] && Digit(DigitValue(c)) == c;
    }
  }

  /** Two accepted spellings are the same id exactly when they differ in leading zeros only. */
  lemma {:induction false} SameIdExactly(s: string, t: string)
    requires ParsedId(s).Some? && ParsedId(t).Some?
    ensures ParsedId(s) == ParsedId(t) <==> StripZeros(s) == StripZeros(t)
  {
    StripZerosIsCanonical(s);
    StripZerosIsCanonical(t);
    if Value(s) != 0 && Value(t) != 0 {
      DecimalInjective(Value(s), Value(t));
    }
  }
}
