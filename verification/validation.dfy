/** The form validators: e-mail shape, 9-digit national id, national-id uniqueness. */
module Validation {
  import opened Wrappers
  import opened Text
  import opened Records

  /** A character of the class `[^\s@]`. */
  predicate IsEmailChar(c: char) {
    !IsSpace(c) && c != '@'
  }

  predicate AllEmailChars(s: string) {
    forall k :: 0 <= k < |s| ==> IsEmailChar(s[k])
  }

  /** `s` splits as `A+ '@' A+ '.' A+` with `A = [^\s@]`, the '@' at `i` and the '.' at `j`. */
  ghost predicate EmailSplitAt(s: string, i: int, j: int) {
    && 0 < i && i + 1 < j < |s| - 1
    && s[i] == '@' && s[j] == '.'
    && forall k :: 0 <= k < |s| && k != i ==> IsEmailChar(s[k])
  }

  /** The language of `/^[^\s@]+@[^\s@]+\.[^\s@]+$/`. */
  ghost predicate MatchesEmailPattern(s: string) {
    exists i, j :: EmailSplitAt(s, i, j)
  }

  /** A '.' with at least one character on each side. */
  predicate HasInnerDot(d: string) {
    exists j :: 0 < j < |d| - 1 && d[j] == '.'
  }

  /** `isValidEmail`: split at the '@', then check both sides. */
  function IsValidEmail(s: string): (r: bool)
    ensures r <==> MatchesEmailPattern(s)
  {
    match LastIndexOf(s, '@')
    case None =>
      assert forall i, j :: !EmailSplitAt(s, i, j);
      false
    case Some(i) =>
      var local, domain := s[..i], s[i + 1..];
      var ok := local != [] && AllEmailChars(local) && AllEmailChars(domain) && HasInnerDot(domain);
      assert ok ==> MatchesEmailPattern(s) by {
        if ok {
          var j :| 0 < j < |domain| - 1 && domain[j] == '.';
          assert forall k :: 0 <= k < |s| && k != i ==> (k < i ==> s[k] == local[k]) && (k > i ==> s[k] == domain[k - i - 1]);
          assert EmailSplitAt(s, i, i + 1 + j);
        }
      }
      assert MatchesEmailPattern(s) ==> ok by {
        if MatchesEmailPattern(s) {
          var i', j :| EmailSplitAt(s, i', j);
          assert !IsEmailChar(s[i]);
          assert i' == i;
          assert domain[j - i - 1] == '.';
        }
      }
      ok
  }

  /** An address is valid exactly when it is `local@domain` with a non-empty local part,
      no whitespace or second '@' on either side, and an inner '.' in the domain. */
  lemma ValidEmailParts(local: string, domain: string)
    ensures IsValidEmail(local + "@" + domain)
        <==> local != [] && AllEmailChars(local) && AllEmailChars(domain) && HasInnerDot(domain)
  {
    var s := local + "@" + domain;
    if AllEmailChars(domain) {
      LastIndexOfJoin(local, '@', domain);
      assert s[..|local|] == local && s[|local| + 1..] == domain;
    } else {
      var k :| 0 <= k < |domain| && !IsEmailChar(domain[k]);
      forall i, j ensures !EmailSplitAt(s, i, j) {
        assert s[|local|] == '@';
        assert s[|local| + 1 + k] == domain[k];
      }
    }
  }

  /** `isValidNationalId`: `/^\d{9}$/`. */
  function IsValidNationalId(s: string): (r: bool)
    ensures r <==> |s| == 9 && DigitsOnly(s) == s
  {
    var ok := |s| == 9 && forall k :: 0 <= k < |s| ==> IsDigit(s[k]);
    if ok then DigitsOnlyOfDigits(s); true else false
  }

  /** Nine-digit numbers (the range `100000000 + random * 900000000` draws from) print as
      valid national ids. */
  lemma NineDigitNumberIsValidId(n: nat)
    requires 100000000 <= n < 1000000000
    ensures IsValidNationalId(NatToString(n))
  {
    assert Pow10(8) == 100000000 && Pow10(9) == 1000000000;
    NatToStringLength(n, 9);
    DigitsOnlyOfDigits(NatToString(n));
  }

  /** A number in `[10^(d-1), 10^d)` has `d` decimal digits. */
  lemma {:induction false} NatToStringLength(n: nat, d: nat)
    requires d >= 1 && Pow10(d - 1) <= n < Pow10(d)
    ensures |NatToString(n)| == d
    decreases d
  {
    if d > 1 {
      NatToStringLength(n / 10, d - 1);
    }
  }

  function Pow10(d: nat): nat {
    if d == 0 then 1 else 10 * Pow10(d - 1)
  }

  /** `uniqueByNationalId`: `!students.some(s => s.nationalId === n)`. */
  function UniqueByNationalId(students: seq<Student>, n: string): (r: bool)
    ensures r <==> forall k :: 0 <= k < |students| ==> students[k].nationalId != n
  {
    if students == [] then true
    else students[0].nationalId != n && UniqueByNationalId(students[1..], n)
  }

  /** Once a student with national id `n` is in the list, `n` is no longer unique:
      the basis of the duplicate guard when adding students. */
  lemma {:induction false} NotUniqueAfterAppend(students: seq<Student>, s: Student)
    ensures !UniqueByNationalId(students + [s], s.nationalId)
  {
    assert (students + [s])[|students|] == s;
  }
}
