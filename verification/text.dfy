/** String helpers standing in for the JavaScript built-ins the pages use. */
module Text {
  import opened Wrappers

  /** A character matched by `\s`: space, tab, line feed, vertical tab, form feed, carriage
      return, no-break space, the Ogham space mark, the spaces U+2000 to U+200A, the line
      and paragraph separators, the narrow no-break and medium mathematical spaces, the
      ideographic space and the byte order mark. */
  predicate IsSpace(c: char) {
    if c < '\U{00A0}' then c == ' ' || '\t' <= c <= '\r'
    else
      || c == '\U{00A0}' || c == '\U{1680}' || '\U{2000}' <= c <= '\U{200A}'
      || c == '\U{2028}' || c == '\U{2029}' || c == '\U{202F}' || c == '\U{205F}'
      || c == '\U{3000}' || c == '\U{FEFF}'
  }

  /** A character matched by `\d`. */
  predicate IsDigit(c: char) {
    '0' <= c <= '9'
  }

  /** The string contains no `\s` character. */
  predicate NoSpace(s: string) {
    forall k :: 0 <= k < |s| ==> !IsSpace(s[k])
  }

  /** The string is empty or only whitespace (`!raw || raw.trim() === ''`). */
  predicate IsBlank(s: string) {
    forall k :: 0 <= k < |s| ==> IsSpace(s[k])
  }

  function TrimStart(s: string): (r: string)
    ensures |r| <= |s| && r == s[|s| - |r|..]
    ensures forall k :: 0 <= k < |s| - |r| ==> IsSpace(s[k])
    ensures r != [] ==> !IsSpace(r[0])
  {
    if s != [] && IsSpace(s[0]) then
      var r := TrimStart(s[1..]);
      assert s[1..][|s| - 1 - |r|..] == s[|s| - |r|..];
      assert forall k :: 1 <= k < |s| - |r| ==> s[k] == s[1..][k - 1];
      r
    else s
  }

  function TrimEnd(s: string): (r: string)
    ensures |r| <= |s| && r == s[..|r|]
    ensures forall k :: |r| <= k < |s| ==> IsSpace(s[k])
    ensures r != [] ==> !IsSpace(r[|r| - 1])
  {
    if s != [] && IsSpace(s[|s| - 1]) then
      var r := TrimEnd(s[..|s| - 1]);
      assert s[..|s| - 1][..|r|] == s[..|r|];
      assert forall k :: |r| <= k < |s| - 1 ==> s[k] == s[..|s| - 1][k];
      r
    else s
  }

  /** `String.prototype.trim`: the longest infix that neither starts nor ends with whitespace. */
  function Trim(s: string): (r: string)
    ensures r == [] <==> IsBlank(s)
    ensures IsTrimmed(r)
    ensures exists i :: TrimmedAt(s, r, i)
  {
    var a := TrimStart(s);
    var r := TrimEnd(a);
    TrimInfix(s, a, r);
    TrimBlank(s);
    r
  }

  /** Whitespace-free ends cut from both sides leave the infix after the leading whitespace. */
  lemma {:induction false} TrimInfix(s: string, a: string, r: string)
    requires |a| <= |s| && a == s[|s| - |a|..]
    requires forall k :: 0 <= k < |s| - |a| ==> IsSpace(s[k])
    requires a != [] ==> !IsSpace(a[0])
    requires |r| <= |a| && r == a[..|r|]
    requires forall k :: |r| <= k < |a| ==> IsSpace(a[k])
    requires r != [] ==> !IsSpace(r[|r| - 1])
    ensures TrimmedAt(s, r, |s| - |a|)
    ensures IsTrimmed(r)
  {
    var i := |s| - |a|;
    assert r == s[i..i + |r|];
    forall k | i + |r| <= k < |s| ensures IsSpace(s[k]) {
      assert s[k] == a[k - i];
    }
    if r != [] {
      assert r[0] == a[0];
    }
  }

  /** Trimming gives the empty string exactly on blank input. */
  lemma {:induction false} TrimBlank(s: string)
    ensures TrimEnd(TrimStart(s)) == [] <==> IsBlank(s)
  {
    var a := TrimStart(s);
    var r := TrimEnd(a);
    if a != [] {
      assert a[0] == s[|s| - |a|];
      assert r != [] && !IsBlank(s);
    } else {
      assert r == [];
      assert IsBlank(s);
    }
  }

  /** `r` is the infix of `s` at `i` and everything outside it is whitespace. */
  predicate TrimmedAt(s: string, r: string, i: int) {
    && 0 <= i <= |s| - |r|
    && r == s[i..i + |r|]
    && (forall k :: 0 <= k < i ==> IsSpace(s[k]))
    && (forall k :: i + |r| <= k < |s| ==> IsSpace(s[k]))
  }

  /** A string with no whitespace at all is its own trim. */
  lemma TrimNoSpace(s: string)
    requires NoSpace(s)
    ensures Trim(s) == s
  {
    assert TrimStart(s) == s;
    assert TrimEnd(s) == s;
  }

  /** Neither starts nor ends with whitespace. */
  predicate IsTrimmed(s: string) {
    s == [] || (!IsSpace(s[0]) && !IsSpace(s[|s| - 1]))
  }

  /** A string that neither starts nor ends with whitespace is its own trim; in
      particular trimming twice is trimming once. */
  lemma {:induction false} TrimOfTrimmed(s: string)
    requires IsTrimmed(s)
    ensures Trim(s) == s
  {
    if s != [] {
      assert TrimStart(s) == s;
      assert TrimEnd(s) == s;
    }
  }

  /** Trimming adds no character. */
  lemma {:induction false} TrimKeepsAbsent(s: string, c: char)
    requires c !in s
    ensures c !in Trim(s)
  {
    var i :| TrimmedAt(s, Trim(s), i);
  }

  /** ASCII `toLowerCase` of one character. */
  function LowerChar(c: char): char {
    if 'A' <= c <= 'Z' then (c as int + 32) as char else c
  }

  function Lower(s: string): (r: string)
    ensures |r| == |s|
  {
    seq(|s|, k requires 0 <= k < |s| => LowerChar(s[k]))
  }

  /** Index of the last occurrence of `c`. */
  function LastIndexOf(s: string, c: char): (r: Option<nat>)
    ensures r.Some? ==> r.value < |s| && s[r.value] == c && c !in s[r.value + 1..]
    ensures r.None? ==> c !in s
  {
    if s == [] then None
    else if s[|s| - 1] == c then Some(|s| - 1)
    else
      var r := LastIndexOf(s[..|s| - 1], c);
      assert r.Some? ==> s[r.value + 1..] == s[..|s| - 1][r.value + 1..] + [s[|s| - 1]];
      assert r.None? ==> s == s[..|s| - 1] + [s[|s| - 1]];
      r
  }

  /** `s.split(sep)` for a one-character separator. */
  function Split(s: string, sep: char): (parts: seq<string>)
    ensures |parts| >= 1
    ensures forall k :: 0 <= k < |parts| ==> sep !in parts[k]
    decreases |s|
  {
    match LastIndexOf(s, sep)
    case None => [s]
    case Some(i) => Split(s[..i], sep) + [s[i + 1..]]
  }

  /** `parts.join(sep)` */
  function Join(parts: seq<string>, sep: char): string {
    if |parts| == 0 then ""
    else if |parts| == 1 then parts[0]
    else Join(parts[..|parts| - 1], sep) + [sep] + parts[|parts| - 1]
  }

  lemma JoinSnoc(parts: seq<string>, p: string, sep: char)
    requires parts != []
    ensures Join(parts + [p], sep) == Join(parts, sep) + [sep] + p
  {
    assert (parts + [p])[..|parts|] == parts;
  }

  /** Joining the pieces of a split gives back the string. */
  lemma {:induction false} JoinSplit(s: string, sep: char)
    ensures Join(Split(s, sep), sep) == s
    decreases |s|
  {
    match LastIndexOf(s, sep)
    case None =>
    case Some(i) =>
      JoinSplit(s[..i], sep);
      JoinSnoc(Split(s[..i], sep), s[i + 1..], sep);
      assert s == s[..i] + [sep] + s[i + 1..];
  }

  lemma {:induction false} LastIndexOfJoin(a: string, sep: char, b: string)
    requires sep !in b
    ensures LastIndexOf(a + [sep] + b, sep) == Some(|a|)
    decreases |b|
  {
    if b != [] {
      var s := a + [sep] + b;
      assert s[..|s| - 1] == a + [sep] + b[..|b| - 1];
      LastIndexOfJoin(a, sep, b[..|b| - 1]);
    }
  }

  /** Splitting a join of separator-free pieces gives back the pieces. */
  lemma {:induction false} SplitJoin(parts: seq<string>, sep: char)
    requires |parts| >= 1
    requires forall k :: 0 <= k < |parts| ==> sep !in parts[k]
    ensures Split(Join(parts, sep), sep) == parts
    decreases |parts|
  {
    if |parts| > 1 {
      var init := parts[..|parts| - 1];
      var last := parts[|parts| - 1];
      assert parts == init + [last];
      SplitJoin(init, sep);
      LastIndexOfJoin(Join(init, sep), sep, last);
      var s := Join(parts, sep);
      assert s[..|Join(init, sep)|] == Join(init, sep);
      assert s[|Join(init, sep)| + 1..] == last;
    }
  }

  /** The piece after the last `sep` (`parts[parts.length - 1]`): a separator-free suffix. */
  function LastSegment(s: string, sep: char): (r: string)
    ensures |r| <= |s| && r == s[|s| - |r|..]
    ensures sep !in r
    ensures |r| < |s| ==> s[|s| - |r| - 1] == sep
  {
    match LastIndexOf(s, sep)
    case None => s
    case Some(i) => s[i + 1..]
  }

  lemma LastSegmentAfter(a: string, sep: char, b: string)
    requires sep !in b
    ensures LastSegment(a + [sep] + b, sep) == b
  {
    LastIndexOfJoin(a, sep, b);
    assert (a + [sep] + b)[|a| + 1..] == b;
  }

  /** `s.replace(/\D/g, '')`: the digits of `s`, in order. */
  function DigitsOnly(s: string): (r: string)
    ensures forall k :: 0 <= k < |r| ==> IsDigit(r[k])
    ensures r == [] <==> forall k :: 0 <= k < |s| ==> !IsDigit(s[k])
    ensures |r| <= |s|
  {
    if s == [] then ""
    else
      assert s == [s[0]] + s[1..];
      (if IsDigit(s[0]) then [s[0]] else []) + DigitsOnly(s[1..])
  }

  lemma {:induction false} DigitsOnlyOfDigits(s: string)
    requires forall k :: 0 <= k < |s| ==> IsDigit(s[k])
    ensures DigitsOnly(s) == s
  {
    if s != [] {
      DigitsOnlyOfDigits(s[1..]);
    }
  }

  /** Shared tail of `formatUploaderId` and `extractNumericTail`:
      the digits of the last `_`-piece (the whole string when that piece is empty),
      or the piece itself when it has no digit. */
  function NumericTail(raw: string): (r: string)
    ensures raw != [] ==> r != []
    ensures (forall k :: 0 <= k < |r| ==> IsDigit(r[k])) || (forall k :: 0 <= k < |r| ==> !IsDigit(r[k]))
  {
    var seg := LastSegment(raw, '_');
    var tail := if seg == [] then raw else seg;
    var digits := DigitsOnly(tail);
    if digits != [] then digits else tail
  }

  /** Without the separator, the last segment is the whole string. */
  lemma {:induction false} LastSegmentOfPlain(s: string, sep: char)
    requires sep !in s
    ensures LastSegment(s, sep) == s
  {
  }

  /** Taking the numeric tail of a numeric tail changes nothing. */
  lemma {:induction false} NumericTailIdempotent(raw: string)
    ensures NumericTail(NumericTail(raw)) == NumericTail(raw)
  {
    var seg := LastSegment(raw, '_');
    var tail := if seg == [] then raw else seg;
    var digits := DigitsOnly(tail);
    if digits != [] {
      assert '_' !in digits by {
        assert forall k :: 0 <= k < |digits| ==> IsDigit(digits[k]);
      }
      LastSegmentOfPlain(digits, '_');
      DigitsOnlyOfDigits(digits);
    } else if seg != [] {
      LastSegmentOfPlain(seg, '_');
    }
  }


  function DigitChar(d: nat): (c: char)
    requires d < 10
    ensures IsDigit(c)
  {
    ('0' as int + d) as char
  }

  /** `String(n)` for a natural number. */
  function NatToString(n: nat): (r: string)
    ensures r != []
    ensures forall k :: 0 <= k < |r| ==> IsDigit(r[k])
  {
    if n < 10 then [DigitChar(n)] else NatToString(n / 10) + [DigitChar(n % 10)]
  }

  /** `String(n)` for an integer. */
  function IntToString(n: int): (r: string)
    ensures r != []
    ensures forall k :: 0 <= k < |r| ==> IsDigit(r[k]) || (k == 0 && r[k] == '-')
  {
    if n < 0 then "-" + NatToString(-n) else NatToString(n)
  }
}
