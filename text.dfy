/** The pieces of Python's `str` behaviour the CSM codec relies on: substring
    search, `str.split` with a separator, slicing, `str.isdigit`, `int()`,
    `str(int)`, and the syntax `float()` accepts. */
module Text {
  import opened Wrappers

  // ---------------------------------------------------------------------------
  // Substring search
  // ---------------------------------------------------------------------------

  /** `sep` occurs in `s` starting at index `j`. */
  predicate OccursAt(s: string, sep: string, j: nat) {
    j + |sep| <= |s| && s[j..j + |sep|] == sep
  }

  /** `sep` does not occur anywhere in `s` (Python: `sep not in s`). */
  predicate Free(s: string, sep: string) {
    forall j: nat | j <= |s| :: !OccursAt(s, sep, j)
  }

  /** No character of `s` is in `bad`. */
  predicate Avoids(s: string, bad: set<char>) {
    forall c | c in s :: c !in bad
  }

  /** The leftmost occurrence of `sep` in `s` at or after index `i`. */
  function FindFrom(s: string, sep: string, i: nat): (r: Option<nat>)
    ensures r.Some? ==> i <= r.value && OccursAt(s, sep, r.value)
    ensures r.Some? ==> forall j: nat | i <= j < r.value :: !OccursAt(s, sep, j)
    ensures r.None? ==> forall j: nat | i <= j :: !OccursAt(s, sep, j)
    decreases |s| - i
  {
    if i + |sep| > |s| then None
    else if OccursAt(s, sep, i) then Some(i)
    else FindFrom(s, sep, i + 1)
  }

  /** Python's `sub in s`. */
  function Contains(s: string, sub: string): (r: bool)
    ensures r <==> exists j: nat :: OccursAt(s, sub, j)
  {
    FindFrom(s, sub, 0).Some?
  }

  /** Python's `s.split(sep)` for a non-empty separator: the pieces between
      the leftmost non-overlapping occurrences of `sep`. */
  function Split(s: string, sep: string): (parts: seq<string>)
    requires |sep| > 0
    ensures |parts| >= 1
    decreases |s|
  {
    match FindFrom(s, sep, 0)
    case None => [s]
    case Some(i) => [s[..i]] + Split(s[i + |sep|..], sep)
  }

  /** `sep.join(parts)`. */
  function Join(sep: string, parts: seq<string>): string
    decreases |parts|
  {
    if |parts| == 0 then ""
    else if |parts| == 1 then parts[0]
    else parts[0] + sep + Join(sep, parts[1..])
  }

  /** Python's `s[1:-1]`: drops the first and the last character. */
  function Inner(s: string): (r: string)
    ensures |s| >= 2 ==> r == s[1..|s| - 1]
    ensures |s| < 2 ==> r == ""
  {
    if |s| < 2 then "" else s[1..|s| - 1]
  }

  /** Python's `s[:-1]`: drops the last character, if any. */
  function DropLast(s: string): (r: string)
    ensures |s| > 0 ==> r + [s[|s| - 1]] == s
    ensures |s| == 0 ==> r == ""
  {
    if |s| == 0 then "" else s[..|s| - 1]
  }

  /** Number of occurrences of the character `c` in `s`. */
  function Count(s: string, c: char): nat
    decreases |s|
  {
    if |s| == 0 then 0 else (if s[0] == c then 1 else 0) + Count(s[1..], c)
  }

  // ---------------------------------------------------------------------------
  // Lemmas about search and split
  // ---------------------------------------------------------------------------

  /** The first occurrence is the one `FindFrom` reports. */
  lemma FindIsFirst(s: string, sep: string, p: nat)
    requires OccursAt(s, sep, p)
    requires forall j: nat | j < p :: !OccursAt(s, sep, j)
    ensures FindFrom(s, sep, 0) == Some(p)
  {
  }

  /** A string without the separator splits into itself. */
  lemma SplitFree(s: string, sep: string)
    requires |sep| > 0 && Free(s, sep)
    ensures Split(s, sep) == [s]
  {
  }

  /** A string none of whose characters starts the separator does not contain it. */
  lemma AvoidsIsFree(s: string, sep: string)
    requires |sep| > 0 && sep[0] !in s
    ensures Free(s, sep)
  {
    forall j: nat | j + |sep| <= |s|
      ensures s[j..j + |sep|][0] == s[j] && s[j] in s
    {
    }
  }

  /** No occurrence of `sep` in `a + sep + b` starts inside `a`. */
  ghost predicate NoEarlyMatch(a: string, sep: string, b: string) {
    forall j: nat | j < |a| :: !OccursAt(a + sep + b, sep, j)
  }

  /** If `a` has no character equal to the separator's first one, no
      occurrence starts inside `a`. */
  lemma NoEarlyMatchByFirst(a: string, sep: string, b: string)
    requires |sep| > 0 && sep[0] !in a
    ensures NoEarlyMatch(a, sep, b)
  {
    var t := a + sep + b;
    forall j: nat | j < |a|
      ensures t[j] == a[j] && a[j] in a
      ensures j + |sep| <= |t| ==> t[j..j + |sep|][0] == t[j]
    {
    }
  }

  /** An occurrence that ends inside `m` is an occurrence in `m + t` and back. */
  lemma OccursInPrefix(m: string, t: string, sep: string, j: nat)
    requires j + |sep| <= |m|
    ensures OccursAt(m + t, sep, j) == OccursAt(m, sep, j)
  {
    assert (m + t)[j..j + |sep|] == m[j..j + |sep|];
  }

  /** Occurrences in a suffix are the occurrences in the whole string, shifted. */
  lemma OccursShift(s: string, d: nat, sep: string, j: nat)
    requires d <= |s|
    ensures OccursAt(s[d..], sep, j) == OccursAt(s, sep, j + d)
  {
    if j + d + |sep| <= |s| {
      assert s[d..][j..j + |sep|] == s[j + d..j + d + |sep|];
    }
  }

  /** If `a` is free of the separator and ends with a character that is not
      in it, no occurrence starts inside `a`. */
  lemma NoEarlyMatchByLast(a: string, sep: string, b: string)
    requires |sep| > 0 && Free(a, sep)
    requires |a| > 0 ==> a[|a| - 1] !in sep
    ensures NoEarlyMatch(a, sep, b)
  {
    var t := a + sep + b;
    forall j: nat | j < |a|
      ensures !OccursAt(t, sep, j)
    {
      if j + |sep| <= |a| {
        OccursInPrefix(a, sep + b, sep, j);
        assert a + sep + b == a + (sep + b);
      } else if j + |sep| <= |t| {
        var k := |a| - 1 - j;
        assert t[j..j + |sep|][k] == a[|a| - 1];
        assert sep[k] in sep;
      }
    }
  }

  /** Splitting `a + sep + b` when nothing matches early peels `a` off. */
  lemma {:induction false} SplitLead(a: string, sep: string, b: string)
    requires |sep| > 0 && NoEarlyMatch(a, sep, b)
    ensures Split(a + sep + b, sep) == [a] + Split(b, sep)
  {
    var s := a + sep + b;
    assert s[|a|..|a| + |sep|] == sep;
    FindIsFirst(s, sep, |a|);
    assert s[..|a|] == a;
    assert s[|a| + |sep|..] == b;
  }

  /** Python's split on a joined list gives the list back, when no piece
      contains the separator's first character. */
  lemma {:induction false} SplitJoin(sep: string, parts: seq<string>)
    requires |sep| > 0 && |parts| >= 1
    requires forall p | p in parts :: sep[0] !in p
    ensures Split(Join(sep, parts), sep) == parts
  {
    if |parts| == 1 {
      assert parts[0] in parts;
      AvoidsIsFree(parts[0], sep);
      SplitFree(parts[0], sep);
    } else {
      assert parts[0] in parts;
      NoEarlyMatchByFirst(parts[0], sep, Join(sep, parts[1..]));
      SplitLead(parts[0], sep, Join(sep, parts[1..]));
      forall p | p in parts[1..] ensures sep[0] !in p { assert p in parts; }
      SplitJoin(sep, parts[1..]);
    }
  }

  /** A joined list avoids every character that its pieces and the separator avoid. */
  lemma {:induction false} JoinAvoids(sep: string, parts: seq<string>, bad: set<char>)
    requires Avoids(sep, bad)
    requires forall p | p in parts :: Avoids(p, bad)
    ensures Avoids(Join(sep, parts), bad)
  {
    if |parts| > 1 {
      assert parts[0] in parts;
      forall p | p in parts[1..] ensures Avoids(p, bad) { assert p in parts; }
      JoinAvoids(sep, parts[1..], bad);
    } else if |parts| == 1 {
      assert parts[0] in parts;
    }
  }

  /** Gluing two separator-free strings with a character foreign to the
      separator gives a separator-free string. */
  lemma GlueFree(a: string, c: char, b: string, sep: string)
    requires Free(a, sep) && Free(b, sep) && c !in sep
    ensures Free(a + [c] + b, sep)
  {
    var s := a + [c] + b;
    forall j: nat | j <= |s|
      ensures !OccursAt(s, sep, j)
    {
      if j + |sep| <= |a| {
        OccursInPrefix(a, [c] + b, sep, j);
        assert a + [c] + b == a + ([c] + b);
      } else if j <= |a| && j + |sep| <= |s| {
        var k := |a| - j;
        assert s[j..j + |sep|][k] == c;
        assert sep[k] in sep;
      } else if j > |a| {
        var i: nat := j - |a| - 1;
        OccursShift(s, |a| + 1, sep, i);
        assert s[|a| + 1..] == b;
      }
    }
  }

  /** A string too short to hold the separator is free of it. */
  lemma ShortIsFree(s: string, sep: string)
    requires |s| < |sep|
    ensures Free(s, sep)
  {
  }

  /** No occurrence of `sep` in `m + sep` straddles the end of `m`. */
  ghost predicate NoStraddle(m: string, sep: string) {
    forall j: nat | j < |m| < j + |sep| :: !OccursAt(m + sep, sep, j)
  }

  /** With no occurrence in `m` and none straddling, the first occurrence in
      `m + sep` is the appended one. */
  lemma FindAppendedSep(m: string, sep: string)
    requires FindFrom(m, sep, 0).None? && NoStraddle(m, sep)
    ensures FindFrom(m + sep, sep, 0) == Some(|m|)
  {
    var s := m + sep;
    forall j: nat | j + |sep| <= |m|
      ensures !OccursAt(s, sep, j)
    {
      OccursInPrefix(m, sep, sep, j);
    }
    assert s[|m|..|m| + |sep|] == sep;
    FindIsFirst(s, sep, |m|);
  }

  /** An occurrence inside `m` is still the first one in `m + sep`. */
  lemma FindBeforeSep(m: string, sep: string, i: nat)
    requires FindFrom(m, sep, 0) == Some(i)
    ensures FindFrom(m + sep, sep, 0) == Some(i)
  {
    var s := m + sep;
    forall j: nat | j <= i
      ensures OccursAt(s, sep, j) == OccursAt(m, sep, j)
    {
      OccursInPrefix(m, sep, sep, j);
    }
    FindIsFirst(s, sep, i);
  }

  /** The no-straddle condition survives dropping a prefix. */
  lemma NoStraddleSuffix(m: string, sep: string, d: nat)
    requires d <= |m| && NoStraddle(m, sep)
    ensures NoStraddle(m[d..], sep)
  {
    var s := m + sep;
    assert s[d..] == m[d..] + sep;
    forall j: nat | j < |m[d..]| < j + |sep|
      ensures !OccursAt(m[d..] + sep, sep, j)
    {
      OccursShift(s, d, sep, j);
    }
  }

  /** One step of `Split`: the piece before the first occurrence, then the
      rest. */
  lemma SplitAt(s: string, sep: string, i: nat)
    requires |sep| > 0 && FindFrom(s, sep, 0) == Some(i)
    ensures Split(s, sep) == [s[..i]] + Split(s[i + |sep|..], sep)
  {
  }

  /** Appending one separator to a message adds exactly one trailing empty
      piece, provided no occurrence straddles the old end. */
  lemma {:induction false} SplitAppendSep(m: string, sep: string)
    requires |sep| > 0 && NoStraddle(m, sep)
    ensures Split(m + sep, sep) == Split(m, sep) + [""]
    decreases |m|
  {
    var s := m + sep;
    match FindFrom(m, sep, 0)
    case None =>
      FindAppendedSep(m, sep);
      SplitAt(s, sep, |m|);
      assert s[..|m|] == m;
      assert s[|m| + |sep|..] == [];
      assert FindFrom([], sep, 0).None?;
      assert Split([], sep) == [""];
      assert Split(m, sep) == [m];
    case Some(i) =>
      FindBeforeSep(m, sep, i);
      var d := i + |sep|;
      assert s[..i] == m[..i];
      assert s[d..] == m[d..] + sep;
      NoStraddleSuffix(m, sep, d);
      SplitAppendSep(m[d..], sep);
      SplitAt(s, sep, i);
      SplitAt(m, sep, i);
      var rest := Split(m[d..], sep);
      assert Split(s, sep) == [m[..i]] + (rest + [""]);
      assert Split(m, sep) == [m[..i]] + rest;
  }

  lemma {:induction false} CountAppend(a: string, b: string, c: char)
    ensures Count(a + b, c) == Count(a, c) + Count(b, c)
    decreases |a|
  {
    if |a| == 0 {
      assert a + b == b;
    } else {
      assert (a + b)[0] == a[0];
      assert (a + b)[1..] == a[1..] + b;
      CountAppend(a[1..], b, c);
    }
  }

  lemma {:induction false} CountZero(s: string, c: char)
    requires forall j | 0 <= j < |s| :: s[j] != c
    ensures Count(s, c) == 0
    decreases |s|
  {
    if |s| > 0 {
      CountZero(s[1..], c);
    }
  }

  /** Splitting on one character yields one piece more than the number of
      times it occurs: Python's `a, b = s.split(c)` succeeds exactly when
      `c` occurs once. */
  lemma {:induction false} SplitCharCount(s: string, c: char)
    ensures |Split(s, [c])| == Count(s, c) + 1
    decreases |s|
  {
    match FindFrom(s, [c], 0)
    case None =>
      forall j | 0 <= j < |s| ensures s[j] != c {
        assert !OccursAt(s, [c], j);
        assert s[j..j + 1] == [s[j]];
      }
      CountZero(s, c);
    case Some(i) =>
      assert s[i..i + 1][0] == s[i] == c;
      assert s == s[..i] + [c] + s[i + 1..];
      forall j | 0 <= j < i ensures s[..i][j] != c {
        assert !OccursAt(s, [c], j);
        assert s[j..j + 1] == [s[j]];
      }
      CountZero(s[..i], c);
      CountAppend(s[..i], [c] + s[i + 1..], c);
      CountAppend([c], s[i + 1..], c);
      assert [c][1..] == [];
      assert s == s[..i] + ([c] + s[i + 1..]);
      assert Count(s, c) == Count(s[i + 1..], c) + 1;
      assert Split(s, [c]) == [s[..i]] + Split(s[i + 1..], [c]);
      SplitCharCount(s[i + 1..], c);
  }

  // ---------------------------------------------------------------------------
  // Digits and integers
  // ---------------------------------------------------------------------------

  predicate IsDigit(c: char) { '0' <= c <= '9' }

  predicate AllDigits(s: string) { forall i | 0 <= i < |s| :: IsDigit(s[i]) }

  /** Python's `s.isdigit()` on ASCII text: non-empty and all digits. */
  predicate IsDigits(s: string) { |s| > 0 && AllDigits(s) }

  /** The decimal value of a digit string, read left to right. */
  function DigitsValue(s: string): nat
    requires AllDigits(s)
    decreases |s|
  {
    if |s| == 0 then 0
    else DigitsValue(s[..|s| - 1]) * 10 + (s[|s| - 1] as int - '0' as int)
  }

  function DigitChar(d: nat): (c: char)
    requires d < 10
    ensures IsDigit(c) && c as int - '0' as int == d
  {
    (d + '0' as int) as char
  }

  /** Python's `str(n)` for a natural number. */
  function NatToString(n: nat): string
    decreases n
  {
    if n < 10 then [DigitChar(n)] else NatToString(n / 10) + [DigitChar(n % 10)]
  }

  /** Python's `str(n)` for an integer. */
  function IntToString(n: int): (r: string)
    ensures n >= 0 ==> IsDigits(r) && DigitsValue(r) == n
    ensures n < 0 ==> |r| >= 2 && r[0] == '-' && IsDigits(r[1..]) && DigitsValue(r[1..]) == -n
  {
    var m: nat := if n < 0 then -n else n;
    NatToStringValue(m);
    if n < 0 then
      assert ("-" + NatToString(m))[1..] == NatToString(m);
      "-" + NatToString(m)
    else NatToString(m)
  }

  /** Python's `int(s)` on a string of ASCII digits with an optional sign;
      `None` stands for the `ValueError` it raises otherwise. */
  function ParseInt(s: string): (r: Option<int>)
    ensures r.Some? <==> IsDigits(s) || (|s| > 0 && (s[0] == '-' || s[0] == '+') && IsDigits(s[1..]))
    ensures IsDigits(s) ==> r == Some(DigitsValue(s))
    ensures r.Some? && |s| > 0 && s[0] == '-' ==> r.value <= 0
    ensures r.Some? && |s| > 0 && s[0] != '-' ==> r.value >= 0
  {
    if |s| > 0 && s[0] == '-' && IsDigits(s[1..]) then Some(-(DigitsValue(s[1..]) as int))
    else if |s| > 0 && s[0] == '+' && IsDigits(s[1..]) then Some(DigitsValue(s[1..]))
    else if IsDigits(s) then Some(DigitsValue(s))
    else None
  }

  /** `str(n)` of a natural number is a digit string whose value is `n`. */
  lemma {:induction false} NatToStringValue(n: nat)
    ensures IsDigits(NatToString(n)) && DigitsValue(NatToString(n)) == n
    decreases n
  {
    var s := NatToString(n);
    if n >= 10 {
      NatToStringValue(n / 10);
      assert s[..|s| - 1] == NatToString(n / 10);
    }
  }

  /** `int(str(n)) == n` for every integer. */
  lemma ParseIntToString(n: int)
    ensures ParseInt(IntToString(n)) == Some(n)
  {
    var m: nat := if n < 0 then -n else n;
    var t := NatToString(m);
    NatToStringValue(m);
    if n < 0 {
      var s := IntToString(n);
      assert s == "-" + t;
      assert s[0] == '-' && s[1..] == t;
    } else {
      assert IsDigit(t[0]);
    }
  }

  /** `str(n)` uses only digits and the minus sign. */
  lemma IntToStringChars(n: int)
    ensures forall c | c in IntToString(n) :: IsDigit(c) || c == '-'
  {
    var m: nat := if n < 0 then -n else n;
    NatToStringValue(m);
    forall c | c in NatToString(m) ensures IsDigit(c) {
      var i :| 0 <= i < |NatToString(m)| && NatToString(m)[i] == c;
    }
  }

  // ---------------------------------------------------------------------------
  // The syntax `float()` accepts
  // ---------------------------------------------------------------------------

  function LowerChar(c: char): char {
    if 'A' <= c <= 'Z' then (c as int - 'A' as int + 'a' as int) as char else c
  }

  /** ASCII lower-casing. */
  function Lower(s: string): (r: string)
    ensures |r| == |s|
  {
    seq(|s|, i requires 0 <= i < |s| => LowerChar(s[i]))
  }

  function DropSign(s: string): string {
    if |s| > 0 && (s[0] == '+' || s[0] == '-') then s[1..] else s
  }

  /** Digits with at most one decimal point and at least one digit. */
  predicate IsMantissa(m: string) {
    var parts := Split(m, ".");
    if |parts| == 1 then IsDigits(m)
    else |parts| == 2 && AllDigits(parts[0]) && AllDigits(parts[1]) && |parts[0]| + |parts[1]| > 0
  }

  /** A decimal float literal, case-insensitively, without its sign:
      a mantissa optionally followed by `e` and a signed exponent, or one of
      the names `inf`, `infinity` and `nan`. */
  predicate IsUnsignedFloat(lower: string) {
    var parts := Split(lower, "e");
    if |parts| == 1 then IsMantissa(lower) || lower in {"inf", "infinity", "nan"}
    else |parts| == 2 && IsMantissa(parts[0]) && IsDigits(DropSign(parts[1]))
  }

  /** The text Python's `float()` accepts (without surrounding whitespace
      and digit-group underscores). */
  function IsFloatLiteral(s: string): (r: bool)
    ensures r ==> |DropSign(s)| > 0
  {
    IsUnsignedFloat(Lower(DropSign(s)))
  }

  /** The text `str(x)` prints for an ordinary float, digits, a point and
      digits, is text `float()` accepts. */
  lemma DecimalIsFloat(whole: string, frac: string)
    requires IsDigits(whole) && AllDigits(frac)
    ensures IsFloatLiteral(whole + "." + frac)
  {
    var s := whole + "." + frac;
    assert s == whole + ['.'] + frac;
    assert IsDigit(s[0]);
    assert DropSign(s) == s;
    assert forall i | 0 <= i < |s| :: IsDigit(s[i]) || s[i] == '.';
    assert Lower(s) == s;
    assert 'e' !in s;
    AvoidsIsFree(s, "e");
    SplitFree(s, "e");
    assert '.' !in whole && '.' !in frac;
    SplitOnce(whole, '.', frac);
  }

  /** Splitting on a character that occurs exactly once gives the two sides. */
  lemma SplitOnce(a: string, c: char, b: string)
    requires c !in a && c !in b
    ensures Split(a + [c] + b, [c]) == [a, b]
  {
    NoEarlyMatchByFirst(a, [c], b);
    SplitLead(a, [c], b);
    AvoidsIsFree(b, [c]);
    SplitFree(b, [c]);
  }
}
