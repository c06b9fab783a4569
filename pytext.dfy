/**
 * The parts of Python's `str` and `int` that the nodes rely on, stated over `seq<char>`:
 * `strip`, `lstrip`, `lower`, `replace`, `split`, `join`, slicing, `startswith`/`endswith`,
 * `int(text, base)` on plain digit strings and the `02x` and `05` format specifications.
 */
module PyText {
  import opened Wrappers

  // ------------------------------------------------------------------
  // Whitespace and stripping
  // ------------------------------------------------------------------

  /** The characters for which Python's `str.isspace()` holds; `strip()` removes exactly these. */
  predicate IsSpace(c: char)
  {
    || c == ' ' || c == '\t' || c == '\n' || c == '\r' || c == '\U{000B}' || c == '\U{000C}'
    || ('\U{001C}' <= c <= '\U{001F}') || c == '\U{0085}' || c == '\U{00A0}' || c == '\U{1680}'
    || ('\U{2000}' <= c <= '\U{200A}') || c == '\U{2028}' || c == '\U{2029}' || c == '\U{202F}'
    || c == '\U{205F}' || c == '\U{3000}'
  }

  /** `s.lstrip()`: the suffix of `s` left after dropping every leading whitespace character. */
  function LStrip(s: string): (r: string)
    ensures |r| <= |s| && r == s[|s| - |r|..]
    ensures forall i :: 0 <= i < |s| - |r| ==> IsSpace(s[i])
    ensures r == [] || !IsSpace(r[0])
  {
    if |s| > 0 && IsSpace(s[0]) then LStrip(s[1..]) else s
  }

  /** `s.rstrip()`: the prefix of `s` left after dropping every trailing whitespace character. */
  function RStrip(s: string): (r: string)
    ensures |r| <= |s| && r == s[..|r|]
    ensures forall i :: |r| <= i < |s| ==> IsSpace(s[i])
    ensures r == [] || !IsSpace(r[|r| - 1])
  {
    if |s| > 0 && IsSpace(s[|s| - 1]) then RStrip(s[..|s| - 1]) else s
  }

  /** `s.strip()`: neither end of the result is whitespace. */
  function Strip(s: string): (r: string)
    ensures r == [] || (!IsSpace(r[0]) && !IsSpace(r[|r| - 1]))
  {
    RStrip(LStrip(s))
  }

  /** A string neither of whose ends is whitespace is left alone by `strip()`. */
  lemma StripKeepsTrimmed(s: string)
    requires s == [] || (!IsSpace(s[0]) && !IsSpace(s[|s| - 1]))
    ensures Strip(s) == s
  {
  }

  /** `strip()` is idempotent. */
  lemma StripIdempotent(s: string)
    ensures Strip(Strip(s)) == Strip(s)
  {
    StripKeepsTrimmed(Strip(s));
  }

  /** `s.lstrip(c)` for a one-character argument: drops every leading `c`. */
  function LStripChar(s: string, c: char): (r: string)
    ensures |r| <= |s| && r == s[|s| - |r|..]
    ensures forall i :: 0 <= i < |s| - |r| ==> s[i] == c
    ensures r == [] || r[0] != c
  {
    if |s| > 0 && s[0] == c then LStripChar(s[1..], c) else s
  }

  // ------------------------------------------------------------------
  // Case and character removal
  // ------------------------------------------------------------------

  /** Lower-cases one ASCII letter; every other character is returned unchanged. */
  function LowerChar(c: char): char
  {
    if 'A' <= c <= 'Z' then (c as int - 'A' as int + 'a' as int) as char else c
  }

  /** `s.lower()` on ASCII letters. */
  function Lower(s: string): (r: string)
    ensures |r| == |s|
    ensures forall i :: 0 <= i < |s| ==> r[i] == LowerChar(s[i])
  {
    seq(|s|, i requires 0 <= i < |s| => LowerChar(s[i]))
  }

  /** No character of `s` is an upper-case ASCII letter. */
  predicate IsLowerCase(s: string)
  {
    forall i :: 0 <= i < |s| ==> !('A' <= s[i] <= 'Z')
  }

  /** `lower()` leaves no upper-case ASCII letter and is idempotent. */
  lemma LowerIsLowerCase(s: string)
    ensures IsLowerCase(Lower(s))
    ensures Lower(Lower(s)) == Lower(s)
  {
  }

  /** `s.replace(c, "")` for a one-character `c`. */
  function RemoveChar(s: string, c: char): (r: string)
    ensures c !in r
    ensures forall d :: d != c ==> multiset(r)[d] == multiset(s)[d]
  {
    if |s| == 0 then ""
    else
      assert s == [s[0]] + s[1..];
      (if s[0] == c then "" else [s[0]]) + RemoveChar(s[1..], c)
  }

  /** Removing a character commutes with concatenation, so the kept characters stay in order. */
  lemma {:induction false} RemoveCharConcat(a: string, b: string, c: char)
    ensures RemoveChar(a + b, c) == RemoveChar(a, c) + RemoveChar(b, c)
  {
    if |a| == 0 {
      assert a + b == b;
    } else {
      var head: string := if a[0] == c then "" else [a[0]];
      assert (a + b)[0] == a[0];
      assert (a + b)[1..] == a[1..] + b;
      assert RemoveChar(a + b, c) == head + RemoveChar(a[1..] + b, c);
      RemoveCharConcat(a[1..], b, c);
      assert RemoveChar(a, c) == head + RemoveChar(a[1..], c);
    }
  }

  /** Removing a character that does not occur changes nothing. */
  lemma {:induction false} RemoveCharAbsent(s: string, c: char)
    requires c !in s
    ensures RemoveChar(s, c) == s
  {
    if |s| > 0 {
      assert c !in s[1..];
      RemoveCharAbsent(s[1..], c);
      assert s == [s[0]] + s[1..];
    }
  }

  // ------------------------------------------------------------------
  // Searching, splitting and joining
  // ------------------------------------------------------------------

  /** `pat` occurs in `s` starting at index `j`. */
  predicate OccursAt(s: string, pat: string, j: int)
  {
    0 <= j && j + |pat| <= |s| && s[j..j + |pat|] == pat
  }

  /** The first index at or after `k` where `pat` occurs in `s`, if any (`str.find`). */
  function IndexOfFrom(s: string, pat: string, k: nat): (r: Option<nat>)
    requires |pat| > 0
    ensures r.Some? ==> k <= r.value && OccursAt(s, pat, r.value)
    ensures forall j :: k <= j && (r.None? || j < r.value) ==> !OccursAt(s, pat, j)
    decreases |s| - k
  {
    if k + |pat| > |s| then None
    else if s[k..k + |pat|] == pat then Some(k)
    else IndexOfFrom(s, pat, k + 1)
  }

  /** `pat` occurs nowhere in `s`. */
  predicate Free(s: string, pat: string)
  {
    forall j :: 0 <= j <= |s| ==> !OccursAt(s, pat, j)
  }

  /**
   * `s.split(sep)` for a non-empty `sep`: the pieces between the leftmost non-overlapping
   * occurrences of `sep`. There is always at least one piece.
   */
  function Split(s: string, sep: string): (r: seq<string>)
    requires |sep| > 0
    ensures |r| >= 1
    decreases |s|
  {
    match IndexOfFrom(s, sep, 0)
    case None => [s]
    case Some(i) => [s[..i]] + Split(s[i + |sep|..], sep)
  }

  /** `sep.join(parts)`. */
  function Join(parts: seq<string>, sep: string): string
  {
    if |parts| == 0 then ""
    else if |parts| == 1 then parts[0]
    else parts[0] + sep + Join(parts[1..], sep)
  }

  /** Joining the pieces of a split with the same separator gives back the original text. */
  lemma {:induction false} JoinSplit(s: string, sep: string)
    requires |sep| > 0
    ensures Join(Split(s, sep), sep) == s
    decreases |s|
  {
    match IndexOfFrom(s, sep, 0)
    case None =>
    case Some(i) =>
      var rest := s[i + |sep|..];
      var pieces := Split(rest, sep);
      JoinSplit(rest, sep);
      assert Split(s, sep) == [s[..i]] + pieces;
      assert ([s[..i]] + pieces)[1..] == pieces;
      assert Join([s[..i]] + pieces, sep) == s[..i] + sep + rest;
      assert s[i..i + |sep|] == sep;
      assert s == s[..i] + s[i..i + |sep|] + rest;
  }

  /** No piece of a split contains the separator. */
  lemma {:induction false} SplitPiecesAreFree(s: string, sep: string)
    requires |sep| > 0
    ensures forall p :: p in Split(s, sep) ==> Free(p, sep)
    decreases |s|
  {
    match IndexOfFrom(s, sep, 0)
    case None =>
    case Some(i) =>
      var rest := s[i + |sep|..];
      SplitPiecesAreFree(rest, sep);
      forall j | OccursAt(s[..i], sep, j)
        ensures false
      {
        assert s[..i][j..j + |sep|] == s[j..j + |sep|];
        assert OccursAt(s, sep, j);
      }
  }

  /** No character of `p` is one of the characters of `sep`. */
  predicate Avoids(p: string, sep: string)
  {
    forall i :: 0 <= i < |p| ==> p[i] !in sep
  }

  /**
   * Splitting a join gives back the parts, when no part shares a character with the
   * separator (so no occurrence can straddle a part and a separator).
   */
  lemma {:induction false} SplitJoinAvoiding(parts: seq<string>, sep: string)
    requires |sep| > 0 && |parts| >= 1
    requires forall k :: 0 <= k < |parts| ==> Avoids(parts[k], sep)
    ensures Split(Join(parts, sep), sep) == parts
  {
    var p := parts[0];
    var s := Join(parts, sep);
    assert Avoids(p, sep);
    forall j | 0 <= j < |p|
      ensures !OccursAt(s, sep, j)
    {
      assert s[j] == p[j];
      assert j + |sep| <= |s| ==> s[j..j + |sep|][0] == s[j];
    }
    if |parts| == 1 {
      assert IndexOfFrom(s, sep, 0).None?;
    } else {
      var rest := Join(parts[1..], sep);
      assert s == p + sep + rest;
      assert OccursAt(s, sep, |p|) by {
        assert s[|p|..|p| + |sep|] == sep;
      }
      assert IndexOfFrom(s, sep, 0) == Some(|p|);
      assert s[..|p|] == p;
      assert s[|p| + |sep|..] == rest;
      assert Split(s, sep) == [p] + Split(rest, sep);
      SplitJoinAvoiding(parts[1..], sep);
      assert parts == [p] + parts[1..];
    }
  }

  // ------------------------------------------------------------------
  // Slicing and affixes
  // ------------------------------------------------------------------

  /** How Python turns a slice bound into a position of a sequence of length `n`. */
  function SliceBound(i: int, n: nat): (r: nat)
    ensures r <= n
  {
    if i < 0 then (if i + n < 0 then 0 else i + n) else if i > n then n else i
  }

  /** `s[i:j]` with Python's rules: negative bounds count from the end, bounds are clamped. */
  function Slice<T>(s: seq<T>, i: int, j: int): (r: seq<T>)
    ensures |r| <= |s|
  {
    var a := SliceBound(i, |s|);
    var b := SliceBound(j, |s|);
    if a < b then s[a..b] else []
  }

  /** `s.startswith(p)`. */
  predicate StartsWith(s: string, p: string)
  {
    |p| <= |s| && s[..|p|] == p
  }

  /** `s.endswith(p)`. */
  predicate EndsWith(s: string, p: string)
  {
    |p| <= |s| && s[|s| - |p|..] == p
  }

  // ------------------------------------------------------------------
  // Integers in text
  // ------------------------------------------------------------------

  /** The value of a digit character in bases up to 36; 36 means "not a digit". */
  function DigitValue(c: char): (r: nat)
    ensures r <= 36
  {
    if '0' <= c <= '9' then c as nat - '0' as nat
    else if 'a' <= c <= 'z' then c as nat - 'a' as nat + 10
    else if 'A' <= c <= 'Z' then c as nat - 'A' as nat + 10
    else 36
  }

  /** Every character of `s` is a digit of `base`. */
  predicate AllDigits(s: string, base: nat)
  {
    forall i :: 0 <= i < |s| ==> DigitValue(s[i]) < base
  }

  /** The number written by the digit string `s` in `base`, most significant digit first. */
  function DigitsValue(s: string, base: nat): nat
  {
    if |s| == 0 then 0 else DigitsValue(s[..|s| - 1], base) * base + DigitValue(s[|s| - 1])
  }

  /**
   * `int(s, base)` on a non-empty string of digits; any other text raises `ValueError` (None).
   */
  function ParseInt(s: string, base: nat): (r: Option<nat>)
    ensures r.Some? <==> |s| > 0 && AllDigits(s, base)
  {
    if |s| > 0 && AllDigits(s, base) then Some(DigitsValue(s, base)) else None
  }

  /** The lower-case character of digit `d` (`0`-`9`, then `a`-`f`). */
  function DigitChar(d: nat): (c: char)
    requires d < 16
    ensures DigitValue(c) == d
  {
    if d < 10 then ('0' as int + d) as char else ('a' as int + d - 10) as char
  }

  /** `c` is a digit of the lower-case hexadecimal alphabet. */
  predicate IsLowerHexDigit(c: char)
  {
    '0' <= c <= '9' || 'a' <= c <= 'f'
  }

  /** Every character of `s` is a lower-case hexadecimal digit. */
  predicate AllLowerHex(s: string)
  {
    forall i :: 0 <= i < |s| ==> IsLowerHexDigit(s[i])
  }

  /** Every character of `s` is a decimal digit. */
  predicate AllDecimal(s: string)
  {
    forall i :: 0 <= i < |s| ==> '0' <= s[i] <= '9'
  }

  /** `n` written in `base` without leading zeros (`0` is written as "0"). */
  function ToDigits(n: nat, base: nat): (r: string)
    requires 2 <= base <= 16
    ensures |r| >= 1 && AllDigits(r, base)
    ensures base == 16 ==> AllLowerHex(r)
    ensures base == 10 ==> AllDecimal(r)
  {
    if n < base then [DigitChar(n)]
    else
      QuotientSmaller(n, base);
      ToDigits(n / base, base) + [DigitChar(n % base)]
  }

  /** Reading back the digits of `n` gives `n`. */
  lemma {:induction false} DigitsValueOfToDigits(n: nat, base: nat)
    requires 2 <= base <= 16
    ensures DigitsValue(ToDigits(n, base), base) == n
  {
    if n >= base {
      var q, d := n / base, n % base;
      var t := ToDigits(q, base);
      var u := t + [DigitChar(d)];
      assert ToDigits(n, base) == u;
      DivMod(n, base);
      QuotientSmaller(n, base);
      DigitsValueOfToDigits(q, base);
      assert u[..|u| - 1] == t;
      assert DigitsValue(u, base) == DigitsValue(t, base) * base + d;
    }
  }

  /** Euclidean division splits `n` into quotient and remainder. */
  lemma DivMod(n: nat, base: nat)
    requires 2 <= base
    ensures n == (n / base) * base + n % base
  {
  }

  /** Dividing a positive number by a base of at least two makes it smaller. */
  lemma QuotientSmaller(n: nat, base: nat)
    requires 2 <= base && 0 < n
    ensures n / base < n
  {
  }

  /** `int(ToDigits(n, base), base) == n`. */
  lemma ParseIntToDigits(n: nat, base: nat)
    requires 2 <= base <= 16
    ensures ParseInt(ToDigits(n, base), base) == Some(n)
  {
    DigitsValueOfToDigits(n, base);
  }

  /** `s` padded on the left with `c` to at least `width` characters. */
  function PadLeft(s: string, width: nat, c: char): (r: string)
    ensures |r| == if |s| < width then width else |s|
    ensures r[|r| - |s|..] == s
    ensures forall i :: 0 <= i < |r| - |s| ==> r[i] == c
  {
    seq(if |s| < width then width - |s| else 0, _ => c) + s
  }

  /** Leading zeros do not change the value of a digit string. */
  lemma {:induction false} LeadingZeros(z: string, s: string, base: nat)
    requires forall i :: 0 <= i < |z| ==> z[i] == '0'
    ensures DigitsValue(z + s, base) == DigitsValue(s, base)
    decreases |s|
  {
    if |s| == 0 {
      assert z + s == z;
      ZerosValue(z, base);
    } else {
      var s' := s[..|s| - 1];
      LeadingZeros(z, s', base);
      assert (z + s)[..|z + s| - 1] == z + s';
    }
  }

  /** A string of zeros is worth zero. */
  lemma {:induction false} ZerosValue(z: string, base: nat)
    requires forall i :: 0 <= i < |z| ==> z[i] == '0'
    ensures DigitsValue(z, base) == 0
  {
    if |z| > 0 {
      ZerosValue(z[..|z| - 1], base);
    }
  }

  /** Python `f"{n:02x}"`: lower-case hex, zero-padded to two digits; negatives get a sign. */
  function FormatHex02(n: int): string
  {
    if n >= 0 then PadLeft(ToDigits(n, 16), 2, '0') else "-" + ToDigits(-n, 16)
  }

  /** A byte formats as exactly its two hex digits. */
  lemma FormatHex02Byte(n: int)
    requires 0 <= n < 256
    ensures FormatHex02(n) == [DigitChar(n / 16), DigitChar(n % 16)]
  {
    if n >= 16 {
      assert ToDigits(n / 16, 16) == [DigitChar(n / 16)];
    }
  }

  /** `int(f"{n:02x}", 16) == n` for every byte. */
  lemma ParseFormatHex02(n: int)
    requires 0 <= n < 256
    ensures ParseInt(FormatHex02(n), 16) == Some(n)
  {
    FormatHex02Byte(n);
    var s := FormatHex02(n);
    assert s[..1] == [DigitChar(n / 16)];
    assert [DigitChar(n / 16)][..0] == [];
    assert DigitsValue([DigitChar(n / 16)], 16) == n / 16;
    assert DigitsValue(s, 16) == (n / 16) * 16 + n % 16;
  }

  /** Python `f"{n:05}"`: decimal, zero-padded to five characters after the sign. */
  function FormatDec05(n: int): string
  {
    if n >= 0 then PadLeft(ToDigits(n, 10), 5, '0') else "-" + PadLeft(ToDigits(-n, 10), 4, '0')
  }

  /** `int(f"{n:05}") == n` for every non-negative `n`, padding or not. */
  lemma ParseFormatDec05(n: nat)
    ensures |FormatDec05(n)| >= 5
    ensures ParseInt(FormatDec05(n), 10) == Some(n)
  {
    var d := ToDigits(n, 10);
    var p := FormatDec05(n);
    var z := p[..|p| - |d|];
    assert p == z + d;
    LeadingZeros(z, d, 10);
    DigitsValueOfToDigits(n, 10);
  }
}
