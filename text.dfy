/**
 * Text primitives the package-atom grammar relies on, stated with the
 * meaning Python gives them: `str.isdigit` on ASCII digits, `str.split`
 * on one separator character, `int(...)` of a digit string and `str(...)`
 * of a non-negative integer.
 */
module Text {

  predicate IsDigit(c: char) {
    '0' <= c <= '9'
  }

  /** Every character is a digit (the empty string qualifies). */
  predicate Digits(s: string) {
    forall i :: 0 <= i < |s| ==> IsDigit(s[i])
  }

  /** Python's `s.isdigit()`: non-empty and all digits. */
  predicate IsDigits(s: string) {
    |s| > 0 && Digits(s)
  }

  /** Python's `s.startswith(p)`. */
  predicate StartsWith(s: string, p: string) {
    |p| <= |s| && s[..|p|] == p
  }

  /** A digit string written without a superfluous leading zero. */
  predicate NoLeadingZero(s: string) {
    |s| <= 1 || s[0] != '0'
  }

  /** Number of occurrences of `c` in `s`. */
  function Count(s: string, c: char): nat {
    if |s| == 0 then 0 else (if s[0] == c then 1 else 0) + Count(s[1..], c)
  }

  /**
   * Python's `s.split(sep)`: the pieces between occurrences of `sep`,
   * always at least one, never containing `sep`.
   */
  function Split(s: string, sep: char): (parts: seq<string>)
    ensures |parts| == Count(s, sep) + 1
    ensures forall i :: 0 <= i < |parts| ==> sep !in parts[i]
  {
    if |s| == 0 then [""]
    else
      var rest := Split(s[1..], sep);
      if s[0] == sep then [""] + rest
      else [[s[0]] + rest[0]] + rest[1..]
  }

  /** Python's `sep.join(parts)` for a non-empty list of parts. */
  function Join(parts: seq<string>, sep: char): string
    requires |parts| >= 1
  {
    if |parts| == 1 then parts[0] else parts[0] + [sep] + Join(parts[1..], sep)
  }

  /** Joining the pieces of a split gives back the original string. */
  lemma {:induction false} JoinSplit(s: string, sep: char)
    ensures Join(Split(s, sep), sep) == s
  {
    if |s| > 0 {
      JoinSplit(s[1..], sep);
      var rest := Split(s[1..], sep);
      if s[0] != sep && |rest| > 1 {
        assert Join(rest, sep) == rest[0] + [sep] + Join(rest[1..], sep);
        assert ([[s[0]] + rest[0]] + rest[1..])[1..] == rest[1..];
      }
    }
  }

  /** Splitting `u + [sep] + x`, where `u` has no separator, peels off `u`. */
  lemma {:induction false} SplitAfterPiece(u: string, sep: char, x: string)
    requires sep !in u
    ensures Split(u + [sep] + x, sep) == [u] + Split(x, sep)
  {
    if |u| == 0 {
      assert u + [sep] + x == [sep] + x;
      assert ([sep] + x)[1..] == x;
    } else {
      SplitAfterPiece(u[1..], sep, x);
      assert (u + [sep] + x)[1..] == u[1..] + [sep] + x;
      assert [u[0]] + u[1..] == u;
    }
  }

  /** A string without the separator splits into itself alone. */
  lemma {:induction false} SplitNoSeparator(u: string, sep: char)
    requires sep !in u
    ensures Split(u, sep) == [u]
  {
    if |u| > 0 {
      SplitNoSeparator(u[1..], sep);
      assert [u[0]] + u[1..] == u;
    }
  }

  /** Splitting a join of separator-free pieces gives back the pieces. */
  lemma {:induction false} SplitJoin(parts: seq<string>, sep: char)
    requires |parts| >= 1
    requires forall i :: 0 <= i < |parts| ==> sep !in parts[i]
    ensures Split(Join(parts, sep), sep) == parts
  {
    if |parts| == 1 {
      SplitNoSeparator(parts[0], sep);
    } else {
      SplitJoin(parts[1..], sep);
      SplitAfterPiece(parts[0], sep, Join(parts[1..], sep));
      assert [parts[0]] + parts[1..] == parts;
    }
  }

  /** Appending one piece to a join. */
  lemma {:induction false} JoinSnoc(parts: seq<string>, x: string, sep: char)
    requires |parts| >= 1
    ensures Join(parts + [x], sep) == Join(parts, sep) + [sep] + x
  {
    if |parts| > 1 {
      assert (parts + [x])[1..] == parts[1..] + [x];
      JoinSnoc(parts[1..], x, sep);
    } else {
      assert (parts + [x])[1..] == [x];
    }
  }

  /** String concatenation regroups freely. */
  lemma AppendAssoc(a: string, b: string, c: string)
    ensures (a + b) + c == a + (b + c)
  {
  }

  function DigitValue(c: char): nat
    requires IsDigit(c)
  {
    c as int - '0' as int
  }

  function DigitChar(d: nat): (c: char)
    requires d < 10
    ensures IsDigit(c) && DigitValue(c) == d
  {
    ('0' as int + d) as char
  }

  /** Python's `int(s)` for a digit string (the empty string gives 0). */
  function DigitsToNat(s: string): nat
    requires Digits(s)
  {
    if |s| == 0 then 0 else 10 * DigitsToNat(s[..|s| - 1]) + DigitValue(s[|s| - 1])
  }

  /** Python's `str(n)` for a non-negative integer: decimal, no padding. */
  function NatToString(n: nat): (r: string)
    ensures IsDigits(r) && NoLeadingZero(r)
    ensures DigitsToNat(r) == n
  {
    if n < 10 then [DigitChar(n)]
    else
      var r := NatToString(n / 10) + [DigitChar(n % 10)];
      assert r[..|r| - 1] == NatToString(n / 10);
      r
  }

  /** A digit string that does not start with `0` denotes a positive number. */
  lemma {:induction false} LeadingDigitPositive(s: string)
    requires IsDigits(s) && s[0] != '0'
    ensures DigitsToNat(s) >= 1
  {
    if |s| > 1 {
      assert s[..|s| - 1][0] == s[0];
      LeadingDigitPositive(s[..|s| - 1]);
    }
  }

  lemma DigitRoundTrip(c: char)
    requires IsDigit(c)
    ensures DigitChar(DigitValue(c)) == c
  {
  }

  lemma DivModTen(m: nat, d: nat)
    requires d < 10
    ensures (10 * m + d) / 10 == m && (10 * m + d) % 10 == d
  {
  }

  /** A single digit is written back as itself. */
  lemma SingleDigitString(s: string)
    requires |s| == 1 && IsDigits(s)
    ensures NatToString(DigitsToNat(s)) == s
  {
    DigitRoundTrip(s[0]);
    assert DigitsToNat(s) == DigitValue(s[0]) by {
      assert s[..0] == [];
    }
    assert [s[0]] == s;
  }

  /** Appending a digit to the text of a positive number appends it to the number. */
  lemma AppendDigitString(init: string, c: char, m: nat)
    requires IsDigit(c) && m >= 1 && NatToString(m) == init
    ensures NatToString(10 * m + DigitValue(c)) == init + [c]
  {
    DivModTen(m, DigitValue(c));
    DigitRoundTrip(c);
  }

  /**
   * `str(int(s)) == s` exactly when `s` carries no leading zero: the
   * canonical numeric form is recovered.
   */
  lemma {:induction false} NatToStringOfDigits(s: string)
    requires IsDigits(s) && NoLeadingZero(s)
    ensures NatToString(DigitsToNat(s)) == s
  {
    if |s| == 1 {
      SingleDigitString(s);
    } else {
      var init := s[..|s| - 1];
      assert init[0] == s[0];
      LeadingDigitPositive(init);
      NatToStringOfDigits(init);
      AppendDigitString(init, s[|s| - 1], DigitsToNat(init));
      assert init + [s[|s| - 1]] == s;
    }
  }

  /** Leading zeros are lost: `str(int("01")) == "1"`. */
  lemma PaddedDigitsNotRecovered()
    ensures NatToString(DigitsToNat("01")) == "1"
  {
    assert "01"[..1] == "0";
    assert DigitsToNat("01") == 1;
  }
}
