/**
 * String helpers with the semantics of the Ruby core methods the plugin relies on:
 * Integer#to_s, String#to_i, String#chomp, String#split, Array#join and the
 * ASCII part of String#downcase / String#capitalize.
 */
module Text {

  predicate IsDigit(c: char) { '0' <= c <= '9' }

  predicate AllDigits(s: string) { forall i :: 0 <= i < |s| ==> IsDigit(s[i]) }

  function DigitChar(d: nat): (c: char)
    requires d < 10
    ensures IsDigit(c) && DigitValue(c) == d
  {
    ('0' as int + d) as char
  }

  function DigitValue(c: char): nat
    requires IsDigit(c)
  {
    c as int - '0' as int
  }

  /** The decimal text of a natural number, as Integer#to_s writes it. */
  function NatToString(n: nat): (r: string)
    ensures |r| > 0 && AllDigits(r)
  {
    if n < 10 then [DigitChar(n)] else NatToString(n / 10) + [DigitChar(n % 10)]
  }

  /** Integer#to_s: a minus sign for negative numbers, no sign otherwise. */
  function IntToString(i: int): string
  {
    if i < 0 then "-" + NatToString(-i) else NatToString(i)
  }

  /** The number a string of decimal digits denotes. */
  function DigitsValue(s: string): nat
    requires AllDigits(s)
  {
    if s == [] then 0 else DigitsValue(s[..|s| - 1]) * 10 + DigitValue(s[|s| - 1])
  }

  /** Digits only, and no leading zero unless the number is zero itself. */
  predicate IsCanonicalNat(s: string)
  {
    |s| > 0 && AllDigits(s) && (|s| == 1 || s[0] != '0')
  }

  /** A canonical decimal integer: a canonical natural, optionally negated (but never "-0"). */
  predicate IsCanonicalInt(s: string)
  {
    IsCanonicalNat(s) || (|s| >= 2 && s[0] == '-' && IsCanonicalNat(s[1..]) && s[1..] != "0")
  }

  /** The integer a canonical decimal string denotes. */
  function CanonicalValue(s: string): int
    requires IsCanonicalInt(s)
  {
    if s[0] == '-' then -(DigitsValue(s[1..]) as int) else DigitsValue(s)
  }

  lemma {:induction false} NatToStringLeading(n: nat)
    requires n >= 1
    ensures NatToString(n)[0] != '0'
  {
    if n >= 10 {
      NatToStringLeading(n / 10);
    }
  }

  lemma {:induction false} NatToStringValue(n: nat)
    ensures DigitsValue(NatToString(n)) == n
  {
    var r := NatToString(n);
    if n >= 10 {
      NatToStringValue(n / 10);
      assert r[..|r| - 1] == NatToString(n / 10);
    }
  }

  lemma NatToStringCanonical(n: nat)
    ensures IsCanonicalNat(NatToString(n))
  {
    if n >= 10 {
      NatToStringLeading(n / 10);
      assert NatToString(n)[0] == NatToString(n / 10)[0];
    }
  }

  lemma {:induction false} DigitsValueZero(s: string)
    requires AllDigits(s) && DigitsValue(s) == 0
    ensures forall i :: 0 <= i < |s| ==> s[i] == '0'
  {
    if s != [] {
      DigitsValueZero(s[..|s| - 1]);
      assert forall i :: 0 <= i < |s| - 1 ==> s[i] == s[..|s| - 1][i];
    }
  }

  /** Integer#to_s undoes the reading of a canonical digit string. */
  lemma {:induction false} CanonicalNatRoundTrip(s: string)
    requires IsCanonicalNat(s)
    ensures NatToString(DigitsValue(s)) == s
  {
    if |s| > 1 {
      var p := s[..|s| - 1];
      assert IsCanonicalNat(p) by { assert p[0] == s[0]; }
      CanonicalNatRoundTrip(p);
      if DigitsValue(p) == 0 {
        DigitsValueZero(p);
        assert false;
      }
      var v := DigitsValue(s);
      assert v / 10 == DigitsValue(p) && v % 10 == DigitValue(s[|s| - 1]);
      assert s == p + [s[|s| - 1]];
    }
  }

  /** Integer#to_s always writes a canonical decimal integer. */
  lemma IntToStringCanonical(i: int)
    ensures IsCanonicalInt(IntToString(i))
  {
    if i < 0 {
      var r := IntToString(i);
      NatToStringCanonical(-i);
      assert r[1..] == NatToString(-i);
    } else {
      NatToStringCanonical(i);
    }
  }

  /** A canonical decimal integer is exactly Integer#to_s of its value. */
  lemma CanonicalIntRoundTrip(s: string)
    requires IsCanonicalInt(s)
    ensures IntToString(CanonicalValue(s)) == s
  {
    if s[0] == '-' {
      assert !IsCanonicalNat(s);
      CanonicalNatRoundTrip(s[1..]);
      assert s == "-" + s[1..];
    } else {
      CanonicalNatRoundTrip(s);
    }
  }

  /** The bytes String#to_i skips before the number: ASCII space, \t, \n, \v, \f and \r. */
  predicate IsSpace(c: char) { c == ' ' || 9 <= c as int <= 13 }

  function SkipSpace(s: string): (r: string)
    ensures |r| <= |s| && (r != [] ==> !IsSpace(r[0]))
  {
    if s != [] && IsSpace(s[0]) then SkipSpace(s[1..]) else s
  }

  /** The digits of the numeric prefix String#to_i reads; a single `_` between two digits is skipped. */
  function LeadingDigits(s: string): (r: string)
    ensures AllDigits(r)
  {
    if s == [] || !IsDigit(s[0]) then []
    else if |s| >= 3 && s[1] == '_' && IsDigit(s[2]) then [s[0]] + LeadingDigits(s[2..])
    else [s[0]] + LeadingDigits(s[1..])
  }

  /** String#to_i: leading white space, an optional sign, then as many digits as form a number; 0 if none. */
  function StringToI(s: string): int
  {
    var t := SkipSpace(s);
    if t != [] && t[0] == '-' then -(DigitsValue(LeadingDigits(t[1..])) as int)
    else if t != [] && t[0] == '+' then DigitsValue(LeadingDigits(t[1..]))
    else DigitsValue(LeadingDigits(t))
  }

  lemma {:induction false} LeadingDigitsOfDigits(s: string)
    requires AllDigits(s)
    ensures LeadingDigits(s) == s
  {
    if s != [] {
      LeadingDigitsOfDigits(s[1..]);
    }
  }

  /** String#to_i reads a canonical decimal integer as the number it denotes. */
  lemma StringToICanonical(s: string)
    requires IsCanonicalInt(s)
    ensures StringToI(s) == CanonicalValue(s)
  {
    assert SkipSpace(s) == s;
    if s[0] == '-' {
      LeadingDigitsOfDigits(s[1..]);
    } else {
      LeadingDigitsOfDigits(s);
    }
  }

  predicate EndsWith(s: string, suffix: string)
  {
    |suffix| <= |s| && s[|s| - |suffix|..] == suffix
  }

  /** String#chomp with an empty separator: every trailing "\n", each with an optional "\r" before it. */
  function ChompNewlines(s: string): (r: string)
    ensures |r| <= |s| && r == s[..|r|]
  {
    if s != [] && s[|s| - 1] == '\n' then
      var t := s[..|s| - 1];
      if t != [] && t[|t| - 1] == '\r' then ChompNewlines(t[..|t| - 1]) else ChompNewlines(t)
    else s
  }

  /** String#chomp(separator): removes one trailing separator; "" and "\n" have Ruby's special meanings. */
  function Chomp(s: string, separator: string): (r: string)
    ensures |r| <= |s| && r == s[..|r|]
  {
    if separator == "" then ChompNewlines(s)
    else if separator == "\n" then
      if EndsWith(s, "\r\n") then s[..|s| - 2]
      else if EndsWith(s, "\n") || EndsWith(s, "\r") then s[..|s| - 1]
      else s
    else if EndsWith(s, separator) then s[..|s| - |separator|]
    else s
  }

  /** Chomp takes off a separator that is there, and nothing more. */
  lemma ChompSuffix(p: string, separator: string)
    requires separator != "" && separator != "\n"
    ensures Chomp(p + separator, separator) == p
  {
    assert (p + separator)[|p|..] == separator;
  }

  /** Chomp leaves a string ending in '.' unchanged unless the separator is a suffix of it. */
  lemma ChompDotEnded(p: string, separator: string)
    requires |p| > 0 && p[|p| - 1] == '.'
    requires !EndsWith(p, separator) || separator == "" || separator == "\n"
    ensures Chomp(p, separator) == p
  {
  }

  /** Array#join(separator) over strings. */
  function Join(parts: seq<string>, separator: string): string
  {
    if |parts| == 0 then ""
    else if |parts| == 1 then parts[0]
    else parts[0] + separator + Join(parts[1..], separator)
  }

  /** Array#join with no separator. */
  function Concat(parts: seq<string>): string
  {
    if parts == [] then "" else parts[0] + Concat(parts[1..])
  }

  lemma ConcatPair(x: string, y: string)
    ensures Concat([x, y]) == x + y
  {
    var s := [x, y];
    assert s[0] == x && s[1..] == [y];
    assert Concat([y]) == y by {
      assert [y][0] == y && [y][1..] == [];
      assert y + "" == y;
    }
  }

  lemma {:induction false} ConcatAppend(a: seq<string>, b: seq<string>)
    ensures Concat(a + b) == Concat(a) + Concat(b)
  {
    if a != [] {
      ConcatAppend(a[1..], b);
      assert (a + b)[1..] == a[1..] + b;
      assert Concat(a + b) == a[0] + Concat((a + b)[1..]);
    } else {
      assert a + b == b;
    }
  }

  function Lower(c: char): char { if 'A' <= c <= 'Z' then (c as int + 32) as char else c }

  function Upper(c: char): char { if 'a' <= c <= 'z' then (c as int - 32) as char else c }

  /** String#downcase, over ASCII letters. */
  function Downcase(s: string): (r: string)
    ensures |r| == |s| && forall i :: 0 <= i < |s| ==> r[i] == Lower(s[i])
  {
    if s == [] then [] else [Lower(s[0])] + Downcase(s[1..])
  }

  /** String#capitalize, over ASCII letters: first character upper case, the rest lower case. */
  function Capitalize(s: string): (r: string)
    ensures |r| == |s|
    ensures r != [] ==> r[0] == Upper(s[0]) && r[1..] == Downcase(s[1..])
  {
    if s == [] then [] else [Upper(s[0])] + Downcase(s[1..])
  }

  /** Every character of s except those equal to c. */
  function Without(s: string, c: char): (r: string)
    ensures forall i :: 0 <= i < |r| ==> r[i] != c
  {
    if s == [] then [] else (if s[0] == c then [] else [s[0]]) + Without(s[1..], c)
  }

  lemma {:induction false} WithoutAppend(a: string, b: string, c: char)
    ensures Without(a + b, c) == Without(a, c) + Without(b, c)
  {
    if a != [] {
      WithoutAppend(a[1..], b, c);
      assert (a + b)[1..] == a[1..] + b;
      assert Without(a + b, c) == (if a[0] == c then [] else [a[0]]) + Without((a + b)[1..], c);
    } else {
      assert a + b == b;
    }
  }

  /** Every piece between separators, empty pieces included: one more piece than separators. */
  function SplitAll(s: string, separator: char): (r: seq<string>)
    ensures |r| > 0
    ensures forall i :: 0 <= i < |r| ==> separator !in r[i]
  {
    if s == [] then [""]
    else
      var rest := SplitAll(s[1..], separator);
      if s[0] == separator then [""] + rest else [[s[0]] + rest[0]] + rest[1..]
  }

  /** Splitting and concatenating the pieces removes exactly the separators. */
  lemma {:induction false} SplitAllConcat(s: string, separator: char)
    ensures Concat(SplitAll(s, separator)) == Without(s, separator)
  {
    if s != [] {
      var rest := SplitAll(s[1..], separator);
      SplitAllConcat(s[1..], separator);
      if s[0] == separator {
        assert Concat([""] + rest) == Concat(rest);
      } else {
        var r := SplitAll(s, separator);
        assert r[1..] == rest[1..];
        assert Concat(rest) == rest[0] + Concat(rest[1..]);
      }
    }
  }

  /** Drops the trailing empty strings, as String#split does with the pieces it found. */
  function DropTrailingEmpty(parts: seq<string>): (r: seq<string>)
    ensures |r| <= |parts| && r == parts[..|r|]
    ensures r != [] ==> r[|r| - 1] != ""
    ensures forall i :: |r| <= i < |parts| ==> parts[i] == ""
  {
    if parts == [] then []
    else if parts[|parts| - 1] == "" then DropTrailingEmpty(parts[..|parts| - 1])
    else parts
  }

  lemma {:induction false} DropTrailingEmptyConcat(parts: seq<string>)
    ensures Concat(DropTrailingEmpty(parts)) == Concat(parts)
  {
    if parts != [] && parts[|parts| - 1] == "" {
      var p := parts[..|parts| - 1];
      DropTrailingEmptyConcat(p);
      ConcatAppend(p, [""]);
      assert parts == p + [""];
    }
  }

  /** String#split(separator) with a one-character separator. */
  function Split(s: string, separator: char): seq<string>
  {
    DropTrailingEmpty(SplitAll(s, separator))
  }

  /** A string without the separator is split into itself alone. */
  lemma {:induction false} SplitAllNoSeparator(s: string, separator: char)
    requires separator !in s
    ensures SplitAll(s, separator) == [s]
  {
    if s != [] {
      SplitAllNoSeparator(s[1..], separator);
      assert [s[0]] + s[1..] == s;
    }
  }

  lemma SplitNoSeparator(s: string, separator: char)
    requires separator !in s && s != ""
    ensures Split(s, separator) == [s]
  {
    SplitAllNoSeparator(s, separator);
  }

  /** Join over a concatenation: the two joins meet at one separator. */
  lemma {:induction false} JoinAppend(a: seq<string>, b: seq<string>, separator: string)
    requires a != [] && b != []
    ensures Join(a + b, separator) == Join(a, separator) + separator + Join(b, separator)
  {
    if |a| > 1 {
      JoinAppend(a[1..], b, separator);
      assert (a + b)[1..] == a[1..] + b;
    } else {
      assert (a + b)[1..] == b;
    }
  }

  /**
   * Joining x and then a is joining the pieces p that x joins, then f and
   * rest, when a joins as f + rest and is empty exactly when it is.
   */
  lemma JoinRegroup(x: string, p: seq<string>, a: seq<string>, f: seq<string>, rest: seq<string>, separator: string)
    requires p != [] && x == Join(p, separator)
    requires (a == []) == (f + rest == []) && Join(a, separator) == Join(f + rest, separator)
    ensures Join([x] + a, separator) == Join(p + f + rest, separator)
  {
    var b := f + rest;
    assert p + f + rest == p + b;
    if a != [] {
      JoinAppend([x], a, separator);
      JoinAppend(p, b, separator);
    } else {
      assert p + b == p;
    }
  }

  /** A concatenation is empty only when every piece is. */
  lemma {:induction false} ConcatEmpty(parts: seq<string>)
    requires Concat(parts) == ""
    ensures forall i :: 0 <= i < |parts| ==> parts[i] == ""
  {
    if parts != [] {
      ConcatEmpty(parts[1..]);
      assert forall i :: 1 <= i < |parts| ==> parts[i] == parts[1..][i - 1];
    }
  }

  lemma {:induction false} DropTrailingAllEmpty(parts: seq<string>)
    requires forall i :: 0 <= i < |parts| ==> parts[i] == ""
    ensures DropTrailingEmpty(parts) == []
  {
    if parts != [] {
      DropTrailingAllEmpty(parts[..|parts| - 1]);
    }
  }

  /** Without(s, c) is empty exactly when s consists of c only. */
  lemma {:induction false} WithoutEmpty(s: string, c: char)
    ensures Without(s, c) == "" <==> forall i :: 0 <= i < |s| ==> s[i] == c
  {
    if s != [] {
      WithoutEmpty(s[1..], c);
      assert forall i :: 1 <= i < |s| ==> s[i] == s[1..][i - 1];
    }
  }

  /** String#split('_') finds no piece exactly when the string is all separators (or empty). */
  lemma SplitEmpty(s: string, separator: char)
    ensures Split(s, separator) == [] <==> forall i :: 0 <= i < |s| ==> s[i] == separator
  {
    var all := SplitAll(s, separator);
    SplitAllConcat(s, separator);
    DropTrailingEmptyConcat(all);
    WithoutEmpty(s, separator);
    if Without(s, separator) == "" {
      ConcatEmpty(all);
      DropTrailingAllEmpty(all);
    }
  }

  /** The pieces of Split, concatenated, are the string without its separators. */
  lemma SplitConcat(s: string, separator: char)
    ensures Concat(Split(s, separator)) == Without(s, separator)
    ensures forall i :: 0 <= i < |Split(s, separator)| ==> separator !in Split(s, separator)[i]
  {
    SplitAllConcat(s, separator);
    DropTrailingEmptyConcat(SplitAll(s, separator));
  }

  lemma DowncaseAppend(a: string, b: string)
    ensures Downcase(a + b) == Downcase(a) + Downcase(b)
  {
  }

  /** Text without upper-case letters is its own lower-case form. */
  lemma DowncaseLower(s: string)
    requires forall i :: 0 <= i < |s| ==> !('A' <= s[i] <= 'Z')
    ensures Downcase(s) == s
  {
  }

  /** Capitalizing text without upper-case letters only upper-cases its first character. */
  lemma CapitalizeLower(s: string)
    requires s != [] && forall i :: 0 <= i < |s| ==> !('A' <= s[i] <= 'Z')
    ensures Capitalize(s) == [Upper(s[0])] + s[1..]
  {
    DowncaseLower(s[1..]);
  }

  /** Lower-casing is idempotent and undoes Capitalize's upper-casing. */
  lemma DowncaseCapitalize(s: string)
    ensures Downcase(Downcase(s)) == Downcase(s)
    ensures Downcase(Capitalize(s)) == Downcase(s)
  {
    if s != [] {
      assert Capitalize(s) == [Upper(s[0])] + Downcase(s[1..]);
      assert Downcase(Capitalize(s))[0] == Lower(Upper(s[0]));
    }
  }

  /** Pieces that agree once lower-cased concatenate to texts that agree once lower-cased. */
  lemma {:induction false} DowncaseConcatAgree(a: seq<string>, b: seq<string>)
    requires |a| == |b| && forall i :: 0 <= i < |a| ==> Downcase(a[i]) == Downcase(b[i])
    ensures Downcase(Concat(a)) == Downcase(Concat(b))
  {
    if a != [] {
      DowncaseConcatAgree(a[1..], b[1..]);
      DowncaseAppend(a[0], Concat(a[1..]));
      DowncaseAppend(b[0], Concat(b[1..]));
    }
  }

  /** A separator between a and b splits the pieces of a from the pieces of b. */
  lemma {:induction false} SplitAllAround(a: string, b: string, separator: char)
    ensures SplitAll(a + [separator] + b, separator) == SplitAll(a, separator) + SplitAll(b, separator)
  {
    if a == [] {
      assert a + [separator] + b == [separator] + b;
      assert ([separator] + b)[1..] == b;
    } else {
      var s := a + [separator] + b;
      assert s[0] == a[0] && s[1..] == a[1..] + [separator] + b;
      SplitAllAround(a[1..], b, separator);
    }
  }

  lemma DropTrailingEmptyKeeps(parts: seq<string>)
    requires parts != [] && parts[|parts| - 1] != ""
    ensures DropTrailingEmpty(parts) == parts
  {
  }

  lemma EndsWithAppend(x: string, suffix: string)
    ensures EndsWith(x + suffix, suffix)
  {
    assert (x + suffix)[|x + suffix| - |suffix|..] == suffix;
  }

  /** String#to_i reads back what Integer#to_s writes. */
  lemma IntToStringToI(i: int)
    ensures StringToI(IntToString(i)) == i
  {
    IntToStringCanonical(i);
    StringToICanonical(IntToString(i));
    if i < 0 {
      NatToStringValue(-i);
      assert IntToString(i)[1..] == NatToString(-i);
      NatToStringCanonical(-i);
      assert !IsCanonicalNat(IntToString(i));
    } else {
      NatToStringValue(i);
    }
  }

  /** A join of three or more strings ends with the last two, each after a separator. */
  lemma JoinEndsWithLastTwo(xs: seq<string>, separator: string)
    requires |xs| >= 3
    ensures EndsWith(Join(xs, separator), separator + xs[|xs| - 2] + separator + xs[|xs| - 1])
  {
    var n := |xs|;
    var a, b := xs[n - 2], xs[n - 1];
    assert xs == xs[..n - 2] + xs[n - 2..];
    JoinAppend(xs[..n - 2], xs[n - 2..], separator);
    assert Join(xs[n - 2..], separator) == a + separator + b;
    var x := Join(xs[..n - 2], separator);
    assert x + separator + (a + separator + b) == x + (separator + a + separator + b);
    EndsWithAppend(x, separator + a + separator + b);
  }
}
