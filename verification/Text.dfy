/** Strings as the formatting, splitting and scanning of the program treat them. */
module Text {
  import opened Common

  predicate IsDigit(c: char) { '0' <= c <= '9' }

  function DigitChar(d: nat): (c: char)
    requires d < 10
    ensures IsDigit(c)
  {
    ('0' as int + d) as char
  }

  function DigitValue(c: char): (d: nat)
    requires IsDigit(c)
    ensures d < 10
  {
    c as int - '0' as int
  }

  // ----- Decimal numbers -----

  function Decimal(n: nat): (s: string)
    ensures |s| > 0 && forall i :: 0 <= i < |s| ==> IsDigit(s[i])
  {
    if n < 10 then [DigitChar(n)] else Decimal(n / 10) + [DigitChar(n % 10)]
  }

  function DecimalValue(s: string): nat
    requires forall i :: 0 <= i < |s| ==> IsDigit(s[i])
  {
    if |s| == 0 then 0 else 10 * DecimalValue(s[..|s| - 1]) + DigitValue(s[|s| - 1])
  }

  lemma {:induction false} DecimalRoundTrip(n: nat)
    ensures DecimalValue(Decimal(n)) == n
  {
    if n < 10 {
      assert Decimal(n)[..0] == "";
    } else {
      DecimalRoundTrip(n / 10);
      var s := Decimal(n);
      assert s[..|s| - 1] == Decimal(n / 10);
    }
  }

  // ----- Splitting at a separator -----

  /** The pieces between the separators; always at least one. */
  function Split(s: string, sep: char): (parts: seq<string>)
    ensures |parts| >= 1
  {
    if s == "" then [""]
    else
      var rest := Split(s[1..], sep);
      if s[0] == sep then [""] + rest else [[s[0]] + rest[0]] + rest[1..]
  }

  lemma {:induction false} SplitFirst(a: string, sep: char, rest: string)
    requires sep !in a
    ensures Split(a + [sep] + rest, sep) == [a] + Split(rest, sep)
  {
    var s := a + [sep] + rest;
    if a == "" {
      assert s[1..] == rest;
    } else {
      assert s[1..] == a[1..] + [sep] + rest;
      SplitFirst(a[1..], sep, rest);
      assert [a[0]] + a[1..] == a;
    }
  }

  lemma {:induction false} SplitLast(a: string, sep: char)
    requires sep !in a
    ensures Split(a, sep) == [a]
  {
    if a != "" {
      SplitLast(a[1..], sep);
      assert [a[0]] + a[1..] == a;
    }
  }

  /** The pieces with a separator between each two. */
  function Join(parts: seq<string>, sep: char): string
    requires |parts| >= 1
  {
    if |parts| == 1 then parts[0] else parts[0] + [sep] + Join(parts[1..], sep)
  }

  /** Splitting what was joined gives back the pieces. */
  lemma {:induction false} SplitJoin(parts: seq<string>, sep: char)
    requires |parts| >= 1 && forall i :: 0 <= i < |parts| ==> sep !in parts[i]
    ensures Split(Join(parts, sep), sep) == parts
  {
    if |parts| == 1 {
      SplitLast(parts[0], sep);
    } else {
      SplitJoin(parts[1..], sep);
      SplitFirst(parts[0], sep, Join(parts[1..], sep));
    }
  }

  /** Joining what was split gives back the string; no piece holds a separator. */
  lemma {:induction false} JoinSplit(s: string, sep: char)
    ensures Join(Split(s, sep), sep) == s
    ensures forall i :: 0 <= i < |Split(s, sep)| ==> sep !in Split(s, sep)[i]
  {
    if s != "" {
      JoinSplit(s[1..], sep);
      var rest := Split(s[1..], sep);
      assert s == [s[0]] + s[1..];
      if s[0] == sep {
        assert ([""] + rest)[1..] == rest;
      } else {
        var parts := [[s[0]] + rest[0]] + rest[1..];
        assert Split(s, sep) == parts;
        assert parts[1..] == rest[1..];
      }
    }
  }

  /** A string with a last separator determines what stands on either side of it. */
  lemma LastSeparator(a: string, b: string, c: string, d: string, sep: char)
    requires sep !in b && sep !in d
    requires a + [sep] + b == c + [sep] + d
    ensures a == c && b == d
  {
    var s, t := a + [sep] + b, c + [sep] + d;
    assert s[|a|] == sep && forall k :: |a| < k < |s| ==> s[k] == b[k - |a| - 1];
    assert t[|c|] == sep && forall k :: |c| < k < |t| ==> t[k] == d[k - |c| - 1];
    assert |a| == |c|;
    assert a == s[..|a|] && c == t[..|a|];
    assert b == s[|a| + 1..] && d == t[|a| + 1..];
  }

  // ----- Bytes and blanks -----

  /** How many bytes the text takes in UTF-8. */
  function Utf8Length(s: string): (n: nat)
    ensures |s| <= n <= 4 * |s|
  {
    if s == "" then 0
    else
      var c := s[0] as int;
      (if c < 0x80 then 1 else if c < 0x800 then 2 else if c < 0x1_0000 then 3 else 4) + Utf8Length(s[1..])
  }

  /** A text takes as many bytes as its parts; a character one to four, by the size of its code. */
  lemma {:induction false} Utf8LengthAdds(a: string, b: string)
    ensures Utf8Length(a + b) == Utf8Length(a) + Utf8Length(b)
  {
    if a == "" {
      assert a + b == b;
    } else {
      assert (a + b)[1..] == a[1..] + b;
      Utf8LengthAdds(a[1..], b);
    }
  }

  lemma Utf8LengthOfOne(c: char)
    ensures Utf8Length([c]) <= 1 <==> c as int < 128
    ensures Utf8Length([c]) <= 2 <==> c as int < 2048
    ensures Utf8Length([c]) <= 3 <==> c as int < 65536
    ensures 1 <= Utf8Length([c]) <= 4
  {
  }

  /** The characters with the White_Space property. */
  lemma BlanksAreWhiteSpace(c: char)
    ensures IsSpace(c) <==> c in {
              '\t', '\n', '\U{0B}', '\U{0C}', '\r', ' ', '\U{85}', '\U{A0}', '\U{1680}', '\U{2000}', '\U{2001}',
              '\U{2002}', '\U{2003}', '\U{2004}', '\U{2005}', '\U{2006}', '\U{2007}', '\U{2008}', '\U{2009}',
              '\U{200A}', '\U{2028}', '\U{2029}', '\U{202F}', '\U{205F}', '\U{3000}'}
  {
  }

  predicate IsSpace(c: char) {
    var n := c as int;
    || 0x09 <= n <= 0x0d || n == 0x20 || n == 0x85 || n == 0xa0 || n == 0x1680
    || 0x2000 <= n <= 0x200a || n == 0x2028 || n == 0x2029 || n == 0x202f || n == 0x205f || n == 0x3000
  }

  function TrimLeft(s: string): string {
    if s != "" && IsSpace(s[0]) then TrimLeft(s[1..]) else s
  }

  function TrimRight(s: string): string {
    if s != "" && IsSpace(s[|s| - 1]) then TrimRight(s[..|s| - 1]) else s
  }

  function TrimSpace(s: string): string { TrimRight(TrimLeft(s)) }

  /** Neither end is a space: what trimming leaves alone. */
  predicate Trimmed(s: string) {
    s != "" ==> !IsSpace(s[0]) && !IsSpace(s[|s| - 1])
  }

  lemma TrimmedIsKept(s: string)
    requires Trimmed(s)
    ensures TrimSpace(s) == s
  {
  }

  lemma {:induction false} TrimRightIsTrimmed(s: string)
    requires s != "" ==> !IsSpace(s[0])
    ensures Trimmed(TrimRight(s))
  {
    if s != "" && IsSpace(s[|s| - 1]) {
      TrimRightIsTrimmed(s[..|s| - 1]);
    }
  }

  lemma {:induction false} TrimLeftStart(s: string)
    ensures TrimLeft(s) != "" ==> !IsSpace(TrimLeft(s)[0])
  {
    if s != "" && IsSpace(s[0]) {
      TrimLeftStart(s[1..]);
    }
  }

  lemma TrimSpaceIsTrimmed(s: string)
    ensures Trimmed(TrimSpace(s))
  {
    TrimLeftStart(s);
    TrimRightIsTrimmed(TrimLeft(s));
  }

  predicate AllSpace(s: string) {
    forall i :: 0 <= i < |s| ==> IsSpace(s[i])
  }

  lemma {:induction false} TrimLeftDropsSpaces(s: string)
    ensures exists a :: AllSpace(a) && s == a + TrimLeft(s)
  {
    if s != "" && IsSpace(s[0]) {
      TrimLeftDropsSpaces(s[1..]);
      var a :| AllSpace(a) && s[1..] == a + TrimLeft(s[1..]);
      assert AllSpace([s[0]] + a) && s == [s[0]] + a + TrimLeft(s);
    } else {
      assert AllSpace("") && s == "" + TrimLeft(s);
    }
  }

  lemma {:induction false} TrimRightDropsSpaces(s: string)
    ensures exists b :: AllSpace(b) && s == TrimRight(s) + b
  {
    if s != "" && IsSpace(s[|s| - 1]) {
      TrimRightDropsSpaces(s[..|s| - 1]);
      var b :| AllSpace(b) && s[..|s| - 1] == TrimRight(s[..|s| - 1]) + b;
      assert AllSpace(b + [s[|s| - 1]]) && s == TrimRight(s) + (b + [s[|s| - 1]]);
    } else {
      assert AllSpace("") && s == TrimRight(s) + "";
    }
  }

  /** Trimming takes away spaces at both ends, all of them, and nothing else. */
  lemma TrimSpaceTakesSpacesAtTheEnds(s: string)
    ensures Trimmed(TrimSpace(s))
    ensures exists a, b :: AllSpace(a) && AllSpace(b) && s == a + TrimSpace(s) + b
  {
    TrimSpaceIsTrimmed(s);
    TrimLeftDropsSpaces(s);
    TrimRightDropsSpaces(TrimLeft(s));
    var a :| AllSpace(a) && s == a + TrimLeft(s);
    var b :| AllSpace(b) && TrimLeft(s) == TrimSpace(s) + b;
    assert s == a + TrimSpace(s) + b;
  }

  // ----- Scanning a decimal integer out of a string -----

  const MAX_INT64: int := 0x7fff_ffff_ffff_ffff

  function Digits(s: string): (n: nat)
    ensures n <= |s| && forall i :: 0 <= i < n ==> IsDigit(s[i])
  {
    if s != "" && IsDigit(s[0]) then 1 + Digits(s[1..]) else 0
  }

  /** Skips spaces; a newline among them is an error, unless it follows a carriage return. */
  function SkipSpace(s: string): Option<string> {
    if s == "" || !IsSpace(s[0]) then Some(s)
    else if s[0] == '\n' then None
    else if s[0] == '\r' && |s| > 1 && s[1] == '\n' then SkipSpace(s[2..])
    else SkipSpace(s[1..])
  }

  /** One signed decimal integer: its value and what follows it; None where scanning fails. */
  function ScanInt(s: string): Option<(int, string)> {
    match SkipSpace(s)
    case None => None
    case Some(t) =>
      var signed := t != "" && (t[0] == '+' || t[0] == '-');
      var u := if signed then t[1..] else t;
      var n := Digits(u);
      if n == 0 then None
      else
        var m: int := DecimalValue(u[..n]);
        var v := if signed && t[0] == '-' then -m else m;
        if -MAX_INT64 - 1 <= v <= MAX_INT64 then Some((v, u[n..])) else None
  }

  lemma {:induction false} DigitsOfPrefix(a: string, rest: string)
    requires forall i :: 0 <= i < |a| ==> IsDigit(a[i])
    requires rest != "" ==> !IsDigit(rest[0])
    ensures Digits(a + rest) == |a|
  {
    if a == "" {
      assert a + rest == rest;
    } else {
      assert (a + rest)[1..] == a[1..] + rest;
      DigitsOfPrefix(a[1..], rest);
    }
  }

  /** Scanning finds the number that was printed, and stops right behind it. */
  lemma ScanDecimal(n: nat, rest: string)
    requires n <= MAX_INT64 && (rest != "" ==> !IsDigit(rest[0]))
    ensures ScanInt(Decimal(n) + rest) == Some((n, rest))
  {
    var a := Decimal(n);
    var s := a + rest;
    DigitsOfPrefix(a, rest);
    DecimalRoundTrip(n);
    assert s[0] == a[0] && !IsSpace(s[0]);
    assert SkipSpace(s) == Some(s);
    assert s[..|a|] == a && s[|a|..] == rest;
  }

  /** A sign may come first, and the number must fit into 64 bits. */
  lemma ScanSigned(n: nat, rest: string)
    requires rest != "" ==> !IsDigit(rest[0])
    ensures ScanInt("-" + (Decimal(n) + rest)) == if n <= MAX_INT64 + 1 then Some((0 - n, rest)) else None
    ensures ScanInt("+" + (Decimal(n) + rest)) == if n <= MAX_INT64 then Some((n, rest)) else None
    ensures n > MAX_INT64 ==> ScanInt(Decimal(n) + rest) == None
  {
    var u := Decimal(n) + rest;
    DigitsOfPrefix(Decimal(n), rest);
    DecimalRoundTrip(n);
    assert u[..|Decimal(n)|] == Decimal(n) && u[|Decimal(n)|..] == rest;
    hide Decimal, DecimalValue, Digits;
    assert ("-" + u)[1..] == u && ("+" + u)[1..] == u;
    assert SkipSpace("-" + u) == Some("-" + u) && SkipSpace("+" + u) == Some("+" + u) && SkipSpace(u) == Some(u);
  }

  /** Blanks before a number are passed over; a line break fails, unless it follows a carriage return. */
  lemma ScanBlanks(c: char, s: string)
    requires IsSpace(c)
    ensures c != '\n' && c != '\r' ==> ScanInt([c] + s) == ScanInt(s)
    ensures c == '\n' ==> ScanInt([c] + s) == None
    ensures c == '\r' && (s == "" || s[0] != '\n') ==> ScanInt([c] + s) == ScanInt(s)
    ensures c == '\r' && s != "" && s[0] == '\n' ==> ScanInt([c] + s) == ScanInt(s[1..])
  {
    assert ([c] + s)[1..] == s && (|s| > 0 ==> ([c] + s)[2..] == s[1..]);
  }

  /** Without a digit where the number should be, scanning fails. */
  lemma ScanNeedsADigit(s: string)
    requires s == "" || (!IsSpace(s[0]) && !IsDigit(s[0]))
    requires s != "" && (s[0] == '+' || s[0] == '-') ==> |s| == 1 || !IsDigit(s[1])
    ensures ScanInt(s) == None
  {
  }
}
