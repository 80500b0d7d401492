/**
  Base64 without padding (section 4 of RFC 4648, and the URL-safe alphabet of its
  section 5), and lower-case hexadecimal.
*/
module Base64 {
  import opened Common

  type Byte = n: int | 0 <= n < 256
  type Bytes = seq<Byte>
  type Sextet = n: int | 0 <= n < 64

  // ----- Alphabets -----

  datatype Alphabet = Std | Url

  predicate IsAlnum(c: char) {
    'A' <= c <= 'Z' || 'a' <= c <= 'z' || '0' <= c <= '9'
  }

  predicate InAlphabet(c: char, a: Alphabet) {
    IsAlnum(c) || c == (if a.Std? then '+' else '-') || c == if a.Std? then '/' else '_'
  }

  function Letter(v: Sextet, a: Alphabet): (c: char)
    ensures InAlphabet(c, a)
  {
    if v < 26 then ('A' as int + v) as char
    else if v < 52 then ('a' as int + (v - 26)) as char
    else if v < 62 then ('0' as int + (v - 52)) as char
    else if v == 62 then if a.Std? then '+' else '-'
    else if a.Std? then '/' else '_'
  }

  function Value(c: char, a: Alphabet): (v: Sextet)
    requires InAlphabet(c, a)
    ensures Letter(v, a) == c
  {
    if 'A' <= c <= 'Z' then c as int - 'A' as int
    else if 'a' <= c <= 'z' then c as int - 'a' as int + 26
    else if '0' <= c <= '9' then c as int - '0' as int + 52
    else if c == (if a.Std? then '+' else '-') then 62
    else 63
  }

  /** The 64 letters in order: table 1 of RFC 4648, and table 2 for URLs. */
  lemma LettersInOrder(v: Sextet)
    ensures forall a :: Letter(0, a) == 'A' && Letter(25, a) == 'Z' && Letter(26, a) == 'a' && Letter(51, a) == 'z'
                        && Letter(52, a) == '0' && Letter(61, a) == '9'
    ensures Letter(62, Std) == '+' && Letter(63, Std) == '/' && Letter(62, Url) == '-' && Letter(63, Url) == '_'
    ensures forall a :: v != 25 && v != 51 && v < 61 ==> Letter(v + 1, a) as int == Letter(v, a) as int + 1
  {
  }

  lemma ValueOfLetter(v: Sextet, a: Alphabet)
    ensures Value(Letter(v, a), a) == v
  {
  }

  // ----- Bytes and sextets -----

  function First(x: Byte): Sextet { x / 4 }

  function Second(x: Byte, y: Byte): Sextet { x % 4 * 16 + y / 16 }

  function Third(y: Byte, z: Byte): Sextet { y % 16 * 4 + z / 64 }

  function Fourth(z: Byte): Sextet { z % 64 }

  function ToSextets(b: Bytes): (s: seq<Sextet>)
    ensures |s| == (4 * |b| + 2) / 3
  {
    if |b| == 0 then []
    else if |b| == 1 then [First(b[0]), Second(b[0], 0)]
    else if |b| == 2 then [First(b[0]), Second(b[0], b[1]), Third(b[1], 0)]
    else [First(b[0]), Second(b[0], b[1]), Third(b[1], b[2]), Fourth(b[2])] + ToSextets(b[3..])
  }

  /** The number with these digits. */
  function InBase(base: nat, digits: seq<int>): int {
    if |digits| == 0 then 0 else InBase(base, digits[..|digits| - 1]) * base + digits[|digits| - 1]
  }

  lemma FewDigits(base: nat, w: int, x: int, y: int, z: int)
    ensures InBase(base, [w]) == w && InBase(base, [w, x]) == w * base + x
    ensures InBase(base, [w, x, y]) == (w * base + x) * base + y
    ensures InBase(base, [w, x, y, z]) == ((w * base + x) * base + y) * base + z
  {
    assert [w][..0] == [] && [w, x][..1] == [w] && [w, x, y][..2] == [w, x] && [w, x, y, z][..3] == [w, x, y];
  }

  /** Each group of three bytes is a group of four sextets with the same 24 bits, as section 4 of RFC 4648 has it. */
  lemma {:induction false} GroupsOf24Bits(b: Bytes, k: nat)
    requires 3 * k + 3 <= |b|
    ensures var s := ToSextets(b);
            InBase(64, [s[4 * k], s[4 * k + 1], s[4 * k + 2], s[4 * k + 3]])
            == InBase(256, [b[3 * k], b[3 * k + 1], b[3 * k + 2]])
  {
    hide InBase;
    if k > 0 {
      GroupsOf24Bits(b[3..], k - 1);
    } else {
      FewDigits(256, b[0], b[1], b[2], 0);
      FewDigits(64, First(b[0]), Second(b[0], b[1]), Third(b[1], b[2]), Fourth(b[2]));
    }
  }

  /** One or two bytes that are left over are padded with zero bits on the right. */
  lemma {:induction false} LastGroup(b: Bytes)
    ensures var s, n := ToSextets(b), |b|;
            && (n % 3 == 1 ==> InBase(64, [s[|s| - 2], s[|s| - 1]]) == InBase(256, [b[n - 1]]) * 16)
            && (n % 3 == 2 ==>
                  InBase(64, [s[|s| - 3], s[|s| - 2], s[|s| - 1]]) == InBase(256, [b[n - 2], b[n - 1]]) * 4)
  {
    hide InBase;
    if |b| > 3 {
      LastGroup(b[3..]);
    } else if |b| == 1 {
      FewDigits(256, b[0], 0, 0, 0);
      FewDigits(64, First(b[0]), Second(b[0], 0), 0, 0);
    } else if |b| == 2 {
      FewDigits(256, b[0], b[1], 0, 0);
      FewDigits(64, First(b[0]), Second(b[0], b[1]), Third(b[1], 0), 0);
    }
  }

  function Pack(high: int, low: int, weight: int): (b: Byte)
    requires weight > 0 && 0 <= low < weight && 0 <= high && high * weight + low < 256
  {
    high * weight + low
  }

  /** A single left-over sextet holds no byte; surplus low bits of the last sextet are ignored. */
  function FromSextets(s: seq<Sextet>): (r: Option<Bytes>)
    ensures r.Some? ==> |r.value| == |s| * 3 / 4
  {
    if |s| == 0 then Some([])
    else if |s| == 1 then None
    else if |s| == 2 then Some([Pack(s[0], s[1] / 16, 4)])
    else if |s| == 3 then Some([Pack(s[0], s[1] / 16, 4), Pack(s[1] % 16, s[2] / 4, 16)])
    else
      match FromSextets(s[4..])
      case None => None
      case Some(rest) =>
        Some([Pack(s[0], s[1] / 16, 4), Pack(s[1] % 16, s[2] / 4, 16), Pack(s[2] % 4, s[3], 64)] + rest)
  }

  /** What was split off a byte is put together to the same byte. */
  lemma UnpackBack(x: Byte, y: Byte, z: Byte)
    ensures Pack(First(x), Second(x, 0) / 16, 4) == x && Pack(First(x), Second(x, y) / 16, 4) == x
    ensures Pack(Second(x, y) % 16, Third(y, 0) / 4, 16) == y && Pack(Second(x, y) % 16, Third(y, z) / 4, 16) == y
    ensures Pack(Third(y, z) % 4, Fourth(z), 64) == z
  {
  }

  lemma {:induction false} SextetsRoundTrip(b: Bytes)
    ensures FromSextets(ToSextets(b)) == Some(b)
  {
    if |b| > 0 {
      UnpackBack(b[0], if |b| > 1 then b[1] else 0, if |b| > 2 then b[2] else 0);
    }
    hide Pack, First, Second, Third, Fourth;
    if |b| >= 3 {
      SextetsRoundTrip(b[3..]);
      var s := ToSextets(b);
      assert s[4..] == ToSextets(b[3..]);
      assert b == [b[0], b[1], b[2]] + b[3..];
    } else if |b| == 2 {
      assert b == [b[0], b[1]];
    } else if |b| == 1 {
      assert b == [b[0]];
    }
  }

  // ----- Text -----

  function Encode(b: Bytes, a: Alphabet): (s: string)
    ensures |s| == (4 * |b| + 2) / 3
    ensures forall i :: 0 <= i < |s| ==> InAlphabet(s[i], a)
  {
    var v := ToSextets(b);
    seq(|v|, i requires 0 <= i < |v| => Letter(v[i], a))
  }

  /** The decoder passes over line breaks wherever they stand. */
  function WithoutLineBreaks(s: string): string {
    if s == "" then ""
    else (if s[0] == '\r' || s[0] == '\n' then "" else [s[0]]) + WithoutLineBreaks(s[1..])
  }

  function Decode(s: string, a: Alphabet): Option<Bytes> {
    var t := WithoutLineBreaks(s);
    if forall i :: 0 <= i < |t| ==> InAlphabet(t[i], a)
    then FromSextets(seq(|t|, i requires 0 <= i < |t| && InAlphabet(t[i], a) => Value(t[i], a)))
    else None
  }

  lemma {:induction false} NoLineBreaks(s: string)
    requires '\r' !in s && '\n' !in s
    ensures WithoutLineBreaks(s) == s
  {
    if s != "" {
      NoLineBreaks(s[1..]);
      assert [s[0]] + s[1..] == s;
    }
  }

  lemma {:induction false} LineBreaksDrop(a: string, b: string)
    ensures WithoutLineBreaks(a + b) == WithoutLineBreaks(a) + WithoutLineBreaks(b)
  {
    if a == "" {
      assert a + b == b;
    } else {
      assert (a + b)[1..] == a[1..] + b;
      LineBreaksDrop(a[1..], b);
    }
  }

  /** Line breaks may stand anywhere in what is decoded. */
  lemma LineBreaksAreIgnored(s: string, t: string, a: Alphabet)
    ensures Decode(s + "\n" + t, a) == Decode(s + t, a) == Decode(s + "\r" + t, a)
  {
    LineBreaksDrop(s, t);
    LineBreaksDrop(s, "\n");
    LineBreaksDrop(s, "\r");
    LineBreaksDrop(s + "\n", t);
    LineBreaksDrop(s + "\r", t);
    assert WithoutLineBreaks("\n") == "" && WithoutLineBreaks("\r") == "";
    hide WithoutLineBreaks;
    assert WithoutLineBreaks(s + "\n" + t) == WithoutLineBreaks(s + t) == WithoutLineBreaks(s + "\r" + t);
  }

  lemma {:induction false} OthersStay(s: string, i: nat)
    requires i < |s| && s[i] != '\r' && s[i] != '\n'
    ensures s[i] in WithoutLineBreaks(s)
  {
    if i > 0 {
      OthersStay(s[1..], i - 1);
    }
  }

  /** No other character may. */
  lemma OtherCharactersAreRefused(s: string, i: nat, a: Alphabet)
    requires i < |s| && s[i] != '\r' && s[i] != '\n' && !InAlphabet(s[i], a)
    ensures Decode(s, a) == None
  {
    OthersStay(s, i);
  }

  /** Decoding what was encoded gives back exactly the same bytes. */
  lemma DecodeEncode(b: Bytes, a: Alphabet)
    ensures Decode(Encode(b, a), a) == Some(b)
  {
    var v, t := ToSextets(b), Encode(b, a);
    NoLineBreaks(t);
    forall i | 0 <= i < |v| ensures Value(t[i], a) == v[i] {
      ValueOfLetter(v[i], a);
    }
    assert seq(|t|, i requires 0 <= i < |t| && InAlphabet(t[i], a) => Value(t[i], a)) == v;
    SextetsRoundTrip(b);
  }

  // ----- What 43 characters can encode -----

  /** Three bytes put together from four sextets fall apart into the same four. */
  lemma QuadBack(w: Sextet, x: Sextet, y: Sextet, z: Sextet, rest: Bytes)
    ensures ToSextets([Pack(w, x / 16, 4), Pack(x % 16, y / 4, 16), Pack(y % 4, z, 64)] + rest)
            == [w, x, y, z] + ToSextets(rest)
  {
    PackBack(w, x, y, z);
    hide Pack, First, Second, Third, Fourth;
    var b := [Pack(w, x / 16, 4), Pack(x % 16, y / 4, 16), Pack(y % 4, z, 64)] + rest;
    assert b[3..] == rest;
  }

  lemma PackBack(w: Sextet, x: Sextet, y: Sextet, z: Sextet)
    ensures var a, b, c := Pack(w, x / 16, 4), Pack(x % 16, y / 4, 16), Pack(y % 4, z, 64);
            First(a) == w && Second(a, b) == x && Third(b, c) == y && Fourth(c) == z
  {
  }

  lemma {:induction false} SextetsOfBytes(s: seq<Sextet>)
    requires |s| % 4 == 3
    ensures FromSextets(s).Some?
    ensures ToSextets(FromSextets(s).value) == s <==> s[|s| - 1] % 4 == 0
  {
    if |s| > 3 {
      hide Pack, First, Second, Third, Fourth;
      SextetsOfBytes(s[4..]);
      var rest := FromSextets(s[4..]).value;
      QuadBack(s[0], s[1], s[2], s[3], rest);
      assert s == [s[0], s[1], s[2], s[3]] + s[4..];
      assert ([s[0], s[1], s[2], s[3]] + ToSextets(rest))[4..] == ToSextets(rest);
    } else {
      assert s == [s[0], s[1], s[2]];
    }
  }

  /**
    A string of 43 letters encodes a 32-byte value exactly if the two low bits of its
    last sextet, which no byte uses, are zero.
  */
  lemma CanonicalChallenge(s: string, a: Alphabet)
    requires |s| == 43 && forall i :: 0 <= i < |s| ==> InAlphabet(s[i], a)
    ensures (exists b: Bytes :: |b| == 32 && Encode(b, a) == s) <==> Value(s[42], a) % 4 == 0
  {
    var v := seq(43, i requires 0 <= i < 43 => Value(s[i], a));
    SextetsOfBytes(v);
    var b := FromSextets(v).value;
    if v[42] % 4 == 0 {
      assert Encode(b, a) == s;
    }
    forall b': Bytes | |b'| == 32 && Encode(b', a) == s ensures Value(s[42], a) % 4 == 0 {
      forall i | 0 <= i < 43 ensures v[i] == ToSextets(b')[i] {
        ValueOfLetter(ToSextets(b')[i], a);
      }
      assert v == ToSextets(b');
      SextetsRoundTrip(b');
    }
  }

  // ----- Hexadecimal -----

  predicate IsHex(c: char) { '0' <= c <= '9' || 'a' <= c <= 'f' }

  function HexDigit(v: nat): (c: char)
    requires v < 16
    ensures IsHex(c)
  {
    if v < 10 then ('0' as int + v) as char else ('a' as int + (v - 10)) as char
  }

  function HexValue(c: char): (v: nat)
    requires IsHex(c)
    ensures v < 16 && HexDigit(v) == c
  {
    if c <= '9' then c as int - '0' as int else c as int - 'a' as int + 10
  }

  /** Lower-case digits in order. */
  lemma HexDigitsInOrder(v: nat)
    requires v < 16
    ensures HexDigit(0) == '0' && HexDigit(9) == '9' && HexDigit(10) == 'a' && HexDigit(15) == 'f'
    ensures v != 9 && v != 15 ==> HexDigit(v + 1) as int == HexDigit(v) as int + 1
  {
  }

  /** Each byte is two digits, the high half first. */
  lemma {:induction false} HexOfByte(b: Bytes, k: nat)
    requires k < |b|
    ensures Hex(b)[2 * k] == HexDigit(b[k] / 16) && Hex(b)[2 * k + 1] == HexDigit(b[k] % 16)
  {
    if k > 0 {
      HexOfByte(b[1..], k - 1);
    }
  }

  function Hex(b: Bytes): (s: string)
    ensures |s| == 2 * |b| && forall i :: 0 <= i < |s| ==> IsHex(s[i])
  {
    if |b| == 0 then "" else [HexDigit(b[0] / 16), HexDigit(b[0] % 16)] + Hex(b[1..])
  }

  /** Every even run of hexadecimal digits is the text of some bytes, and of no others. */
  lemma {:induction false} HexIsOnto(s: string) returns (b: Bytes)
    requires |s| % 2 == 0 && forall i :: 0 <= i < |s| ==> IsHex(s[i])
    ensures Hex(b) == s
  {
    if |s| == 0 {
      b := [];
    } else {
      var rest := HexIsOnto(s[2..]);
      b := [HexValue(s[0]) * 16 + HexValue(s[1])] + rest;
      assert b[1..] == rest;
      assert s == [s[0], s[1]] + s[2..];
    }
  }

  lemma {:induction false} HexIsInjective(a: Bytes, b: Bytes)
    requires Hex(a) == Hex(b)
    ensures a == b
  {
    if |a| > 0 {
      var s, t := Hex(a), Hex(b);
      assert s[2..] == Hex(a[1..]) && t[2..] == Hex(b[1..]);
      assert s[0] == t[0] && s[1] == t[1];
      HexIsInjective(a[1..], b[1..]);
      assert HexValue(HexDigit(a[0] / 16)) == HexValue(HexDigit(b[0] / 16));
      assert HexValue(HexDigit(a[0] % 16)) == HexValue(HexDigit(b[0] % 16));
      assert a == [a[0]] + a[1..] && b == [b[0]] + b[1..];
    }
  }
}
