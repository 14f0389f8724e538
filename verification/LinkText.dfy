/** The text functions under the ed2k links: splitting, stripping, unescaping, decimal and hexadecimal numbers. */
module LinkText {
  import opened Words

  predicate IsSpace(c: char) {
    c == ' ' || '\t' <= c <= '\r'
  }

  /** Space, tab, line feed, vertical tab, form feed, carriage return. */
  lemma SpacesAre(c: char)
    ensures IsSpace(c) <==> c in {' ', '\t', '\n', '\U{B}', '\U{C}', '\r'}
  {
    if '\t' <= c <= '\r' {
      var n := c as int;
      assert n == 9 || n == 10 || n == 11 || n == 12 || n == 13;
      assert (n as char) == c;
    }
  }

  predicate IsDigit(c: char) {
    '0' <= c <= '9'
  }

  // ---- splitting at '|' ------------------------------------------------------------

  /** The position of the first '|', or the length. */
  function Bar(s: string): (i: nat)
    ensures i <= |s| && '|' !in s[..i] && (i < |s| ==> s[i] == '|')
  {
    if s == "" || s[0] == '|' then 0 else 1 + Bar(s[1..])
  }

  /** wxStringTokenizer with empty tokens returned. */
  function Split(s: string): (r: seq<string>)
    ensures r != []
    decreases |s|
  {
    if Bar(s) == |s| then [s] else [s[..Bar(s)]] + Split(s[Bar(s) + 1..])
  }

  /** A field and what follows it. */
  function Then(a: string, rest: string): string {
    a + "|" + rest
  }

  lemma {:induction false} BarBehind(a: string, rest: string)
    requires '|' !in a
    ensures Bar(Then(a, rest)) == |a|
  {
    if a == "" {
      assert Then(a, rest)[0] == '|';
    } else {
      BarBehind(a[1..], rest);
      assert Then(a, rest)[1..] == Then(a[1..], rest);
    }
  }

  lemma SplitFirst(a: string, rest: string)
    requires '|' !in a
    ensures Split(Then(a, rest)) == [a] + Split(rest)
  {
    var s := Then(a, rest);
    BarBehind(a, rest);
    assert s[..|a|] == a && s[|a| + 1..] == rest;
    hide Bar;
  }

  lemma SplitOne(s: string)
    requires '|' !in s
    ensures Split(s) == [s]
  {
    assert Bar(s) == |s|;
  }

  lemma SplitIsOne(s: string)
    ensures '|' !in s <==> |Split(s)| == 1
    ensures '|' !in s ==> Split(s) == [s]
  {
    assert s[..|s|] == s;
  }

  lemma ThenIsAssociative(a: string, b: string, c: string)
    ensures Then(Then(a, b), c) == Then(a, Then(b, c))
  {
  }

  lemma CutAtBar(s: string) returns (cut: string, rest: string)
    requires '|' in s
    ensures s == Then(cut, rest) && '|' !in cut && |rest| < |s|
  {
    var at := Bar(s);
    assert s[..|s|] == s;
    cut, rest := s[..at], s[at + 1..];
  }

  lemma Associates(x: seq<string>, y: seq<string>, z: seq<string>)
    ensures x + (y + z) == (x + y) + z
  {
  }

  /** The fields of two texts with a bar between them, whatever bars they hold themselves. */
  lemma {:induction false} SplitBoth(a: string, b: string)
    ensures Split(Then(a, b)) == Split(a) + Split(b)
    decreases |a|
  {
    hide *;
    if '|' !in a {
      SplitOne(a);
      SplitFirst(a, b);
    } else {
      var cut, rest := CutAtBar(a);
      ThenIsAssociative(cut, rest, b);
      SplitFirst(cut, rest);
      SplitFirst(cut, Then(rest, b));
      SplitBoth(rest, b);
      Associates([cut], Split(rest), Split(b));
    }
  }

  // ---- stripping -------------------------------------------------------------------

  function StripLeft(s: string): (r: string)
    ensures |r| <= |s|
  {
    if s != "" && IsSpace(s[0]) then StripLeft(s[1..]) else s
  }

  function StripRight(s: string): (r: string)
    ensures |r| <= |s|
  {
    if s != "" && IsSpace(s[|s| - 1]) then StripRight(s[..|s| - 1]) else s
  }

  function Strip(s: string): (r: string)
    ensures |r| <= |s|
  {
    StripRight(StripLeft(s))
  }

  predicate IsStripped(s: string) {
    s == "" || (!IsSpace(s[0]) && !IsSpace(s[|s| - 1]))
  }

  lemma StripKeeps(s: string)
    ensures Strip(s) == s <==> IsStripped(s)
    ensures !IsStripped(s) ==> |Strip(s)| < |s|
  {
    if s != "" && IsSpace(s[0]) {
      assert |StripLeft(s)| <= |s[1..]|;
    } else {
      assert StripLeft(s) == s;
      if s != "" && IsSpace(s[|s| - 1]) {
        assert |StripRight(s)| <= |s[..|s| - 1]|;
      }
    }
  }

  // ---- unescaping ------------------------------------------------------------------

  /** The value of a hexadecimal digit in either case. */
  function HexDigit(c: char): Option<nat> {
    if '0' <= c <= '9' then Some((c - '0') as nat)
    else if 'A' <= c <= 'F' then Some((c - 'A') as nat + 10)
    else if 'a' <= c <= 'f' then Some((c - 'a') as nat + 10)
    else None
  }

  /** The character of a two-digit code; 0 if it is not one. */
  function Code(high: char, low: char): (r: nat)
    ensures r < 256
  {
    match (HexDigit(high), HexDigit(low))
    case (Some(h), Some(l)) => 16 * h + l
    case _ => 0
  }

  /** Two digits in either case are the number they write, and anything else is 0. */
  lemma CodeTells(n: nat)
    requires n < 256
    ensures Code("0123456789ABCDEF"[n / 16], "0123456789ABCDEF"[n % 16]) == n
    ensures Code("0123456789abcdef"[n / 16], "0123456789abcdef"[n % 16]) == n
  {
    DigitTells(n / 16);
    DigitTells(n % 16);
    hide HexDigit;
  }

  lemma DigitTells(d: nat)
    requires d < 16
    ensures HexDigit("0123456789ABCDEF"[d]) == HexDigit("0123456789abcdef"[d]) == Some(d)
  {
  }

  lemma NoCode(high: char, low: char)
    requires high !in "0123456789ABCDEFabcdef" || low !in "0123456789ABCDEFabcdef"
    ensures Code(high, low) == 0
  {
    NoDigit(high);
    NoDigit(low);
    hide HexDigit;
  }

  lemma NoDigit(c: char)
    ensures c !in "0123456789ABCDEFabcdef" ==> HexDigit(c).None?
  {
    var all := "0123456789ABCDEFabcdef";
    if '0' <= c <= '9' {
      assert all[(c - '0') as nat] == c;
    } else if 'A' <= c <= 'F' {
      assert all[(c - 'A') as nat + 10] == c;
    } else if 'a' <= c <= 'f' {
      assert all[(c - 'a') as nat + 16] == c;
    }
  }

  predicate EscapeAt(s: string, i: nat) {
    i + 2 < |s| && s[i] == '%' && Code(s[i + 1], s[i + 2]) != 0
  }

  function Unescape(s: string): (r: string)
    ensures |r| <= |s|
  {
    if s == "" then ""
    else if EscapeAt(s, 0) then [Code(s[1], s[2]) as char] + Unescape(s[3..])
    else [s[0]] + Unescape(s[1..])
  }

  lemma UnescapeCode(high: char, low: char, rest: string)
    requires Code(high, low) != 0
    ensures Unescape(['%', high, low] + rest) == [Code(high, low) as char] + Unescape(rest)
  {
    var s := ['%', high, low] + rest;
    assert s[3..] == rest;
    hide Code;
  }

  lemma UnescapeOne(c: char, rest: string)
    requires !EscapeAt([c] + rest, 0)
    ensures Unescape([c] + rest) == [c] + Unescape(rest)
  {
    assert ([c] + rest)[1..] == rest;
    hide EscapeAt;
  }

  /** A code in front of a text, in either case, is its character; the code 00 stays. */
  lemma CodeIsRead(n: nat, rest: string)
    requires n < 256
    ensures var upper, lower := ['%', "0123456789ABCDEF"[n / 16], "0123456789ABCDEF"[n % 16]],
                                ['%', "0123456789abcdef"[n / 16], "0123456789abcdef"[n % 16]];
            && (n > 0 ==> Unescape(upper + rest) == Unescape(lower + rest) == [n as char] + Unescape(rest))
            && (n == 0 ==> Unescape(upper + rest) == ['%'] + Unescape("00" + rest))
  {
    CodeTells(n);
    hide Code, Unescape;
    var high, low := n / 16, n % 16;
    if n > 0 {
      UnescapeCode("0123456789ABCDEF"[high], "0123456789ABCDEF"[low], rest);
      UnescapeCode("0123456789abcdef"[high], "0123456789abcdef"[low], rest);
    } else {
      assert ['%', '0', '0'] + rest == ['%'] + ("00" + rest);
      UnescapeOne('%', "00" + rest);
    }
  }

  /** Everything that is no code stays. */
  lemma OtherStays(c: char, rest: string)
    requires c != '%' || |rest| < 2 || rest[0] !in "0123456789ABCDEFabcdef" || rest[1] !in "0123456789ABCDEFabcdef"
    ensures Unescape([c] + rest) == [c] + Unescape(rest)
  {
    if |rest| >= 2 && (rest[0] !in "0123456789ABCDEFabcdef" || rest[1] !in "0123456789ABCDEFabcdef") {
      NoCode(rest[0], rest[1]);
    }
    hide Code, Unescape;
    UnescapeOne(c, rest);
  }

  ghost predicate NoEscape(s: string) {
    forall i: nat :: !EscapeAt(s, i)
  }

  /** Text without an escape code stays; with one it gets shorter. */
  lemma {:induction false} UnescapeKeeps(s: string)
    ensures Unescape(s) == s <==> NoEscape(s)
    ensures !NoEscape(s) ==> |Unescape(s)| < |s|
  {
    if s == "" {
    } else if EscapeAt(s, 0) {
      assert |Unescape(s)| <= |s| - 2;
    } else {
      var rest := Unescape(s[1..]);
      assert Unescape(s) == [s[0]] + rest && s == [s[0]] + s[1..];
      hide Unescape, EscapeAt, NoEscape;
      UnescapeKeeps(s[1..]);
      NoEscapeBehind(s);
      assert Unescape(s)[1..] == rest;
    }
  }

  lemma NoEscapeBehind(s: string)
    requires s != "" && !EscapeAt(s, 0)
    ensures NoEscape(s) <==> NoEscape(s[1..])
  {
    if i: nat :| EscapeAt(s, i) {
      assert EscapeAt(s[1..], i - 1);
    }
    if i: nat :| EscapeAt(s[1..], i) {
      assert EscapeAt(s, i + 1);
    }
  }

  // ---- paths -----------------------------------------------------------------------

  function NoPath(s: string): (r: string)
    ensures |r| == |s| && '/' !in r
  {
    seq(|s|, i requires 0 <= i < |s| => if s[i] == '/' then '_' else s[i])
  }

  /** Every slash becomes an underscore, and nothing else changes. */
  lemma NoPathTells(a: string, b: string)
    ensures NoPath(a + "/" + b) == NoPath(a) + "_" + NoPath(b)
    ensures '/' !in a ==> NoPath(a) == a
  {
  }

  lemma NoPathKeeps(s: string)
    ensures NoPath(s) == s <==> '/' !in s
  {
  }

  // ---- decimal numbers -------------------------------------------------------------

  predicate IsNumber(s: string) {
    s != "" && forall i :: 0 <= i < |s| ==> IsDigit(s[i])
  }

  function Digits(n: nat): (r: string)
    ensures IsNumber(r)
  {
    if n < 10 then [('0' as nat + n) as char] else Digits(n / 10) + [('0' as nat + n % 10) as char]
  }

  function Value(s: string): nat
    requires forall i :: 0 <= i < |s| ==> IsDigit(s[i])
  {
    if s == "" then 0
    else
      var last := s[|s| - 1];
      assert IsDigit(last);
      10 * Value(s[..|s| - 1]) + (last - '0') as nat
  }

  lemma DigitChar(d: nat)
    requires d < 10
    ensures ('0' as nat + d) as char == "0123456789"[d]
  {
  }

  /** The digits of a number, the lowest last. */
  lemma DigitsTell(n: nat)
    ensures Digits(n) == (if n < 10 then "" else Digits(n / 10)) + ["0123456789"[n % 10]]
  {
    DigitChar(n % 10);
    var last := ["0123456789"[n % 10]];
    assert "" + last == last;
  }

  lemma {:induction false} ValueOfDigits(n: nat)
    ensures Value(Digits(n)) == n
  {
    var s := Digits(n);
    if n < 10 {
      assert s[..0] == "";
    } else {
      ValueOfDigits(n / 10);
      assert s[..|s| - 1] == Digits(n / 10);
    }
  }

  function Power(k: nat): nat {
    if k == 0 then 1 else 10 * Power(k - 1)
  }

  lemma {:induction false} DigitsAreFew(n: nat, k: nat)
    requires n < Power(k + 1)
    ensures |Digits(n)| <= k + 1
    decreases k
  {
    if n >= 10 && k > 0 {
      assert n / 10 < Power(k);
      DigitsAreFew(n / 10, k - 1);
    }
  }

  /** wxString::ToULongLong, 0 when it fails: an optional sign and digits, at most 64 bits; a minus wraps around. */
  function StrToULongLong(s: string): uint64 {
    var signed := s != "" && (s[0] == '-' || s[0] == '+');
    var digits := if signed then s[1..] else s;
    if !IsNumber(digits) || Value(digits) >= TWO64 then 0
    else if signed && s[0] == '-' then (TWO64 - Value(digits)) % TWO64
    else Value(digits)
  }

  lemma NumberIsUnsigned(n: nat)
    requires n < TWO64
    ensures StrToULongLong(Digits(n)) == n
  {
    ValueOfDigits(n);
    assert IsDigit(Digits(n)[0]);
    hide Digits, Value;
  }

  lemma SignedDigits(sign: char, digits: string)
    requires IsNumber(digits) && Value(digits) < TWO64 && (sign == '+' || sign == '-')
    ensures StrToULongLong([sign] + digits) == if sign == '-' then (TWO64 - Value(digits)) % TWO64 else Value(digits)
  {
    assert ([sign] + digits)[1..] == digits;
    hide Value, IsNumber;
  }

  /** A plus is skipped, and a minus takes the number away from 2^64. */
  lemma SignedTells(n: nat, sign: char)
    requires n < 0x1_0000_0000_0000_0000
    ensures sign == '+' ==> StrToULongLong([sign] + Digits(n)) == n
    ensures sign == '-' && n > 0 ==> StrToULongLong([sign] + Digits(n)) == 0x1_0000_0000_0000_0000 - n
  {
    ValueOfDigits(n);
    hide Digits, Value, IsNumber, StrToULongLong;
    if sign == '+' || sign == '-' {
      SignedDigits(sign, Digits(n));
    }
  }

  /** What does not fit 64 bits or is no number is 0. */
  lemma NumberTells(n: nat, s: string)
    ensures n >= 0x1_0000_0000_0000_0000 ==> StrToULongLong(Digits(n)) == 0
    ensures !IsNumber(s) && (s == "" || s[0] !in "+-" || !IsNumber(s[1..])) ==> StrToULongLong(s) == 0
  {
    ValueOfDigits(n);
    assert IsDigit(Digits(n)[0]);
    hide Digits, Value, IsNumber;
  }

  // ---- hashes ----------------------------------------------------------------------

  type Hash = h: seq<uint8> | |h| == 16 witness seq(16, _ => 0)

  function HexChar(x: nat): char
    requires x < 16
  {
    if x < 10 then ('0' as nat + x) as char else ('A' as nat + (x - 10)) as char
  }

  function Encode(h: seq<uint8>): (r: string)
    ensures |r| == 2 * |h|
  {
    if h == [] then "" else [HexChar(h[0] / 16), HexChar(h[0] % 16)] + Encode(h[1..])
  }

  predicate IsMD4Hash(s: string) {
    |s| == 32 && forall i :: 0 <= i < |s| ==> HexDigit(s[i]).Some?
  }

  function DecodeBytes(s: string): (r: seq<uint8>)
    requires |s| % 2 == 0 && forall i :: 0 <= i < |s| ==> HexDigit(s[i]).Some?
    ensures |r| == |s| / 2
  {
    if s == "" then [] else [16 * HexDigit(s[0]).value + HexDigit(s[1]).value] + DecodeBytes(s[2..])
  }

  function Decode(s: string): Option<Hash> {
    if IsMD4Hash(s) then Some(DecodeBytes(s)) else None
  }

  lemma {:induction false} EncodeIsHex(h: seq<uint8>)
    ensures forall i :: 0 <= i < |Encode(h)| ==> HexDigit(Encode(h)[i]).Some?
    ensures DecodeBytes(Encode(h)) == h
  {
    if h != [] {
      EncodeIsHex(h[1..]);
      HexOfChar(h[0] / 16);
      HexOfChar(h[0] % 16);
      var s := Encode(h);
      assert s[2..] == Encode(h[1..]);
      hide HexDigit, HexChar;
      forall i | 0 <= i < |s|
        ensures HexDigit(s[i]).Some?
      {
        if i >= 2 {
          assert s[i] == Encode(h[1..])[i - 2];
        }
      }
      assert h == [h[0]] + h[1..];
    }
  }

  /** Each byte is printed in two capital digits, the high one first, and read back so in either case. */
  lemma {:induction false} EncodeTells(h: seq<uint8>, i: nat)
    requires i < |h|
    ensures Encode(h)[2 * i] == "0123456789ABCDEF"[h[i] / 16] && Encode(h)[2 * i + 1] == "0123456789ABCDEF"[h[i] % 16]
    decreases i
  {
    if i > 0 {
      hide HexChar;
      EncodeTells(h[1..], i - 1);
    }
  }

  lemma HexOfChar(x: nat)
    requires x < 16
    ensures HexDigit(HexChar(x)) == Some(x)
  {
  }

  lemma DecodeOfEncode(h: Hash)
    ensures Decode(Encode(h)) == Some(h)
  {
    EncodeIsHex(h);
    hide HexDigit, Encode;
  }
}
