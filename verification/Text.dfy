/**
 Go strings as sequences of octets.

 Where the source works on bytes, each `char` of a Dafny `string` stands for one octet, that is, a
 value below 256.  `IsOctets` names that subset; most functions here are total on all strings.
 */
module Text {
  import opened Wrappers

  type Octet = x: int | 0 <= x < 256

  predicate IsOctets(s: string) {
    forall i :: 0 <= i < |s| ==> s[i] as int < 256
  }

  // ---------------------------------------------------------------- ASCII letter case

  predicate IsAscii(s: string) {
    forall i :: 0 <= i < |s| ==> s[i] as int < 128
  }

  function LowerChar(c: char): char {
    if 'A' <= c <= 'Z' then (c as int + 32) as char else c
  }

  function AsciiLower(s: string): (r: string)
    ensures |r| == |s|
  {
    seq(|s|, i requires 0 <= i < |s| => LowerChar(s[i]))
  }

  // ---------------------------------------------------------------- searching

  /** strings.IndexByte: the first position of `c`, or -1. */
  function IndexOf(s: string, c: char): (i: int)
    ensures -1 <= i < |s|
    ensures i >= 0 ==> s[i] == c && c !in s[..i]
    ensures i == -1 ==> c !in s
  {
    if s == "" then -1
    else if s[0] == c then 0
    else
      var rest := IndexOf(s[1..], c);
      if rest < 0 then -1 else rest + 1
  }

  lemma IndexOfConcat(a: string, c: char, b: string)
    requires c !in a
    ensures IndexOf(a + [c] + b, c) == |a|
  {
    var s := a + [c] + b;
    assert s[|a|] == c && s[..|a|] == a;
  }

  // ---------------------------------------------------------------- split and join

  /** strings.Split with a one-character separator; never empty. */
  function Split(s: string, sep: char): (parts: seq<string>)
    ensures |parts| >= 1
    ensures forall i :: 0 <= i < |parts| ==> sep !in parts[i]
  {
    if s == "" then [""]
    else
      var rest := Split(s[1..], sep);
      if s[0] == sep then [""] + rest
      else [[s[0]] + rest[0]] + rest[1..]
  }

  /** strings.Join with a one-character separator. */
  function Join(parts: seq<string>, sep: char): string {
    if |parts| == 0 then ""
    else if |parts| == 1 then parts[0]
    else parts[0] + [sep] + Join(parts[1..], sep)
  }

  lemma {:induction false} JoinSplit(s: string, sep: char)
    ensures Join(Split(s, sep), sep) == s
  {
    if s != "" {
      JoinSplit(s[1..], sep);
      var rest := Split(s[1..], sep);
      var parts := Split(s, sep);
      if s[0] == sep {
        assert parts[1..] == rest;
      } else {
        assert parts[1..] == rest[1..];
        assert Join(parts, sep) == [s[0]] + Join(rest, sep);
      }
      assert s == [s[0]] + s[1..];
    }
  }

  lemma {:induction false} SplitPiece(piece: string, sep: char)
    requires sep !in piece
    ensures Split(piece, sep) == [piece]
  {
    if piece != "" {
      SplitPiece(piece[1..], sep);
      assert piece == [piece[0]] + piece[1..];
    }
  }

  lemma {:induction false} SplitHead(piece: string, sep: char, rest: string)
    requires sep !in piece
    ensures Split(piece + [sep] + rest, sep) == [piece] + Split(rest, sep)
  {
    var s := piece + [sep] + rest;
    if piece == "" {
      assert s[1..] == rest;
    } else {
      SplitHead(piece[1..], sep, rest);
      assert s[1..] == piece[1..] + [sep] + rest;
      assert piece == [piece[0]] + piece[1..];
    }
  }

  lemma {:induction false} SplitJoin(parts: seq<string>, sep: char)
    requires |parts| >= 1
    requires forall i :: 0 <= i < |parts| ==> sep !in parts[i]
    ensures Split(Join(parts, sep), sep) == parts
  {
    if |parts| == 1 {
      SplitPiece(parts[0], sep);
    } else {
      SplitJoin(parts[1..], sep);
      SplitHead(parts[0], sep, Join(parts[1..], sep));
      assert parts == [parts[0]] + parts[1..];
    }
  }

  // ---------------------------------------------------------------- decimal

  predicate IsDigit(c: char) {
    '0' <= c <= '9'
  }

  predicate AllDigits(s: string) {
    forall i :: 0 <= i < |s| ==> IsDigit(s[i])
  }

  function Digit(d: nat): (c: char)
    requires d < 10
    ensures IsDigit(c) && c as int == 48 + d
  {
    (48 + d) as char
  }

  function Decimal(n: nat): (s: string)
    ensures s != "" && AllDigits(s)
  {
    if n < 10 then [Digit(n)] else Decimal(n / 10) + [Digit(n % 10)]
  }

  /** Decimal printing of a signed integer, as the %d verb does it. */
  function DecimalInt(n: int): (s: string)
    ensures s != ""
  {
    if n < 0 then "-" + Decimal(-n) else Decimal(n)
  }

  function ParseDigits(s: string): nat
    requires AllDigits(s)
  {
    if s == "" then 0
    else 10 * ParseDigits(s[..|s| - 1]) + (s[|s| - 1] as int - 48)
  }

  lemma {:induction false} ParseDecimal(n: nat)
    ensures ParseDigits(Decimal(n)) == n
  {
    if n >= 10 {
      ParseDecimal(n / 10);
      var s := Decimal(n);
      assert s[..|s| - 1] == Decimal(n / 10);
    } else {
      assert Decimal(n)[..0] == "";
    }
  }

  lemma DecimalIntInjective(m: int, n: int)
    ensures DecimalInt(m) == DecimalInt(n) <==> m == n
  {
    assert DecimalInt(m)[0] == '-' <==> m < 0;
    assert DecimalInt(n)[0] == '-' <==> n < 0;
    if DecimalInt(m) == DecimalInt(n) {
      ParseDecimal(if m < 0 then -m else m);
      ParseDecimal(if n < 0 then -n else n);
      if m < 0 && n < 0 {
        assert DecimalInt(m)[1..] == Decimal(-m) && DecimalInt(n)[1..] == Decimal(-n);
      }
    }
  }

  function Pow10(k: nat): (p: nat)
    ensures p >= 1
  {
    if k == 0 then 1 else 10 * Pow10(k - 1)
  }

  /** A number below 10^k prints in at most k digits, and no fewer than its size needs. */
  lemma {:induction false} DecimalLength(n: nat, k: nat)
    requires k >= 1
    ensures |Decimal(n)| <= k <==> n < Pow10(k)
  {
    if k == 1 {
      assert Pow10(1) == 10 * Pow10(0);
    } else if n >= 10 {
      DecimalLength(n / 10, k - 1);
    } else {
      assert Pow10(k) == 10 * Pow10(k - 1);
    }
  }

  // ---------------------------------------------------------------- hexadecimal

  function HexDigit(d: nat, upper: bool): (c: char)
    requires d < 16
    ensures '0' <= c <= '9' || 'a' <= c <= 'f' || 'A' <= c <= 'F'
  {
    if d < 10 then (48 + d) as char
    else if upper then (55 + d) as char
    else (87 + d) as char
  }

  predicate IsHex(c: char) {
    '0' <= c <= '9' || 'a' <= c <= 'f' || 'A' <= c <= 'F'
  }

  function Unhex(c: char): (d: nat)
    requires IsHex(c)
    ensures d < 16
  {
    if '0' <= c <= '9' then c as int - 48
    else if 'a' <= c <= 'f' then c as int - 87
    else c as int - 55
  }

  predicate IsLowerHex(c: char) {
    '0' <= c <= '9' || 'a' <= c <= 'f'
  }

  /** The digits in their order, in both letter cases. */
  lemma HexDigitOrder(d: nat)
    requires d < 16
    ensures HexDigit(d, false) == "0123456789abcdef"[d] && IsLowerHex(HexDigit(d, false))
    ensures HexDigit(d, true) == "0123456789ABCDEF"[d]
    ensures Unhex("0123456789abcdef"[d]) == Unhex("0123456789ABCDEF"[d]) == d
  {
    assert d == 0 || d == 1 || d == 2 || d == 3 || d == 4 || d == 5 || d == 6 || d == 7
        || d == 8 || d == 9 || d == 10 || d == 11 || d == 12 || d == 13 || d == 14 || d == 15;
  }

  // ---------------------------------------------------------------- percent-encoding

  /** url.QueryUnescape when `plusIsSpace`, url.PathUnescape otherwise: None stands for an EscapeError. */
  function Unescape(s: string, plusIsSpace: bool): Option<string> {
    if s == "" then Some("")
    else if s[0] == '%' then
      if |s| < 3 || !IsHex(s[1]) || !IsHex(s[2]) then None
      else
        match Unescape(s[3..], plusIsSpace)
        case None => None
        case Some(rest) => Some([(16 * Unhex(s[1]) + Unhex(s[2])) as char] + rest)
    else
      match Unescape(s[1..], plusIsSpace)
      case None => None
      case Some(rest) => Some([if s[0] == '+' && plusIsSpace then ' ' else s[0]] + rest)
  }
}
