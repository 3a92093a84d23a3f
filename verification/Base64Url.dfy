/** Unpadded base64url, section 5 of RFC 4648 without the '=' signs (base64.RawURLEncoding). */
module Base64Url {
  import opened Wrappers
  import opened Text

  type Sextet = x: int | 0 <= x < 64

  function CharOf(d: Sextet): char {
    if d < 26 then (65 + d) as char
    else if d < 52 then (71 + d) as char
    else if d < 62 then (d - 4) as char
    else if d == 62 then '-'
    else '_'
  }

  predicate IsSymbol(c: char) {
    'A' <= c <= 'Z' || 'a' <= c <= 'z' || '0' <= c <= '9' || c == '-' || c == '_'
  }

  predicate AllSymbols(s: string) {
    forall i :: 0 <= i < |s| ==> IsSymbol(s[i])
  }

  function ValueOf(c: char): Sextet
    requires IsSymbol(c)
  {
    if 'A' <= c <= 'Z' then c as int - 65
    else if 'a' <= c <= 'z' then c as int - 71
    else if '0' <= c <= '9' then c as int + 4
    else if c == '-' then 62
    else 63
  }

  lemma ValueOfCharOf(d: Sextet)
    ensures IsSymbol(CharOf(d)) && ValueOf(CharOf(d)) == d
  {
  }

  /** The last one or two octets are filled up with zero bits and give two or three characters. */
  function Encode(b: seq<Octet>): string {
    if |b| == 0 then ""
    else if |b| == 1 then Quad(b[0], 0, 0)[..2]
    else if |b| == 2 then Quad(b[0], b[1], 0)[..3]
    else Quad(b[0], b[1], b[2]) + Encode(b[3..])
  }

  /** Three octets as four characters. */
  function Quad(a: Octet, b: Octet, c: Octet): (s: string)
    ensures |s| == 4 && AllSymbols(s)
  {
    ValueOfCharOf(a / 4);
    ValueOfCharOf(a % 4 * 16 + b / 16);
    ValueOfCharOf(b % 16 * 4 + c / 64);
    ValueOfCharOf(c % 64);
    [CharOf(a / 4), CharOf(a % 4 * 16 + b / 16), CharOf(b % 16 * 4 + c / 64), CharOf(c % 64)]
  }

  function First(s0: char, s1: char): Octet
    requires IsSymbol(s0) && IsSymbol(s1)
  {
    ValueOf(s0) * 4 + ValueOf(s1) / 16
  }

  function Second(s1: char, s2: char): Octet
    requires IsSymbol(s1) && IsSymbol(s2)
  {
    ValueOf(s1) % 16 * 16 + ValueOf(s2) / 4
  }

  function Third(s2: char, s3: char): Octet
    requires IsSymbol(s2) && IsSymbol(s3)
  {
    ValueOf(s2) % 4 * 64 + ValueOf(s3)
  }

  lemma Regroup(a: Octet, b: Octet, c: Octet)
    ensures (a % 4 * 16 + b / 16) / 16 == a % 4 && (a % 4 * 16 + b / 16) % 16 == b / 16
    ensures (b % 16 * 4 + c / 64) / 4 == b % 16 && (b % 16 * 4 + c / 64) % 4 == c / 64
  {
  }

  lemma QuadDecodes(a: Octet, b: Octet, c: Octet)
    ensures var s := Quad(a, b, c);
            First(s[0], s[1]) == a && Second(s[1], s[2]) == b && Third(s[2], s[3]) == c
  {
    Regroup(a, b, c);
    ValueOfCharOf(a / 4);
    ValueOfCharOf(a % 4 * 16 + b / 16);
    ValueOfCharOf(b % 16 * 4 + c / 64);
    ValueOfCharOf(c % 64);
  }

  /** None for a text that no octet sequence encodes to, by its characters or its length. */
  function Decode(s: string): Option<seq<Octet>> {
    if AllSymbols(s) then DecodeSymbols(s) else None
  }

  function DecodeSymbols(s: string): Option<seq<Octet>>
    requires AllSymbols(s)
  {
    if |s| == 0 then Some([])
    else if |s| == 1 then None
    else
      var o1 := First(s[0], s[1]);
      if |s| == 2 then Some([o1])
      else
        var o2 := Second(s[1], s[2]);
        if |s| == 3 then Some([o1, o2])
        else
          match DecodeSymbols(s[4..])
          case None => None
          case Some(rest) => Some([o1, o2, Third(s[2], s[3])] + rest)
  }

  lemma {:induction false} EncodeShape(b: seq<Octet>)
    ensures |Encode(b)| == (4 * |b| + 2) / 3
    ensures AllSymbols(Encode(b))
  {
    if |b| >= 3 {
      EncodeShape(b[3..]);
    }
  }

  lemma {:induction false} DecodeEncode(b: seq<Octet>)
    ensures Decode(Encode(b)) == Some(b)
  {
    DecodeSymbolsEncode(b);
  }

  lemma DecodeQuad(a: Octet, b: Octet, c: Octet, rest: string)
    requires AllSymbols(rest)
    ensures var s := Quad(a, b, c) + rest;
            && AllSymbols(s)
            && DecodeSymbols(s) == match DecodeSymbols(rest) { case None => None case Some(r) => Some([a, b, c] + r) }
  {
    QuadDecodes(a, b, c);
    assert (Quad(a, b, c) + rest)[4..] == rest;
  }

  lemma DecodeTail(a: Octet, b: Octet)
    ensures DecodeSymbols(Quad(a, 0, 0)[..2]) == Some([a])
    ensures DecodeSymbols(Quad(a, b, 0)[..3]) == Some([a, b])
  {
    QuadDecodes(a, 0, 0);
    QuadDecodes(a, b, 0);
  }

  lemma EncodeStep(b: seq<Octet>)
    requires |b| >= 3
    ensures Encode(b) == Quad(b[0], b[1], b[2]) + Encode(b[3..])
  {
    hide Quad;
  }

  lemma Displays<T>(b: seq<T>)
    ensures |b| == 1 ==> b == [b[0]]
    ensures |b| == 2 ==> b == [b[0], b[1]]
    ensures |b| >= 3 ==> b == [b[0], b[1], b[2]] + b[3..]
  {
  }

  lemma EncodeTail(b: seq<Octet>)
    ensures |b| == 1 ==> Encode(b) == Quad(b[0], 0, 0)[..2]
    ensures |b| == 2 ==> Encode(b) == Quad(b[0], b[1], 0)[..3]
  {
  }

  lemma {:induction false} DecodeSymbolsEncode(b: seq<Octet>)
    ensures AllSymbols(Encode(b)) && DecodeSymbols(Encode(b)) == Some(b)
  {
    EncodeTail(b);
    Displays(b);
    if |b| == 1 {
      DecodeTail(b[0], 0);
    } else if |b| == 2 {
      DecodeTail(b[0], b[1]);
    } else if |b| >= 3 {
      DecodeSymbolsEncode(b[3..]);
      DecodeQuad(b[0], b[1], b[2], Encode(b[3..]));
      EncodeStep(b);
    }
  }

  /** Different octets never share an encoding. */
  lemma EncodeIsInjective(a: seq<Octet>, b: seq<Octet>)
    ensures Encode(a) == Encode(b) <==> a == b
  {
    DecodeEncode(a);
    DecodeEncode(b);
  }

  // ---------------------------------------------------------------- agreement with the table

  /** The order of table 2 of RFC 4648: capital letters, small letters, digits, then '-' and '_'. */
  lemma AlphabetOrder(d: Sextet)
    ensures d < 26 ==> 'A' <= CharOf(d) <= 'Z' && CharOf(d) as int - 'A' as int == d
    ensures 26 <= d < 52 ==> 'a' <= CharOf(d) <= 'z' && CharOf(d) as int - 'a' as int == d - 26
    ensures 52 <= d < 62 ==> '0' <= CharOf(d) <= '9' && CharOf(d) as int - '0' as int == d - 52
    ensures CharOf(62) == '-' && CharOf(63) == '_'
  {
  }

  /** Three octets and their four digits are the same number, highest part first. */
  lemma QuadIsBigEndian(a: Octet, b: Octet, c: Octet)
    ensures var s := Quad(a, b, c);
            ((ValueOf(s[0]) * 64 + ValueOf(s[1])) * 64 + ValueOf(s[2])) * 64 + ValueOf(s[3]) == (a * 256 + b) * 256 + c
  {
    ValueOfCharOf(a / 4);
    ValueOfCharOf(a % 4 * 16 + b / 16);
    ValueOfCharOf(b % 16 * 4 + c / 64);
    ValueOfCharOf(c % 64);
  }
}
