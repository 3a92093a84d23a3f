/**
 Request identifiers: validation, sanitising of a rejected client value and generation
 (core/internal/middleware/request_id.go).
 */
module RequestId {
  import opened Wrappers
  import opened Text
  import opened Utf8
  import opened Counter64

  const MAX_LENGTH := 128

  // ---------------------------------------------------------------- validation

  predicate IsPrintable(c: char) {
    0x21 <= c as int <= 0x7E
  }

  predicate AllPrintable(s: string) {
    forall i :: 0 <= i < |s| ==> IsPrintable(s[i])
  }

  predicate IsValid(s: string) {
    s != "" && |s| <= MAX_LENGTH && AllPrintable(s)
  }

  /** isValidRequestID: an index loop with early exit. */
  method IsValidRequestId(s: string) returns (ok: bool)
    ensures ok == IsValid(s)
    ensures ok <==> 1 <= |s| <= 128 && forall i :: 0 <= i < |s| ==> 0x21 <= s[i] as int <= 0x7E
  {
    if s == "" {
      return false;
    }
    if |s| > MAX_LENGTH {
      return false;
    }
    for i := 0 to |s|
      invariant AllPrintable(s[..i])
    {
      var c := s[i] as int;
      if c < 0x21 || c > 0x7E {
        return false;
      }
    }
    assert s[..|s|] == s;
    return true;
  }

  // ---------------------------------------------------------------- sanitising

  /** Lower-case hexadecimal, padded with zeros to `width` digits (the verb %04x for width 4). */
  function PaddedHex(n: nat, width: nat): (s: string)
    ensures |s| >= width && AllPrintable(s)
    decreases n, width
  {
    var last := [HexDigit(n % 16, false)];
    if n < 16 && width <= 1 then last
    else if n < 16 then PaddedHex(0, width - 1) + last
    else PaddedHex(n / 16, if width == 0 then 0 else width - 1) + last
  }

  function Pow16(k: nat): (p: nat)
    ensures p >= 1
  {
    if k == 0 then 1 else 16 * Pow16(k - 1)
  }

  lemma {:induction false} PaddedHexLength(n: nat, width: nat, k: nat)
    requires k >= 1 && width <= k && n < Pow16(k)
    ensures |PaddedHex(n, width)| <= k
    decreases n, width
  {
    if n < 16 && width <= 1 {
    } else if n < 16 {
      PaddedHexLength(0, width - 1, k - 1);
    } else {
      assert Pow16(k) == 16 * Pow16(k - 1);
      assert k >= 2 by {
        assert Pow16(1) == 16 * Pow16(0);
      }
      PaddedHexLength(n / 16, if width == 0 then 0 else width - 1, k - 1);
    }
  }

  /** What one rune contributes: itself, or an escape. */
  function Token(rune: nat): (t: string)
    ensures t != "" && AllPrintable(t)
  {
    if 0x21 <= rune <= 0x7E then [rune as char] else "\\u" + PaddedHex(rune, 4)
  }

  lemma TokenLength(rune: nat)
    requires rune <= MAX_RUNE
    ensures 1 <= |Token(rune)| <= 8
  {
    assert Pow16(6) == 0x1000000;
    PaddedHexLength(rune, 4, 6);
  }

  predicate AllHex(s: string) {
    forall i :: 0 <= i < |s| ==> IsHex(s[i])
  }

  function HexValue(s: string): nat
    requires AllHex(s)
  {
    if s == "" then 0 else 16 * HexValue(s[..|s| - 1]) + Unhex(s[|s| - 1])
  }

  lemma DigitAppended(s: string, d: nat)
    requires AllHex(s) && d < 16
    ensures var r := s + [HexDigit(d, false)]; AllHex(r) && HexValue(r) == 16 * HexValue(s) + d
  {
    var r := s + [HexDigit(d, false)];
    assert r[..|r| - 1] == s;
  }

  /** All digits but the last, and the last. */
  lemma PaddedHexStep(n: nat, width: nat)
    ensures n < 16 && width <= 1 ==> PaddedHex(n, width) == "" + [HexDigit(n, false)]
    ensures n < 16 && width > 1 ==> PaddedHex(n, width) == PaddedHex(0, width - 1) + [HexDigit(n, false)]
    ensures n >= 16 ==>
              PaddedHex(n, width) == PaddedHex(n / 16, if width == 0 then 0 else width - 1) + [HexDigit(n % 16, false)]
  {
  }

  lemma {:induction false} PaddedHexReadsBack(n: nat, width: nat)
    ensures AllHex(PaddedHex(n, width)) && HexValue(PaddedHex(n, width)) == n
    decreases n, width
  {
    PaddedHexStep(n, width);
    hide PaddedHex;
    if n < 16 && width <= 1 {
      DigitAppended("", n);
    } else if n < 16 {
      PaddedHexReadsBack(0, width - 1);
      DigitAppended(PaddedHex(0, width - 1), n);
    } else {
      var w := if width == 0 then 0 else width - 1;
      PaddedHexReadsBack(n / 16, w);
      DigitAppended(PaddedHex(n / 16, w), n % 16);
    }
  }

  /** Different runes give different tokens: the escape still names its code point. */
  lemma TokenIsInjective(a: nat, b: nat)
    ensures Token(a) == Token(b) <==> a == b
  {
    if Token(a) == Token(b) && !(0x21 <= a <= 0x7E) && !(0x21 <= b <= 0x7E) {
      assert Token(a)[2..] == PaddedHex(a, 4) && Token(b)[2..] == PaddedHex(b, 4);
      PaddedHexReadsBack(a, 4);
      PaddedHexReadsBack(b, 4);
    }
  }

  predicate AllLowerHex(s: string) {
    forall i :: 0 <= i < |s| ==> IsLowerHex(s[i])
  }

  lemma {:induction false} PaddedHexIsLower(n: nat, width: nat)
    ensures AllLowerHex(PaddedHex(n, width))
    decreases n, width
  {
    HexDigitOrder(n % 16);
    if n < 16 && width <= 1 {
    } else if n < 16 {
      PaddedHexIsLower(0, width - 1);
    } else {
      PaddedHexIsLower(n / 16, if width == 0 then 0 else width - 1);
    }
  }

  lemma {:induction false} HexValueBound(s: string)
    requires AllHex(s)
    ensures HexValue(s) < Pow16(|s|)
  {
    if s != "" {
      HexValueBound(s[..|s| - 1]);
      assert Pow16(|s|) == 16 * Pow16(|s| - 1);
    }
  }

  lemma {:induction false} Pow16Grows(j: nat, k: nat)
    requires j <= k
    ensures Pow16(j) <= Pow16(k)
  {
    if j < k {
      Pow16Grows(j, k - 1);
    }
  }

  /**
   What stands for a rune: itself, or a backslash, 'u' and its code point in lower-case hexadecimal, with
   four digits or as many more as it needs.
   */
  predicate StandsFor(t: string, rune: nat) {
    if 0x21 <= rune <= 0x7E then t == [rune as char]
    else
      && |t| == (if rune < 0x10000 then 6 else if rune < 0x100000 then 7 else 8)
      && t[0] == '\\' && t[1] == 'u'
      && AllLowerHex(t[2..]) && AllHex(t[2..])
      && HexValue(t[2..]) == rune
  }

  lemma EscapeDigits(rune: nat)
    requires rune <= MAX_RUNE
    ensures |PaddedHex(rune, 4)| == if rune < 0x10000 then 4 else if rune < 0x100000 then 5 else 6
  {
    var s := PaddedHex(rune, 4);
    assert Pow16(4) == 0x10000 && Pow16(5) == 0x100000 && Pow16(6) == 0x1000000;
    PaddedHexReadsBack(rune, 4);
    HexValueBound(s);
    if rune < 0x10000 {
      PaddedHexLength(rune, 4, 4);
    } else if rune < 0x100000 {
      PaddedHexLength(rune, 4, 5);
      assert |s| != 4;
    } else {
      PaddedHexLength(rune, 4, 6);
      assert |s| != 4 && |s| != 5;
    }
  }

  lemma TokenStandsForRune(rune: nat)
    requires rune <= MAX_RUNE
    ensures StandsFor(Token(rune), rune)
  {
    if !(0x21 <= rune <= 0x7E) {
      EscapeDigits(rune);
      PaddedHexIsLower(rune, 4);
      PaddedHexReadsBack(rune, 4);
      assert Token(rune)[2..] == PaddedHex(rune, 4);
    }
  }

  function Tokens(s: string): (r: seq<string>)
    ensures |r| == |Runes(s)|
  {
    var runes := Runes(s);
    seq(|runes|, i requires 0 <= i < |runes| => Token(runes[i]))
  }

  function Concat(parts: seq<string>): string {
    if parts == [] then "" else parts[0] + Concat(parts[1..])
  }

  /** Whole tokens are taken from the front while they fit into `room`. */
  function Fit(tokens: seq<string>, room: nat): string {
    if tokens == [] || |tokens[0]| > room then ""
    else tokens[0] + Fit(tokens[1..], room - |tokens[0]|)
  }

  function Sanitize(s: string): string {
    Fit(Tokens(s), MAX_LENGTH)
  }

  lemma TokensStep(s: string)
    requires s != ""
    ensures var d := DecodeRune(s); Tokens(s) == [Token(d.rune)] + Tokens(s[d.size..])
  {
  }

  lemma FitCons(t: string, rest: seq<string>, room: nat)
    ensures Fit([t] + rest, room) == if |t| > room then "" else t + Fit(rest, room - |t|)
  {
    assert ([t] + rest)[1..] == rest;
  }

  lemma ConcatAssociates(a: string, b: string, c: string)
    ensures (a + b) + c == a + (b + c)
  {
  }

  /** What the loop has built and what it will still take make up the result. */
  ghost predicate Remaining(b: string, rest: string, goal: string) {
    |b| <= MAX_LENGTH && b + Fit(Tokens(rest), MAX_LENGTH - |b|) == goal
  }

  /** One more token, or none if it does not fit. */
  lemma TakeFirst(b: string, t: string, rest: seq<string>)
    requires |b| <= MAX_LENGTH
    ensures b + Fit([t] + rest, MAX_LENGTH - |b|) ==
            if |b| + |t| > MAX_LENGTH then b else (b + t) + Fit(rest, MAX_LENGTH - |b + t|)
  {
    hide Fit;
    FitCons(t, rest, MAX_LENGTH - |b|);
    if |b| + |t| <= MAX_LENGTH {
      ConcatAssociates(b, t, Fit(rest, MAX_LENGTH - |b| - |t|));
    }
  }

  lemma TakeToken(b: string, rest: string, goal: string)
    requires rest != "" && Remaining(b, rest, goal)
    ensures var d := DecodeRune(rest);
            if |b| + |Token(d.rune)| > MAX_LENGTH then b == goal
            else Remaining(b + Token(d.rune), rest[d.size..], goal)
  {
    var d := DecodeRune(rest);
    var t, more := Token(d.rune), Tokens(rest[d.size..]);
    TokensStep(rest);
    assert Tokens(rest) == [t] + more;
    TakeFirst(b, t, more);
  }

  // ---------------------------------------------------------------- what sanitising promises

  lemma {:induction false} ConcatSnocLength(parts: seq<string>, j: nat, k: nat)
    requires j <= k <= |parts|
    ensures |Concat(parts[..j])| <= |Concat(parts[..k])|
  {
    if j > 0 {
      assert parts[..j][1..] == parts[1..][..j - 1] && parts[..k][1..] == parts[1..][..k - 1];
      ConcatSnocLength(parts[1..], j - 1, k - 1);
    }
  }

  /** How many tokens `Fit` takes. */
  function FitCount(tokens: seq<string>, room: nat): (k: nat)
    ensures k <= |tokens|
  {
    if tokens == [] || |tokens[0]| > room then 0
    else 1 + FitCount(tokens[1..], room - |tokens[0]|)
  }

  lemma {:induction false} FitIsLongestPrefix(tokens: seq<string>, room: nat)
    ensures var k := FitCount(tokens, room);
            && Fit(tokens, room) == Concat(tokens[..k])
            && |Fit(tokens, room)| <= room
            && (k < |tokens| ==> |Concat(tokens[..k + 1])| == |Fit(tokens, room)| + |tokens[k]| > room)
  {
    var k := FitCount(tokens, room);
    if tokens == [] {
    } else if |tokens[0]| > room {
      assert tokens[..1][1..] == [];
    } else {
      FitIsLongestPrefix(tokens[1..], room - |tokens[0]|);
      assert tokens[..k][1..] == tokens[1..][..k - 1];
      if k < |tokens| {
        assert tokens[..k + 1][1..] == tokens[1..][..k];
      }
    }
  }

  /**
   The result is the text of the longest prefix of runes whose tokens fit into 128 octets; no token
   is cut.
   */
  lemma SanitizeTakesLongestPrefix(s: string)
    ensures exists k: nat ::
              && k <= |Tokens(s)|
              && Sanitize(s) == Concat(Tokens(s)[..k])
              && forall j: nat :: j <= |Tokens(s)| ==> (|Concat(Tokens(s)[..j])| <= MAX_LENGTH <==> j <= k)
  {
    var tokens := Tokens(s);
    var k := FitCount(tokens, MAX_LENGTH);
    FitIsLongestPrefix(tokens, MAX_LENGTH);
    forall j: nat | j <= |tokens| ensures |Concat(tokens[..j])| <= MAX_LENGTH <==> j <= k {
      if j <= k {
        ConcatSnocLength(tokens, j, k);
      } else {
        ConcatSnocLength(tokens, k + 1, j);
      }
    }
  }

  /** `parts` are what stands for the first runes of `s`, and the next one does not fit any more. */
  ghost predicate SpelledBy(parts: seq<string>, b: string, s: string) {
    && |parts| <= |Runes(s)|
    && b == Concat(parts) && |b| <= 128
    && (forall i :: 0 <= i < |parts| ==> StandsFor(parts[i], Runes(s)[i]))
    && (|parts| < |Runes(s)| ==> forall t | StandsFor(t, Runes(s)[|parts|]) :: |b| + |t| > 128)
  }

  /**
   The runes of `s` in order, each as what stands for it, up to the first one that does not fit into 128
   octets any more.
   */
  ghost predicate IsSanitized(b: string, s: string) {
    exists parts: seq<string> :: SpelledBy(parts, b, s)
  }

  lemma SameLength(t: string, u: string, rune: nat)
    requires StandsFor(t, rune) && StandsFor(u, rune)
    ensures |t| == |u|
  {
  }

  lemma SanitizeSpellsRunes(s: string)
    ensures IsSanitized(Sanitize(s), s)
  {
    hide FitCount, Concat, Fit, StandsFor, Token, Runes;
    var tokens, runes, b := Tokens(s), Runes(s), Sanitize(s);
    var k := FitCount(tokens, MAX_LENGTH);
    var parts := tokens[..k];
    FitIsLongestPrefix(tokens, MAX_LENGTH);
    forall i | 0 <= i < |runes| ensures StandsFor(tokens[i], runes[i]) {
      TokenStandsForRune(runes[i]);
    }
    if k < |runes| {
      forall t | StandsFor(t, runes[k]) ensures |b| + |t| > 128 {
        SameLength(t, tokens[k], runes[k]);
      }
    }
    assert SpelledBy(parts, b, s);
  }

  /** sanitizeClientRequestID: runes are appended to a builder until one does not fit. */
  method SanitizeClientRequestId(s: string) returns (b: string)
    ensures b == Sanitize(s)
    ensures IsSanitized(b, s)
  {
    SanitizeSpellsRunes(s);
    b := "";
    var rest := s;
    while rest != ""
      invariant Remaining(b, rest, Sanitize(s))
      decreases |rest|
    {
      var d := DecodeRune(rest);
      var part: string;
      if 0x21 <= d.rune <= 0x7E {
        part := [d.rune as char];
      } else {
        part := "\\u" + PaddedHex(d.rune, 4);
      }
      TakeToken(b, rest, Sanitize(s));
      if |b| + |part| > MAX_LENGTH {
        break;
      }
      b := b + part;
      rest := rest[d.size..];
    }
  }

  /** A cut result still fills the bound up to the length of one token. */
  lemma TruncatedLength(s: string)
    ensures |Sanitize(s)| <= MAX_LENGTH
    ensures Sanitize(s) != Concat(Tokens(s)) ==> 121 <= |Sanitize(s)|
  {
    var tokens := Tokens(s);
    var k := FitCount(tokens, MAX_LENGTH);
    FitIsLongestPrefix(tokens, MAX_LENGTH);
    if k < |tokens| {
      TokenLength(Runes(s)[k]);
    } else {
      assert tokens[..k] == tokens;
    }
  }

  lemma {:induction false} FitPrintable(tokens: seq<string>, room: nat)
    requires forall i :: 0 <= i < |tokens| ==> AllPrintable(tokens[i])
    ensures AllPrintable(Fit(tokens, room))
  {
    if tokens != [] && |tokens[0]| <= room {
      FitPrintable(tokens[1..], room - |tokens[0]|);
    }
  }

  /** Every non-empty header value becomes an identifier that validation accepts. */
  lemma SanitizedIsValid(s: string)
    ensures s == "" ==> Sanitize(s) == ""
    ensures s != "" ==> IsValid(Sanitize(s))
  {
    FitPrintable(Tokens(s), MAX_LENGTH);
    FitIsLongestPrefix(Tokens(s), MAX_LENGTH);
    if s != "" {
      TokenLength(Runes(s)[0]);
    }
  }

  lemma {:induction false} PrintableFits(s: string, room: nat)
    requires AllPrintable(s) && |s| <= room
    ensures Fit(Tokens(s), room) == s
  {
    if s != "" {
      var d := DecodeRune(s);
      assert Token(d.rune) == [s[0]];
      TokensStep(s);
      PrintableFits(s[1..], room - 1);
      FitCons([s[0]], Tokens(s[1..]), room);
      assert s == [s[0]] + s[1..];
    }
  }

  /** Sanitising changes exactly the values that validation rejects. */
  lemma SanitizeFixesExactlyTheInvalid(s: string)
    ensures Sanitize(s) == s <==> s == "" || IsValid(s)
  {
    SanitizedIsValid(s);
    if IsValid(s) {
      PrintableFits(s, MAX_LENGTH);
    }
  }

  lemma SanitizeIsIdempotent(s: string)
    ensures Sanitize(Sanitize(s)) == Sanitize(s)
  {
    SanitizedIsValid(s);
    SanitizeFixesExactlyTheInvalid(Sanitize(s));
  }

  // ---------------------------------------------------------------- the choice one hop makes

  /** The identifier of a request and the client value kept for the log ("" for none). */
  datatype Choice = Choice(id: string, clientForLog: string)

  /** `generated` is what newRequestID returns when it is called. */
  function Choose(client: string, generated: string): Choice {
    if IsValid(client) then Choice(client, "")
    else Choice(generated, if client != "" then Sanitize(client) else "")
  }

  /** The log names a client value exactly when the client sent one and it was rejected. */
  lemma ClientValueLoggedIffRejected(client: string, generated: string)
    ensures Choose(client, generated).clientForLog != "" <==> client != "" && !IsValid(client)
    ensures Choose(client, generated).clientForLog != "" ==>
              && IsValid(Choose(client, generated).clientForLog)
              && Choose(client, generated) == Choice(generated, Sanitize(client))
  {
    SanitizedIsValid(client);
  }

  /** The identifier after passing through a line of servers, each with its own generator. */
  function Hops(client: string, generated: seq<string>): string
    decreases |generated|
  {
    if generated == [] then client else Hops(Choose(client, generated[0]).id, generated[1..])
  }

  /** Whatever the first server emits, later ones adopt, if its generator makes valid identifiers. */
  lemma {:induction false} LaterHopsAdopt(client: string, generated: seq<string>)
    requires generated != []
    requires IsValid(client) || IsValid(generated[0])
    ensures Hops(client, generated) == Choose(client, generated[0]).id
    ensures forall next :: Choose(Hops(client, generated), next) == Choice(Choose(client, generated[0]).id, "")
    decreases |generated|
  {
    var id := Choose(client, generated[0]).id;
    if |generated| > 1 {
      LaterHopsAdopt(id, generated[1..]);
    }
  }

  /** An identifier survives every next hop exactly when validation accepts it. */
  lemma AdoptedIffValid(id: string)
    ensures (forall next :: Choose(id, next).id == id) <==> IsValid(id)
  {
    if !IsValid(id) {
      assert Choose(id, id + "x").id == id + "x";
      assert |id + "x"| != |id|;
    }
  }

  // ---------------------------------------------------------------- generated identifiers

  /** The octets of a UUID. */
  type UuidBytes = b: seq<Octet> | |b| == 16 witness seq(16, _ => 0)

  function HexText(b: seq<Octet>): (s: string)
    ensures |s| == 2 * |b| && AllPrintable(s)
  {
    if b == [] then "" else [HexDigit(b[0] / 16, false), HexDigit(b[0] % 16, false)] + HexText(b[1..])
  }

  /** The text form of section 4 of RFC 9562. */
  function UuidText(b: UuidBytes): (s: string)
    ensures |s| == 36 && IsValid(s)
  {
    HexText(b[..4]) + "-" + HexText(b[4..6]) + "-" + HexText(b[6..8]) + "-" + HexText(b[8..10]) + "-" + HexText(b[10..])
  }

  /** The two lower-case digits at `p` have the value `octet`. */
  predicate PairAt(s: string, p: nat, octet: Octet) {
    p + 2 <= |s| && IsLowerHex(s[p]) && IsLowerHex(s[p + 1]) && 16 * Unhex(s[p]) + Unhex(s[p + 1]) == octet
  }

  lemma {:induction false} HexTextPair(b: seq<Octet>, i: nat)
    requires i < |b|
    ensures PairAt(HexText(b), 2 * i, b[i])
  {
    if i == 0 {
      HexDigitOrder(b[0] / 16);
      HexDigitOrder(b[0] % 16);
    } else {
      HexTextPair(b[1..], i - 1);
      assert HexText(b)[2 * i..] == HexText(b[1..])[2 * (i - 1)..];
      assert HexText(b)[2 * i] == HexText(b)[2 * i..][0] && HexText(b)[2 * i + 1] == HexText(b)[2 * i..][1];
    }
  }

  /** Where the digits of the i-th octet stand. */
  function UuidPosition(i: nat): nat {
    2 * i + (if i < 4 then 0 else if i < 6 then 1 else if i < 8 then 2 else if i < 10 then 3 else 4)
  }

  lemma PairShifts(before: string, s: string, p: nat, octet: Octet)
    requires PairAt(s, p, octet)
    ensures PairAt(before + s, |before| + p, octet)
  {
    assert (before + s)[|before| + p] == s[p] && (before + s)[|before| + p + 1] == s[p + 1];
  }

  lemma PairStays(s: string, more: string, p: nat, octet: Octet)
    requires PairAt(s, p, octet)
    ensures PairAt(s + "-" + more, p, octet)
  {
    assert (s + "-" + more)[p] == s[p] && (s + "-" + more)[p + 1] == s[p + 1];
  }

  /** Two digits for each octet in order, with dashes after the 4th, 6th, 8th and 10th. */
  lemma UuidReadsBack(b: UuidBytes)
    ensures UuidText(b)[8] == UuidText(b)[13] == UuidText(b)[18] == UuidText(b)[23] == '-'
    ensures forall i :: 0 <= i < 16 ==> PairAt(UuidText(b), UuidPosition(i), b[i])
  {
    forall i | 0 <= i < 16 ensures PairAt(UuidText(b), UuidPosition(i), b[i]) {
      UuidPair(b, i);
    }
  }

  /** A pair in one of the five groups is a pair in the whole. */
  lemma PairInGroup(h0: string, h1: string, h2: string, h3: string, h4: string, g: nat, h: string, p: nat, octet: Octet)
    requires g < 5 && h == (if g == 0 then h0 else if g == 1 then h1 else if g == 2 then h2 else if g == 3 then h3 else h4)
    requires |h0| == 8 && |h1| == |h2| == |h3| == 4 && PairAt(h, p, octet)
    ensures PairAt(h0 + "-" + h1 + "-" + h2 + "-" + h3 + "-" + h4, (if g == 0 then 0 else 4 + 5 * g) + p, octet)
  {
    var s1 := h0 + "-" + h1;
    var s2 := s1 + "-" + h2;
    var s3 := s2 + "-" + h3;
    hide PairAt;
    if g == 0 {
      PairStays(h0, h1, p, octet);
      PairStays(s1, h2, p, octet);
      PairStays(s2, h3, p, octet);
      PairStays(s3, h4, p, octet);
    } else if g == 1 {
      PairShifts(h0 + "-", h1, p, octet);
      PairStays(s1, h2, 9 + p, octet);
      PairStays(s2, h3, 9 + p, octet);
      PairStays(s3, h4, 9 + p, octet);
    } else if g == 2 {
      PairShifts(s1 + "-", h2, p, octet);
      PairStays(s2, h3, 14 + p, octet);
      PairStays(s3, h4, 14 + p, octet);
    } else if g == 3 {
      PairShifts(s2 + "-", h3, p, octet);
      PairStays(s3, h4, 19 + p, octet);
    } else {
      PairShifts(s3 + "-", h4, p, octet);
    }
  }

  lemma PairInUuid(b: UuidBytes, g: nat, h: string, p: nat, octet: Octet)
    requires g < 5 && PairAt(h, p, octet)
    requires h == (if g == 0 then HexText(b[..4]) else if g == 1 then HexText(b[4..6]) else if g == 2 then HexText(b[6..8])
                   else if g == 3 then HexText(b[8..10]) else HexText(b[10..]))
    ensures PairAt(UuidText(b), (if g == 0 then 0 else 4 + 5 * g) + p, octet)
  {
    hide PairAt;
    PairInGroup(HexText(b[..4]), HexText(b[4..6]), HexText(b[6..8]), HexText(b[8..10]), HexText(b[10..]), g, h, p, octet);
  }

  lemma UuidPair(b: UuidBytes, i: nat)
    requires i < 16
    ensures PairAt(UuidText(b), UuidPosition(i), b[i])
  {
    hide UuidText, PairAt, HexText;
    if i < 4 {
      HexTextPair(b[..4], i);
      PairInUuid(b, 0, HexText(b[..4]), 2 * i, b[i]);
    } else if i < 6 {
      HexTextPair(b[4..6], i - 4);
      PairInUuid(b, 1, HexText(b[4..6]), 2 * (i - 4), b[i]);
    } else if i < 8 {
      HexTextPair(b[6..8], i - 6);
      PairInUuid(b, 2, HexText(b[6..8]), 2 * (i - 6), b[i]);
    } else if i < 10 {
      HexTextPair(b[8..10], i - 8);
      PairInUuid(b, 3, HexText(b[8..10]), 2 * (i - 8), b[i]);
    } else {
      HexTextPair(b[10..], i - 10);
      PairInUuid(b, 4, HexText(b[10..]), 2 * (i - 10), b[i]);
    }
  }

  /** Different UUIDs have different texts. */
  lemma UuidTextInjective(a: UuidBytes, b: UuidBytes)
    ensures UuidText(a) == UuidText(b) <==> a == b
  {
    UuidReadsBack(a);
    UuidReadsBack(b);
    if UuidText(a) == UuidText(b) {
      forall i | 0 <= i < 16 ensures a[i] == b[i] {
        assert PairAt(UuidText(a), UuidPosition(i), a[i]) && PairAt(UuidText(b), UuidPosition(i), b[i]);
      }
    }
  }

  function FallbackId(host: string, pid: int, now: int, n: int): string {
    "fallback-" + host + "-" + DecimalInt(pid) + "-" + DecimalInt(now) + "-" + DecimalInt(n)
  }

  lemma DecimalIntPrintable(n: int)
    ensures AllPrintable(DecimalInt(n))
  {
  }

  /** The host name is printable, and host and numbers leave room for the fixed 12 octets. */
  predicate FallbackFits(host: string, pid: int, now: int, n: int) {
    AllPrintable(host) && 12 + |host| + |DecimalInt(pid)| + |DecimalInt(now)| + |DecimalInt(n)| <= MAX_LENGTH
  }

  lemma ConcatPrintable(a: string, b: string)
    ensures AllPrintable(a + b) <==> AllPrintable(a) && AllPrintable(b)
  {
    forall i | 0 <= i < |a| ensures (a + b)[i] == a[i] {
    }
    forall i | 0 <= i < |b| ensures (a + b)[|a| + i] == b[i] {
    }
  }

  /** Validation accepts a fallback identifier exactly when host and numbers fit. */
  lemma FallbackIdValidity(host: string, pid: int, now: int, n: int)
    ensures IsValid(FallbackId(host, pid, now, n)) <==> FallbackFits(host, pid, now, n)
  {
    var p, t, k := DecimalInt(pid), DecimalInt(now), DecimalInt(n);
    DecimalIntPrintable(pid);
    DecimalIntPrintable(now);
    DecimalIntPrintable(n);
    NumberAppended("fallback-" + host, p);
    NumberAppended("fallback-" + host + "-" + p, t);
    NumberAppended("fallback-" + host + "-" + p + "-" + t, k);
    ConcatPrintable("fallback-", host);
  }

  lemma NumberAppended(s: string, digits: string)
    requires AllPrintable(digits)
    ensures AllPrintable(s + "-" + digits) <==> AllPrintable(s)
  {
    ConcatPrintable(s, "-");
    ConcatPrintable(s + "-", digits);
  }

  predicate IsInt64(n: int) {
    -TWO_63 <= n < TWO_63
  }

  lemma Int64Length(n: int)
    requires IsInt64(n)
    ensures |DecimalInt(n)| <= if n < 0 then 20 else 19
    ensures n == -TWO_63 ==> |DecimalInt(n)| == 20
    ensures n == TWO_63 - 1 ==> |DecimalInt(n)| == 19
  {
    assert Pow10(9) == 1_000_000_000;
    assert Pow10(18) == Pow10(9) * 1_000_000_000;
    assert Pow10(19) == 10 * Pow10(18);
    var a := if n < 0 then -n else n;
    DecimalLength(a, 19);
    DecimalLength(a, 18);
  }

  /**
   A host name is good for every clock and every counter of 64 bits exactly when it is printable and
   leaves 76 octets to itself and the process number; 78 if neither clock nor counter is negative.
   */
  lemma FallbackIdFits(host: string, pid: int)
    ensures (forall now, n | IsInt64(now) && IsInt64(n) :: IsValid(FallbackId(host, pid, now, n))) <==>
            AllPrintable(host) && |host| + |DecimalInt(pid)| <= 76
    ensures (forall now, n | IsInt64(now) && IsInt64(n) && now >= 0 && n >= 0 :: IsValid(FallbackId(host, pid, now, n)))
            <==> (AllPrintable(host) && |host| + |DecimalInt(pid)| <= 78)
  {
    forall now, n | IsInt64(now) && IsInt64(n)
      ensures IsValid(FallbackId(host, pid, now, n)) <==> FallbackFits(host, pid, now, n)
      ensures |DecimalInt(now)| <= (if now < 0 then 20 else 19) && |DecimalInt(n)| <= if n < 0 then 20 else 19
    {
      FallbackIdValidity(host, pid, now, n);
      Int64Length(now);
      Int64Length(n);
    }
    Int64Length(-TWO_63);
    Int64Length(TWO_63 - 1);
    assert IsValid(FallbackId(host, pid, -TWO_63, -TWO_63)) <==> FallbackFits(host, pid, -TWO_63, -TWO_63);
    assert IsValid(FallbackId(host, pid, TWO_63 - 1, TWO_63 - 1)) <==> FallbackFits(host, pid, TWO_63 - 1, TWO_63 - 1);
  }

  /** Text up to the first '-' that is not its first character. */
  lemma CutAtDash(d1: string, r1: string, d2: string, r2: string)
    requires d1 != "" && d2 != "" && '-' !in d1[1..] && '-' !in d2[1..]
    requires d1 + "-" + r1 == d2 + "-" + r2
    ensures d1 == d2 && r1 == r2
  {
    var s := d1 + "-" + r1;
    assert s[1..] == d1[1..] + ['-'] + r1 == d2[1..] + ['-'] + r2;
    IndexOfConcat(d1[1..], '-', r1);
    IndexOfConcat(d2[1..], '-', r2);
    assert d1 == s[..|d1|] && r1 == s[|d1| + 1..];
    assert d2 == s[..|d1|] && r2 == s[|d1| + 1..];
  }

  lemma DashOnlyInFront(n: int)
    ensures '-' !in DecimalInt(n)[1..]
  {
    assert AllDigits(DecimalInt(n)[1..]);
  }

  lemma SamePrefix(prefix: string, s1: string, s2: string)
    ensures prefix + s1 == prefix + s2 <==> s1 == s2
  {
    assert (prefix + s1)[|prefix|..] == s1 && (prefix + s2)[|prefix|..] == s2;
  }

  /** Clock and counter can both be read back from a fallback identifier. */
  lemma FallbackIdInjective(host: string, pid: int, t1: int, n1: int, t2: int, n2: int)
    ensures FallbackId(host, pid, t1, n1) == FallbackId(host, pid, t2, n2) <==> t1 == t2 && n1 == n2
  {
    var prefix := "fallback-" + host + "-" + DecimalInt(pid) + "-";
    var s1 := DecimalInt(t1) + "-" + DecimalInt(n1);
    var s2 := DecimalInt(t2) + "-" + DecimalInt(n2);
    FallbackIdTail(host, pid, t1, n1);
    FallbackIdTail(host, pid, t2, n2);
    SamePrefix(prefix, s1, s2);
    if s1 == s2 {
      DashOnlyInFront(t1);
      DashOnlyInFront(t2);
      CutAtDash(DecimalInt(t1), DecimalInt(n1), DecimalInt(t2), DecimalInt(n2));
      DecimalIntInjective(t1, t2);
      DecimalIntInjective(n1, n2);
    }
  }

  // Reading the parts back, from the end.

  function DigitsAtEnd(s: string): (d: nat)
    ensures d <= |s| && AllDigits(s[|s| - d..])
  {
    if s == "" || !IsDigit(s[|s| - 1]) then 0 else 1 + DigitsAtEnd(s[..|s| - 1])
  }

  /** A number off the end, with the dash in front of it; `signed` if it may have a minus sign. */
  function TakeNumber(s: string, signed: bool): Option<(string, int)> {
    var i := |s| - DigitsAtEnd(s);
    var value: int := ParseDigits(s[i..]);
    if i == |s| || i == 0 || s[i - 1] != '-' then None
    else if signed && i >= 2 && s[i - 2] == '-' then Some((s[..i - 2], -value))
    else Some((s[..i - 1], value))
  }

  /** Host, process, clock and counter of a fallback identifier. */
  function ReadFallback(id: string): Option<(string, int, int, int)> {
    if !("fallback-" <= id) then None
    else
      match TakeNumber(id[9..], true)
      case None => None
      case Some((rest, n)) =>
        match TakeNumber(rest, true)
        case None => None
        case Some((rest', now)) =>
          match TakeNumber(rest', false)
          case None => None
          case Some((host, pid)) => Some((host, pid, now, n))
  }

  lemma {:induction false} DigitsAtEndOf(a: string, digits: string)
    requires AllDigits(digits) && (a == "" || !IsDigit(a[|a| - 1]))
    ensures DigitsAtEnd(a + digits) == |digits|
  {
    var s := a + digits;
    if digits == "" {
      assert s == a;
    } else {
      assert s[..|s| - 1] == a + digits[..|digits| - 1];
      DigitsAtEndOf(a, digits[..|digits| - 1]);
    }
  }

  /** Decimal digits after a dash. */
  lemma TakeDigits(before: string, k: nat, signed: bool)
    requires before != "" && before[|before| - 1] == '-'
    ensures TakeNumber(before + Decimal(k), signed) ==
            var n: int, value: int := |before|, k;
            if signed && n >= 2 && before[n - 2] == '-' then Some((before[..n - 2], -value))
            else Some((before[..n - 1], value))
  {
    var n, s := |before|, before + Decimal(k);
    DigitsAtEndOf(before, Decimal(k));
    assert s[n..] == Decimal(k);
    ParseDecimal(k);
    assert s[..n - 1] == before[..n - 1];
    if n >= 2 {
      assert s[..n - 2] == before[..n - 2];
    }
  }

  lemma TakeNumberReads(a: string, n: int, signed: bool)
    requires n >= 0 || signed
    requires n >= 0 && signed ==> a != "" && a[|a| - 1] != '-'
    ensures TakeNumber(a + "-" + DecimalInt(n), signed) == Some((a, n))
  {
    hide TakeNumber, Decimal;
    if n >= 0 {
      TakeDigits(a + "-", n, signed);
      assert (a + "-")[..|a|] == a;
    } else {
      TakeDigits(a + "-" + "-", -n, signed);
      assert (a + "-" + "-")[..|a|] == a;
      ConcatAssociates(a + "-", "-", Decimal(-n));
    }
  }

  lemma EndsInDigit(a: string, n: int)
    ensures var s := a + DecimalInt(n); s != "" && s[|s| - 1] != '-'
  {
    var d := DecimalInt(n);
    assert IsDigit(d[|d| - 1]);
  }

  /** Host, process, clock and counter stand in this order and can be read back, for any host name. */
  lemma FallbackIdReadsBack(host: string, pid: int, now: int, n: int)
    requires pid >= 0
    ensures ReadFallback(FallbackId(host, pid, now, n)) == Some((host, pid, now, n))
  {
    var s1 := host + "-" + DecimalInt(pid);
    var s2 := s1 + "-" + DecimalInt(now);
    var s3 := s2 + "-" + DecimalInt(n);
    TakeNumberReads(host, pid, false);
    EndsInDigit(host + "-", pid);
    TakeNumberReads(s1, now, true);
    EndsInDigit(s1 + "-", now);
    TakeNumberReads(s2, n, true);
    assert FallbackId(host, pid, now, n) == "fallback-" + s3 by {
      ConcatAssociates("fallback-", host, "-");
      ConcatAssociates("fallback-", host + "-", DecimalInt(pid));
      ConcatAssociates("fallback-", s1, "-");
      ConcatAssociates("fallback-", s1 + "-", DecimalInt(now));
      ConcatAssociates("fallback-", s2, "-");
      ConcatAssociates("fallback-", s2 + "-", DecimalInt(n));
    }
    hide FallbackId, TakeNumber;
    assert ("fallback-" + s3)[9..] == s3;
  }

  lemma FallbackIdTail(host: string, pid: int, t: int, n: int)
    ensures FallbackId(host, pid, t, n) ==
            ("fallback-" + host + "-" + DecimalInt(pid) + "-") + (DecimalInt(t) + "-" + DecimalInt(n))
  {
  }

  /** A UUID is never a fallback identifier: the third character of the latter is no hexadecimal digit. */
  lemma UuidIsNoFallback(b: UuidBytes, host: string, pid: int, now: int, n: int)
    ensures UuidText(b) != FallbackId(host, pid, now, n)
  {
    UuidPair(b, 1);
    FallbackIdTail(host, pid, now, n);
    assert FallbackId(host, pid, now, n)[2] == 'l';
  }

  // ---------------------------------------------------------------- the generator

  /** The random octets of one UUID, or None when their source failed. */
  type Uuid = Option<UuidBytes>

  /** What newRequestID returns: a UUID, or host, process, clock and counter. */
  function Generated(uuid: Uuid, host: string, pid: int, now: int, n: int): string {
    match uuid
    case Some(b) => UuidText(b)
    case None => FallbackId(host, pid, now, n)
  }

  /** A generated identifier is valid exactly if it is a UUID or its fallback parts fit. */
  predicate GeneratesValid(uuid: Uuid, host: string, pid: int, now: int, n: int) {
    uuid.Some? || FallbackFits(host, pid, now, n)
  }

  lemma {:induction false} ValidSurvives(id: string, generated: seq<string>)
    requires IsValid(id)
    ensures Hops(id, generated) == id
    decreases |generated|
  {
    if generated != [] {
      ValidSurvives(id, generated[1..]);
    }
  }

  /**
   For any client header, any outcome of the UUID source and any host, process, clock and counter, the
   emitted identifier is adopted unchanged by every line of later servers if and only if the client's
   value is valid, or a UUID was made, or the fallback parts fit.
   */
  lemma EmittedIdIsAdopted(client: string, uuid: Uuid, host: string, pid: int, now: int, n: int)
    ensures var id := Choose(client, Generated(uuid, host, pid, now, n)).id;
            (forall later: seq<string> :: Hops(id, later) == id) <==>
            IsValid(client) || GeneratesValid(uuid, host, pid, now, n)
  {
    var id := Choose(client, Generated(uuid, host, pid, now, n)).id;
    FallbackIdValidity(host, pid, now, n);
    if IsValid(id) {
      forall later: seq<string> ensures Hops(id, later) == id {
        ValidSurvives(id, later);
      }
    } else {
      var other := id + "x";
      assert Hops(id, [other]) == Hops(other, [][..]) == other;
      assert |other| != |id|;
      assert Hops(id, [other]) != id;
    }
  }

  /** The clock may stand still: within one turn of the counter the k-th identifier is new. */
  lemma LaterFallbackDiffers(host: string, pid: int, t1: int, j: nat, t2: int, k: nat)
    requires 1 <= j < k <= TWO_64
    ensures FallbackId(host, pid, t1, Int64(j)) != FallbackId(host, pid, t2, Int64(k))
  {
    FallbackIdInjective(host, pid, t1, Int64(j), t2, Int64(k));
    Int64Repeats(j, k);
    NoFullTurn(j, k);
  }

  /** The fallback identifiers of one process, in the order of the counter, from their clock readings. */
  function Issued(host: string, pid: int, readings: seq<int>): seq<string> {
    seq(|readings|, i requires 0 <= i < |readings| => FallbackId(host, pid, readings[i], Int64(i + 1)))
  }

  lemma NewIdDiffers(uuid: Uuid, host: string, pid: int, t: int, j: nat, now: int, k: nat)
    requires 1 <= j < k <= TWO_64
    ensures FallbackId(host, pid, t, Int64(j)) != Generated(uuid, host, pid, now, Int64(k))
  {
    match uuid
    case Some(b) => UuidIsNoFallback(b, host, pid, t, Int64(j));
    case None => LaterFallbackDiffers(host, pid, t, j, now, k);
  }

  lemma IssuedAt(uuid: Uuid, host: string, pid: int, readings: seq<int>, now: int, i: nat)
    requires i < |readings| < TWO_64
    ensures Issued(host, pid, readings)[i] != Generated(uuid, host, pid, now, Int64(|readings| + 1))
  {
    hide FallbackId, Generated;
    NewIdDiffers(uuid, host, pid, readings[i], i + 1, now, |readings| + 1);
  }

  /** Neither a UUID nor the next fallback identifier repeats one that was issued before. */
  lemma NewIdIsNotIssued(uuid: Uuid, host: string, pid: int, readings: seq<int>, now: int)
    requires |readings| < TWO_64
    ensures Generated(uuid, host, pid, now, Int64(|readings| + 1)) !in Issued(host, pid, readings)
  {
    var earlier := Issued(host, pid, readings);
    if id :| id in earlier && id == Generated(uuid, host, pid, now, Int64(|readings| + 1)) {
      var i :| 0 <= i < |earlier| && earlier[i] == id;
      IssuedAt(uuid, host, pid, readings, now, i);
    }
  }

  lemma GeneratedValidity(uuid: Uuid, host: string, pid: int, now: int, n: int)
    ensures IsValid(Generated(uuid, host, pid, now, n)) <==> GeneratesValid(uuid, host, pid, now, n)
  {
    FallbackIdValidity(host, pid, now, n);
  }

  /** The identifiers of one process are those of its UUIDs and the fallback ones of its clock readings. */
  ghost predicate IsHistory(history: seq<string>, host: string, pid: int, readings: seq<int>, uuids: seq<UuidBytes>) {
    && (forall id | id in history :: id in Issued(host, pid, readings) || exists u :: u in uuids && id == UuidText(u))
    && forall u | u in uuids :: UuidText(u) in history
  }

  /** An identifier was issued before exactly if it is a UUID that was drawn before. */
  lemma RepeatsIffUuidDoes(uuid: Uuid, host: string, pid: int, readings: seq<int>, uuids: seq<UuidBytes>,
                           history: seq<string>, now: int)
    requires IsHistory(history, host, pid, readings, uuids) && |readings| < TWO_64
    ensures Generated(uuid, host, pid, now, Int64(|readings| + 1)) in history <==>
            uuid.Some? && uuid.value in uuids
  {
    hide FallbackId, UuidText;
    var id := Generated(uuid, host, pid, now, Int64(|readings| + 1));
    NewIdIsNotIssued(uuid, host, pid, readings, now);
    if u :| u in uuids && id == UuidText(u) {
      match uuid
      case Some(b) => UuidTextInjective(b, u);
      case None => UuidIsNoFallback(u, host, pid, now, Int64(|readings| + 1));
    }
  }

  lemma HistoryGrows(uuid: Uuid, host: string, pid: int, readings: seq<int>, uuids: seq<UuidBytes>,
                     history: seq<string>, now: int)
    requires IsHistory(history, host, pid, readings, uuids)
    ensures var id := Generated(uuid, host, pid, now, Int64(|readings| + 1));
            match uuid
            case Some(b) => IsHistory(history + [id], host, pid, readings, uuids + [b])
            case None => IsHistory(history + [id], host, pid, readings + [now], uuids)
  {
    hide FallbackId, UuidText;
    match uuid
    case Some(b) => assert b in uuids + [b];
    case None =>
      var before, after := Issued(host, pid, readings), Issued(host, pid, readings + [now]);
      forall i | 0 <= i < |before| ensures after[i] == before[i] {
      }
      assert after[|readings|] == FallbackId(host, pid, now, Int64(|readings| + 1));
      forall id | id in before ensures id in after {
        var i :| 0 <= i < |before| && before[i] == id;
        assert after[i] == id;
      }
  }

  /** newRequestID of one process, called by one request at a time. */
  class IdSource {
    const host: string
    const pid: int
    var fallbackSeq: int
    /** All identifiers issued so far, the UUIDs among them, and the clock readings of the others, in order. */
    ghost var history: seq<string>
    ghost var uuids: seq<UuidBytes>
    ghost var readings: seq<int>

    ghost predicate Valid()
      reads this
    {
      fallbackSeq == Int64(|readings|) && IsHistory(history, host, pid, readings, uuids)
    }

    constructor (host: string, pid: int)
      ensures Valid() && this.host == host && this.pid == pid && history == [] && uuids == [] && readings == []
    {
      this.host := host;
      this.pid := pid;
      fallbackSeq, history, uuids, readings := 0, [], [], [];
    }

    /**
     The identifier is valid exactly if a UUID was made or the fallback parts fit.  It repeats one of this
     process exactly if the UUID generator repeats itself, up to a full turn of the counter.
     */
    method NewRequestId(uuid: Uuid, now: int) returns (id: string)
      requires Valid()
      modifies this
      ensures Valid()
      ensures id == Generated(uuid, host, pid, now, Int64(|old(readings)| + 1))
      ensures IsValid(id) <==> GeneratesValid(uuid, host, pid, now, Int64(|old(readings)| + 1))
      ensures history == old(history) + [id]
      ensures readings == if uuid.Some? then old(readings) else old(readings) + [now]
      ensures uuids == if uuid.Some? then old(uuids) + [uuid.value] else old(uuids)
      ensures |old(readings)| < TWO_64 ==> (id in old(history) <==> uuid.Some? && uuid.value in old(uuids))
    {
      hide FallbackId, UuidText, IsValid, FallbackFits, IsHistory;
      Int64Next(|readings|);
      GeneratedValidity(uuid, host, pid, now, Int64(|readings| + 1));
      HistoryGrows(uuid, host, pid, readings, uuids, history, now);
      if |readings| < TWO_64 {
        RepeatsIffUuidDoes(uuid, host, pid, readings, uuids, history, now);
      }
      if uuid.Some? {
        uuids := uuids + [uuid.value];
        id := UuidText(uuid.value);
      } else {
        fallbackSeq := Int64(fallbackSeq + 1);
        readings := readings + [now];
        id := FallbackId(host, pid, now, fallbackSeq);
      }
      history := history + [id];
    }
  }
}
