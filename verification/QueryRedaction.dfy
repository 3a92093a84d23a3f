/**
 Redaction of the query string that the access log records
 (core/internal/middleware/access_log.go, `redactQueryString` and `redactedPath`).
 */
module QueryRedaction {
  import opened Wrappers
  import opened Text
  import opened DenyList

  // ---------------------------------------------------------------- one piece between two '&'

  function KeyOf(piece: string): (key: string)
    ensures '=' !in key
  {
    var eq := IndexOf(piece, '=');
    if eq >= 0 then piece[..eq] else piece
  }

  predicate HasValue(piece: string) {
    IndexOf(piece, '=') >= 0
  }

  function RawValue(piece: string): string
    requires HasValue(piece)
  {
    piece[IndexOf(piece, '=') + 1..]
  }

  /** The decoded text, or the text itself where it does not decode. */
  function DecodeOr(text: string): string {
    match Unescape(text, true)
    case Some(decoded) => decoded
    case None => text
  }

  predicate Denied(lower: Lower, piece: string) {
    IsFieldKeyToRedact(lower, DecodeOr(KeyOf(piece)))
  }

  function RedactPiece(lower: Lower, piece: string): string {
    if !Denied(lower, piece) then piece
    else if HasValue(piece) then KeyOf(piece) + "=" + REDACTED
    else KeyOf(piece)
  }

  function RedactPieces(lower: Lower, pieces: seq<string>): (r: seq<string>)
    ensures |r| == |pieces|
  {
    seq(|pieces|, i requires 0 <= i < |pieces| => RedactPiece(lower, pieces[i]))
  }

  function RedactQuery(lower: Lower, raw: string): string {
    Join(RedactPieces(lower, Split(raw, '&')), '&')
  }

  /** The loop body of redactQueryString. */
  method RedactPair(lower: Lower, p: string) returns (r: string)
    ensures r == RedactPiece(lower, p)
  {
    var eq := IndexOf(p, '=');
    var hasEq := eq >= 0;
    var key := if hasEq then p[..eq] else p;
    var decoded := match Unescape(key, true) case Some(d) => d case None => key;
    r := p;
    if IsFieldKeyToRedact(lower, decoded) {
      if hasEq {
        r := key + "=" + REDACTED;
      } else {
        r := key;
      }
    }
  }

  /** The loop of redactQueryString: the pieces are overwritten in place. */
  method RedactPairs(lower: Lower, pairs: array<string>)
    modifies pairs
    ensures pairs[..] == RedactPieces(lower, old(pairs[..]))
  {
    hide RedactPiece;
    ghost var goal := RedactPieces(lower, pairs[..]);
    for i := 0 to pairs.Length
      invariant forall j :: 0 <= j < i ==> pairs[j] == goal[j]
      invariant forall j :: i <= j < pairs.Length ==> pairs[j] == old(pairs[j])
    {
      pairs[i] := RedactPair(lower, pairs[i]);
    }
  }

  /** redactQueryString. */
  method RedactQueryString(lower: Lower, raw: string) returns (r: string)
    ensures r == RedactQuery(lower, raw)
  {
    var split := Split(raw, '&');
    var pairs := new string[|split|](i requires 0 <= i < |split| => split[i]);
    assert pairs[..] == split;
    RedactPairs(lower, pairs);
    r := Join(pairs[..], '&');
  }

  /** redactedPath: the escaped path, then the redacted query if there is one. */
  function RedactedPath(lower: Lower, escapedPath: string, rawQuery: string): string {
    if rawQuery == "" then escapedPath else escapedPath + "?" + RedactQuery(lower, rawQuery)
  }

  // ---------------------------------------------------------------- what a piece consists of

  /** The first '=' separates the key from the value. */
  lemma PieceTakesApart(piece: string)
    ensures '=' !in KeyOf(piece)
    ensures HasValue(piece) <==> '=' in piece
    ensures piece == KeyOf(piece) + if HasValue(piece) then "=" + RawValue(piece) else ""
  {
    if HasValue(piece) {
      assert piece == KeyOf(piece) + ["="[0]] + RawValue(piece);
    }
  }

  /** A key is judged by its decoded text, and by its raw text if it does not decode. */
  lemma DeniedByDecodedKey(lower: Lower, piece: string)
    ensures Unescape(KeyOf(piece), true).None? ==> (Denied(lower, piece) <==> IsFieldKeyToRedact(lower, KeyOf(piece)))
    ensures Unescape(KeyOf(piece), true).Some? ==>
              (Denied(lower, piece) <==> IsFieldKeyToRedact(lower, Unescape(KeyOf(piece), true).value))
    ensures ParsePiece(piece).key == (match Unescape(KeyOf(piece), true) case Some(k) => k case None => KeyOf(piece))
  {
  }

  // ---------------------------------------------------------------- what redaction keeps

  /** Same raw key, same presence of '=', and another value only below a denied key, then the marker. */
  predicate KeepsKey(lower: Lower, before: string, after: string) {
    && KeyOf(after) == KeyOf(before)
    && HasValue(after) == HasValue(before)
    && (HasValue(after) ==> RawValue(after) == if Denied(lower, before) then REDACTED else RawValue(before))
  }

  lemma PieceKeepsKey(lower: Lower, piece: string)
    requires '&' !in piece
    ensures KeepsKey(lower, piece, RedactPiece(lower, piece)) && '&' !in RedactPiece(lower, piece)
  {
    if Denied(lower, piece) && HasValue(piece) {
      IndexOfConcat(KeyOf(piece), '=', REDACTED);
    }
  }

  /** The pieces of the output are the redacted pieces of the input, in the same order. */
  lemma RedactedPieces(lower: Lower, raw: string)
    ensures Split(RedactQuery(lower, raw), '&') == RedactPieces(lower, Split(raw, '&'))
  {
    var pieces := Split(raw, '&');
    forall i | 0 <= i < |pieces| ensures '&' !in RedactPiece(lower, pieces[i]) {
      PieceKeepsKey(lower, pieces[i]);
    }
    SplitJoin(RedactPieces(lower, pieces), '&');
  }

  /**
   The number and order of the pieces and every raw key survive; a value changes only below a denied
   key, and then to the marker.
   */
  lemma QueryKeepsKeys(lower: Lower, raw: string)
    ensures var before, after := Split(raw, '&'), Split(RedactQuery(lower, raw), '&');
            |after| == |before| && forall i :: 0 <= i < |before| ==> KeepsKey(lower, before[i], after[i])
  {
    RedactedPieces(lower, raw);
    var before := Split(raw, '&');
    forall i | 0 <= i < |before| {
      PieceKeepsKey(lower, before[i]);
    }
  }

  // ---------------------------------------------------------------- what a reader of the log sees

  /** One query parameter as a form decoder reads it. */
  datatype Param = Param(key: string, value: Option<string>)

  function ParsePiece(piece: string): Param {
    Param(DecodeOr(KeyOf(piece)), if HasValue(piece) then Some(DecodeOr(RawValue(piece))) else None)
  }

  function ParseQuery(raw: string): seq<Param> {
    var pieces := Split(raw, '&');
    seq(|pieces|, i requires 0 <= i < |pieces| => ParsePiece(pieces[i]))
  }

  function HideParam(lower: Lower, p: Param): Param {
    if IsFieldKeyToRedact(lower, p.key) && p.value.Some? then p.(value := Some(REDACTED)) else p
  }

  function HideParams(lower: Lower, ps: seq<Param>): seq<Param> {
    seq(|ps|, i requires 0 <= i < |ps| => HideParam(lower, ps[i]))
  }

  lemma MarkerDecodesToItself()
    ensures DecodeOr(REDACTED) == REDACTED
  {
    NoEscapeDecodesToItself(REDACTED);
  }

  lemma {:induction false} NoEscapeDecodesToItself(s: string)
    requires '%' !in s && '+' !in s
    ensures Unescape(s, true) == Some(s)
  {
    if s != "" {
      NoEscapeDecodesToItself(s[1..]);
      assert s == [s[0]] + s[1..];
    }
  }

  lemma RedactedPieceDecodes(lower: Lower, piece: string)
    requires '&' !in piece
    ensures ParsePiece(RedactPiece(lower, piece)) == HideParam(lower, ParsePiece(piece))
  {
    MarkerDecodesToItself();
    PieceKeepsKey(lower, piece);
  }

  /**
   Decoding the redacted text gives the parameters of the original with the value of every denied
   key replaced by the marker: nothing else moves, and no denied value is left, however its key was
   percent-encoded.
   */
  lemma RedactionCommutesWithDecoding(lower: Lower, raw: string)
    ensures ParseQuery(RedactQuery(lower, raw)) == HideParams(lower, ParseQuery(raw))
  {
    RedactedPieces(lower, raw);
    var pieces := Split(raw, '&');
    forall i | 0 <= i < |pieces|
      ensures ParsePiece(RedactPiece(lower, pieces[i])) == HideParam(lower, ParsePiece(pieces[i]))
    {
      RedactedPieceDecodes(lower, pieces[i]);
    }
  }

  /** The logged path can be taken apart again: path, and redacted query if one was sent. */
  lemma LoggedPathTakesApart(lower: Lower, path: string, rawQuery: string)
    requires '?' !in path
    ensures var logged := RedactedPath(lower, path, rawQuery);
            var i := IndexOf(logged, '?');
            if rawQuery == "" then i == -1 && logged == path
            else i >= 0 && logged[..i] == path
                   && ParseQuery(logged[i + 1..]) == HideParams(lower, ParseQuery(rawQuery))
  {
    if rawQuery != "" {
      var q := RedactQuery(lower, rawQuery);
      IndexOfConcat(path, '?', q);
      assert path + "?" + q == path + ['?'] + q;
      RedactionCommutesWithDecoding(lower, rawQuery);
      assert (path + "?" + q)[|path| + 1..] == q;
    }
  }

  // ---------------------------------------------------------------- exactly what is hidden

  /** The part of a piece that the redacted text may depend on. */
  datatype View = Shown(text: string) | Hidden(key: string)

  function ViewOf(lower: Lower, piece: string): View {
    if Denied(lower, piece) && HasValue(piece) then Hidden(KeyOf(piece)) else Shown(piece)
  }

  function Views(lower: Lower, pieces: seq<string>): (r: seq<View>)
    ensures |r| == |pieces|
  {
    seq(|pieces|, i requires 0 <= i < |pieces| => ViewOf(lower, pieces[i]))
  }

  lemma PieceViews(lower: Lower, p: string, q: string)
    requires '&' !in p && '&' !in q
    ensures RedactPiece(lower, p) == RedactPiece(lower, q) <==> ViewOf(lower, p) == ViewOf(lower, q)
  {
    PieceKeepsKey(lower, p);
    PieceKeepsKey(lower, q);
  }

  lemma PiecesViews(lower: Lower, ps: seq<string>, qs: seq<string>)
    requires forall i :: 0 <= i < |ps| ==> '&' !in ps[i]
    requires forall i :: 0 <= i < |qs| ==> '&' !in qs[i]
    ensures RedactPieces(lower, ps) == RedactPieces(lower, qs) <==> Views(lower, ps) == Views(lower, qs)
  {
    if |ps| == |qs| {
      forall i | 0 <= i < |ps|
        ensures RedactPieces(lower, ps)[i] == RedactPieces(lower, qs)[i] <==> Views(lower, ps)[i] == Views(lower, qs)[i]
      {
        PieceViews(lower, ps[i], qs[i]);
      }
    } else {
      assert |RedactPieces(lower, ps)| != |RedactPieces(lower, qs)|;
      assert |Views(lower, ps)| != |Views(lower, qs)|;
    }
  }

  /** Two queries look the same in the log exactly when they agree on everything but denied values. */
  lemma RedactionHidesExactlyDeniedValues(lower: Lower, q1: string, q2: string)
    ensures (RedactQuery(lower, q1) == RedactQuery(lower, q2))
            <==> (Views(lower, Split(q1, '&')) == Views(lower, Split(q2, '&')))
  {
    RedactedPieces(lower, q1);
    RedactedPieces(lower, q2);
    PiecesViews(lower, Split(q1, '&'), Split(q2, '&'));
  }

  lemma OnlyTheEmptyQueryLooksEmpty(lower: Lower, q: string)
    ensures Views(lower, Split(q, '&')) == Views(lower, Split("", '&')) <==> q == ""
  {
    var empty := Views(lower, Split("", '&'));
    assert KeyOf("") == "" && !HasValue("");
    assert empty == [Shown("")];
    if Views(lower, Split(q, '&')) == empty {
      JoinSplit(q, '&');
      assert ViewOf(lower, Split(q, '&')[0]) == Views(lower, Split(q, '&'))[0];
    }
  }

  /** The logged path reveals exactly what the redacted query does. */
  lemma LoggedPathHidesExactlyDeniedValues(lower: Lower, path: string, q1: string, q2: string)
    ensures (RedactedPath(lower, path, q1) == RedactedPath(lower, path, q2))
            <==> (Views(lower, Split(q1, '&')) == Views(lower, Split(q2, '&')))
  {
    RedactionHidesExactlyDeniedValues(lower, q1, q2);
    OnlyTheEmptyQueryLooksEmpty(lower, q1);
    OnlyTheEmptyQueryLooksEmpty(lower, q2);
    var prefix := path + "?";
    if q1 != "" && q2 != "" {
      assert (prefix + RedactQuery(lower, q1))[|prefix|..] == RedactQuery(lower, q1);
      assert (prefix + RedactQuery(lower, q2))[|prefix|..] == RedactQuery(lower, q2);
    } else {
      assert |RedactedPath(lower, path, q1)| > |path| <==> q1 != "";
      assert |RedactedPath(lower, path, q2)| > |path| <==> q2 != "";
    }
  }

  lemma RedactionIsIdempotent(lower: Lower, raw: string)
    ensures RedactQuery(lower, RedactQuery(lower, raw)) == RedactQuery(lower, raw)
  {
    RedactedPieces(lower, raw);
    var pieces := Split(raw, '&');
    forall i | 0 <= i < |pieces|
      ensures RedactPiece(lower, RedactPiece(lower, pieces[i])) == RedactPiece(lower, pieces[i])
    {
      PieceKeepsKey(lower, pieces[i]);
    }
    assert RedactPieces(lower, RedactPieces(lower, pieces)) == RedactPieces(lower, pieces);
  }
}
