/** Redaction of HTTP headers for the log (RedactHeaders of core/internal/logger/redact.go). */
module HeaderRedaction {
  import opened Wrappers
  import opened Text
  import opened DenyList

  const HEADER_KEYS: seq<string> := [
    "Authorization", "Cookie", "Set-Cookie", "Proxy-Authorization", "X-Api-Key", "X-Auth-Token"
  ]

  /** Every value replaced by the marker, or every value kept, by the name of the header. */
  ghost predicate IsRedacted(lower: Lower, name: string, before: seq<string>, after: seq<string>) {
    && |after| == |before|
    && forall i :: 0 <= i < |before| ==>
         after[i] == if lower(name) in LowerSet(HEADER_KEYS, lower) then REDACTED else before[i]
  }

  /** The loops over the values of one header. */
  method RedactValues(denied: bool, values: array<string>) returns (r: array<string>)
    ensures fresh(r) && r.Length == values.Length
    ensures forall i :: 0 <= i < r.Length ==> r[i] == if denied then REDACTED else values[i]
  {
    r := new string[values.Length](_ => "");
    for i := 0 to values.Length
      invariant forall j :: 0 <= j < i ==> r[j] == if denied then REDACTED else values[j]
    {
      r[i] := if denied then REDACTED else values[i];
    }
  }

  /** RedactHeaders: a copy that shares no value slice with `h`; None stands for nil. */
  method RedactHeaders(lower: Lower, h: Option<map<string, array<string>>>) returns (r: Option<map<string, array<string>>>)
    ensures r.Some? == h.Some?
    ensures r.Some? ==>
              && r.value.Keys == h.value.Keys
              && forall k | k in h.value :: fresh(r.value[k]) && IsRedacted(lower, k, h.value[k][..], r.value[k][..])
  {
    if h.None? {
      return None;
    }
    var denied := BuildLowerSet(HEADER_KEYS, lower);
    var out: map<string, array<string>> := map[];
    var todo := h.value.Keys;
    while todo != {}
      invariant todo <= h.value.Keys && out.Keys == h.value.Keys - todo
      invariant forall k | k in out :: fresh(out[k]) && IsRedacted(lower, k, h.value[k][..], out[k][..])
    {
      var k :| k in todo;
      todo := todo - {k};
      var values := RedactValues(lower(k) in denied, h.value[k]);
      out := out[k := values];
    }
    r := Some(out);
  }

  lemma HeaderKeysAreAscii(i: nat)
    requires i < |HEADER_KEYS|
    ensures IsAscii(HEADER_KEYS[i])
  {
    var k := HEADER_KEYS[i];
    forall j | 0 <= j < |k| ensures k[j] == '-' || 'A' <= k[j] <= 'Z' || 'a' <= k[j] <= 'z' {}
  }

  /** A header is hidden exactly if its name is on the list in some letter case. */
  lemma HeadersIgnoreCase(lower: Lower, name: string, before: seq<string>, after: seq<string>)
    requires LowersAscii(lower) && IsAscii(name) && IsRedacted(lower, name, before, after)
    ensures |after| == |before|
    ensures forall i :: 0 <= i < |before| ==>
              after[i] == if exists j :: 0 <= j < |HEADER_KEYS| && AsciiLower(HEADER_KEYS[j]) == AsciiLower(name)
                          then "[REDACTED]" else before[i]
  {
    forall i | 0 <= i < |HEADER_KEYS| ensures IsAscii(HEADER_KEYS[i]) {
      HeaderKeysAreAscii(i);
    }
    LowerSetMatches(HEADER_KEYS, lower, name);
  }
}
