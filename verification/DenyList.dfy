/**
 The deny-list of field keys (core/internal/logger/redact.go).

 Unicode lower-casing is a parameter: `lower` stands for strings.ToLower.  Whatever it does beyond
 ASCII, `LowersAscii` says what it does on ASCII text, and only the lemmas about letter case need it.
 */
module DenyList {
  import opened Text

  const REDACTED := "[REDACTED]"

  const FIELD_KEYS: seq<string> := [
    "password", "current_password", "new_password", "access_token", "refresh_token", "id_token",
    "code", "code_verifier", "client_secret", "assertion", "client_assertion", "private_key",
    "secret", "api_key", "jwt", "bearer_token"
  ]

  type Lower = string -> string

  ghost predicate LowersAscii(lower: Lower) {
    forall s :: IsAscii(s) ==> lower(s) == AsciiLower(s)
  }

  function LowerSet(keys: seq<string>, lower: Lower): set<string> {
    set k | k in keys :: lower(k)
  }

  /** `k` is one of the keys up to ASCII letter case. */
  predicate IsOneOf(keys: seq<string>, k: string) {
    exists i :: 0 <= i < |keys| && AsciiLower(keys[i]) == AsciiLower(k)
  }

  lemma LowerSetMatches(keys: seq<string>, lower: Lower, k: string)
    requires LowersAscii(lower) && IsAscii(k) && forall i :: 0 <= i < |keys| ==> IsAscii(keys[i])
    ensures lower(k) in LowerSet(keys, lower) <==> IsOneOf(keys, k)
  {
    if i :| 0 <= i < |keys| && AsciiLower(keys[i]) == AsciiLower(k) {
      assert lower(keys[i]) in LowerSet(keys, lower);
    }
    if lower(k) in LowerSet(keys, lower) {
      var key :| key in keys && lower(key) == lower(k);
      var i :| 0 <= i < |keys| && keys[i] == key;
      assert AsciiLower(keys[i]) == AsciiLower(k);
    }
  }

  /**
   buildLowerSet: the set is filled key by key.  Among ASCII keys a lower-cased name is found in it exactly
   if the list has the name in some letter case.
   */
  method BuildLowerSet(keys: seq<string>, lower: Lower) returns (s: set<string>)
    ensures s == LowerSet(keys, lower)
    ensures forall x :: x in s <==> exists i :: 0 <= i < |keys| && x == lower(keys[i])
    ensures LowersAscii(lower) && (forall i :: 0 <= i < |keys| ==> IsAscii(keys[i])) ==>
              forall k | IsAscii(k) :: lower(k) in s <==>
                exists i :: 0 <= i < |keys| && AsciiLower(keys[i]) == AsciiLower(k)
  {
    s := {};
    for i := 0 to |keys|
      invariant s == LowerSet(keys[..i], lower)
    {
      s := s + {lower(keys[i])};
    }
    assert keys[..|keys|] == keys;
    if LowersAscii(lower) && forall i :: 0 <= i < |keys| ==> IsAscii(keys[i]) {
      forall k | IsAscii(k) ensures lower(k) in s <==> IsOneOf(keys, k) {
        LowerSetMatches(keys, lower, k);
      }
    }
  }

  predicate IsFieldKeyToRedact(lower: Lower, key: string) {
    lower(key) in LowerSet(FIELD_KEYS, lower)
  }

  lemma FieldKeysAreLowerAscii(i: nat)
    requires i < |FIELD_KEYS|
    ensures IsAscii(FIELD_KEYS[i]) && AsciiLower(FIELD_KEYS[i]) == FIELD_KEYS[i]
  {
    var k := FIELD_KEYS[i];
    forall j | 0 <= j < |k| ensures 'a' <= k[j] <= 'z' || k[j] == '_' {}
    assert AsciiLower(k) == k;
  }

  /** A key is matched as a whole and whatever its letter case. */
  lemma DenyListIgnoresCase(lower: Lower, key: string)
    requires LowersAscii(lower) && IsAscii(key)
    ensures IsFieldKeyToRedact(lower, key) <==> AsciiLower(key) in FIELD_KEYS
  {
    forall i | 0 <= i < |FIELD_KEYS| ensures lower(FIELD_KEYS[i]) == FIELD_KEYS[i] {
      FieldKeysAreLowerAscii(i);
    }
    if AsciiLower(key) in FIELD_KEYS {
      var k :| k in FIELD_KEYS && k == AsciiLower(key);
      assert lower(k) in LowerSet(FIELD_KEYS, lower);
    }
  }
}
