/** Header names as net/http keeps them: Set and Del first bring a name into its canonical form. */
module HttpHeader {
  import opened Text

  /** The characters of a token, section 5.6.2 of RFC 9110. */
  predicate IsTokenChar(c: char) {
    || 'a' <= c <= 'z' || 'A' <= c <= 'Z' || '0' <= c <= '9'
    || c == '!' || c == '#' || c == '$' || c == '%' || c == '&' || c == '\'' || c == '*' || c == '+'
    || c == '-' || c == '.' || c == '^' || c == '_' || c == '`' || c == '|' || c == '~'
  }

  predicate IsToken(s: string) {
    forall i :: 0 <= i < |s| ==> IsTokenChar(s[i])
  }

  function UpperChar(c: char): char {
    if 'a' <= c <= 'z' then (c as int - 32) as char else c
  }

  /** textproto.CanonicalMIMEHeaderKey: a capital at the start and after '-'; other names are kept. */
  function CanonicalKey(s: string): string {
    if !IsToken(s) then s
    else seq(|s|, i requires 0 <= i < |s| =>
           if i == 0 || s[i - 1] == '-' then UpperChar(s[i]) else LowerChar(s[i]))
  }

  /** Two tokens name the same header exactly when they differ in letter case only. */
  lemma SameHeaderIffSameLetters(a: string, b: string)
    requires IsToken(a) && IsToken(b)
    ensures CanonicalKey(a) == CanonicalKey(b) <==> AsciiLower(a) == AsciiLower(b)
  {
    CanonicalKeepsLetters(a);
    CanonicalKeepsLetters(b);
    if AsciiLower(a) == AsciiLower(b) {
      forall i | 0 <= i < |a| ensures LowerChar(a[i]) == LowerChar(b[i]) {
        assert AsciiLower(a)[i] == AsciiLower(b)[i];
      }
      forall i | 0 <= i < |a| ensures CanonicalKey(a)[i] == CanonicalKey(b)[i] {
        LowerDeterminesUpper(a[i], b[i]);
        assert i > 0 ==> LowerChar(a[i - 1]) == LowerChar(b[i - 1]);
      }
    }
  }

  lemma LowerDeterminesUpper(c: char, d: char)
    requires LowerChar(c) == LowerChar(d)
    ensures UpperChar(c) == UpperChar(d) && (c == '-' <==> d == '-')
  {
  }

  lemma CaseOfChar(c: char)
    ensures LowerChar(UpperChar(c)) == LowerChar(c) == LowerChar(LowerChar(c))
    ensures IsTokenChar(UpperChar(c)) == IsTokenChar(c) == IsTokenChar(LowerChar(c))
  {
  }

  lemma CanonicalKeepsLetters(s: string)
    ensures AsciiLower(CanonicalKey(s)) == AsciiLower(s)
    ensures IsToken(CanonicalKey(s)) == IsToken(s)
  {
    if IsToken(s) {
      var k := CanonicalKey(s);
      forall i | 0 <= i < |s| ensures LowerChar(k[i]) == LowerChar(s[i]) && IsTokenChar(k[i]) {
        CaseOfChar(s[i]);
      }
    }
  }
}
