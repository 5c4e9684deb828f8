/** The .NET string primitives the handlers rely on, over `string` = `seq<char>`. */
module Text {
  import opened Wrappers

  /** `char.IsWhiteSpace`: the characters Unicode classes as White_Space. */
  predicate IsWhiteSpace(c: char) {
    c == ' ' || ('\t' <= c <= '\r') || c == '\U{85}' || c == '\U{A0}' || c == '\U{1680}'
    || ('\U{2000}' <= c <= '\U{200A}') || c == '\U{2028}' || c == '\U{2029}'
    || c == '\U{202F}' || c == '\U{205F}' || c == '\U{3000}'
  }

  /** `string.IsNullOrWhiteSpace` on a nullable string. */
  predicate IsNullOrWhiteSpace(s: Option<string>) {
    s.None? || forall i :: 0 <= i < |s.value| ==> IsWhiteSpace(s.value[i])
  }

  /** The same test on a string that cannot be null. */
  predicate IsBlank(s: string) {
    IsNullOrWhiteSpace(Some(s))
  }

  /** `string.Contains(needle)`: ordinal substring test. */
  predicate Contains(s: string, needle: string)
    decreases |s|
  {
    needle <= s || (s != [] && Contains(s[1..], needle))
  }

  /** `needle` occurs in `s` starting at offset `k`. */
  predicate OccursAt(s: string, needle: string, k: nat) {
    k + |needle| <= |s| && s[k..k + |needle|] == needle
  }

  /** `Contains` holds exactly when `needle` occurs at some offset of `s`. */
  lemma {:induction false} ContainsAt(s: string, needle: string)
    ensures Contains(s, needle) <==> exists k: nat :: OccursAt(s, needle, k)
  {
    if needle <= s {
      assert OccursAt(s, needle, 0);
    } else if s != [] {
      ContainsAt(s[1..], needle);
      if Contains(s[1..], needle) {
        var k: nat :| OccursAt(s[1..], needle, k);
        assert s[k + 1..k + 1 + |needle|] == s[1..][k..k + |needle|];
        assert OccursAt(s, needle, k + 1);
      }
      forall k: nat | 0 < k && OccursAt(s, needle, k)
        ensures OccursAt(s[1..], needle, k - 1)
      {
        assert s[1..][k - 1..k - 1 + |needle|] == s[k..k + |needle|];
      }
    }
  }

  function DigitChar(d: nat): char
    requires d < 10
  {
    ('0' as int + d) as char
  }

  /** Decimal rendering of a natural number, as string interpolation prints an `int`. */
  function NatToString(n: nat): (r: string)
    ensures |r| >= 1
    ensures forall i :: 0 <= i < |r| ==> '0' <= r[i] <= '9'
    decreases n
  {
    if n < 10 then [DigitChar(n)] else NatToString(n / 10) + [DigitChar(n % 10)]
  }

  /** Decimal rendering of an `int`, with a leading '-' for negatives. */
  function IntToString(n: int): string {
    if n < 0 then "-" + NatToString(-n) else NatToString(n)
  }
}
