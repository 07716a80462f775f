/** Character classes and small string predicates shared by the header
    matcher, the assembler and the word count. */
module Text {

  /** `\d` of the header regex, restricted to ASCII decimal digits. */
  predicate IsDigit(c: char) {
    '0' <= c <= '9'
  }

  predicate IsDigits(s: string) {
    forall i | 0 <= i < |s| :: IsDigit(s[i])
  }

  /** The characters Python's `str.isspace()` accepts, which is the set
      `str.split()` without arguments splits on. */
  predicate IsSpace(c: char) {
    || '\t' <= c <= '\r'
    || '\U{1C}' <= c <= '\U{1F}'
    || c == ' '
    || c == '\U{85}'
    || c == '\U{A0}'
    || c == '\U{1680}'
    || '\U{2000}' <= c <= '\U{200A}'
    || c == '\U{2028}'
    || c == '\U{2029}'
    || c == '\U{202F}'
    || c == '\U{205F}'
    || c == '\U{3000}'
  }

  predicate AllSpace(s: string) {
    forall i | 0 <= i < |s| :: IsSpace(s[i])
  }

  predicate NoSpace(s: string) {
    forall i | 0 <= i < |s| :: !IsSpace(s[i])
  }

  /** Length of the longest prefix of `s` made of digits. */
  function DigitPrefix(s: string): (n: nat)
    ensures n <= |s|
    ensures IsDigits(s[..n])
    ensures n < |s| ==> !IsDigit(s[n])
  {
    if |s| > 0 && IsDigit(s[0]) then
      var k := DigitPrefix(s[1..]);
      assert s[..k + 1] == [s[0]] + s[1..][..k];
      k + 1
    else
      0
  }

  /** The longest digit prefix of `x + y` is `x` itself when `x` is all
      digits and `y` does not continue it with another digit. */
  lemma {:induction false} DigitPrefixOf(x: string, y: string)
    requires IsDigits(x)
    requires |y| > 0 ==> !IsDigit(y[0])
    ensures DigitPrefix(x + y) == |x|
  {
    if |x| > 0 {
      assert (x + y)[1..] == x[1..] + y;
      DigitPrefixOf(x[1..], y);
    }
  }

  /** True when the two-character sequence ": " occurs somewhere in `s`. */
  predicate HasColonSpace(s: string) {
    |s| >= 2 && ((s[0] == ':' && s[1] == ' ') || HasColonSpace(s[1..]))
  }

  /** The line without one trailing '\n', which is what `$` in a
      non-multiline Python regex lets the match end before. */
  function StripFinalNewline(s: string): (r: string)
    ensures s == r || s == r + "\n"
    ensures |s| > 0 && s[|s| - 1] == '\n' ==> s == r + "\n"
  {
    if |s| > 0 && s[|s| - 1] == '\n' then s[..|s| - 1] else s
  }
}
