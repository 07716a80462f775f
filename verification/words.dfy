/** The derived Word_Count column: `len(x.split())`, the number of
    tokens Python's `str.split()` finds in a message. */
module Words {
  import opened Text

  /** Length of the longest prefix of `s` free of whitespace. */
  function WordPrefix(s: string): (n: nat)
    ensures n <= |s| && NoSpace(s[..n])
    ensures n < |s| ==> IsSpace(s[n])
  {
    if |s| > 0 && !IsSpace(s[0]) then
      var k := WordPrefix(s[1..]);
      assert s[..k + 1] == [s[0]] + s[1..][..k];
      k + 1
    else
      0
  }

  /** `str.split()` without a separator: whitespace is skipped, and each
      run of non-whitespace becomes a token. */
  function Split(s: string): (words: seq<string>)
    ensures forall k | 0 <= k < |words| :: |words[k]| > 0 && NoSpace(words[k])
    ensures |words| <= |s|
    ensures words == [] <==> AllSpace(s)
    decreases |s|
  {
    if |s| == 0 then []
    else if IsSpace(s[0]) then
      assert AllSpace(s) <==> AllSpace(s[1..]) by {
        if AllSpace(s[1..]) {
          forall i | 0 <= i < |s| ensures IsSpace(s[i]) {
            if i > 0 { assert s[i] == s[1..][i - 1]; }
          }
        }
      }
      Split(s[1..])
    else
      var n := WordPrefix(s);
      [s[..n]] + Split(s[n..])
  }

  /** The Word_Count of a message: at most one word per character, and
      none exactly when the message is empty or all whitespace. */
  function WordCount(s: string): (n: nat)
    ensures n <= |s|
    ensures n == 0 <==> AllSpace(s)
  {
    |Split(s)|
  }

  /** Position `i` begins a maximal run of non-whitespace characters. */
  predicate StartsRun(s: string, i: nat)
    requires i < |s|
  {
    !IsSpace(s[i]) && (i == 0 || IsSpace(s[i - 1]))
  }

  /** The number of maximal runs of non-whitespace characters in `s`,
      counted by their first characters. */
  function Runs(s: string): nat {
    if |s| == 0 then 0
    else Runs(s[..|s| - 1]) + if StartsRun(s, |s| - 1) then 1 else 0
  }

  /** `s` without its whitespace characters. */
  function Squeeze(s: string): string {
    if |s| == 0 then ""
    else (if IsSpace(s[0]) then "" else [s[0]]) + Squeeze(s[1..])
  }

  function Concat(words: seq<string>): string {
    if |words| == 0 then "" else words[0] + Concat(words[1..])
  }

  /** `sep.join(words)`. */
  function Join(words: seq<string>, sep: string): string {
    if |words| == 0 then ""
    else if |words| == 1 then words[0]
    else words[0] + sep + Join(words[1..], sep)
  }
}
