/** The word count agrees with the number of maximal non-whitespace runs,
    and the consequences stated for the Word_Count column. */
module WordsFacts {
  import opened Text
  import opened Words

  lemma {:induction false} RunsTrailingSpace(a: string, w: string)
    requires AllSpace(w)
    ensures Runs(a + w) == Runs(a)
    decreases |w|
  {
    if |w| > 0 {
      var w' := w[..|w| - 1];
      assert (a + w)[..|a + w| - 1] == a + w';
      RunsTrailingSpace(a, w');
    } else {
      assert a + w == a;
    }
  }

  /** Whitespace between two texts separates their runs: none merges and
      none is lost. */
  lemma {:induction false} RunsAcrossSpace(a: string, w: string, b: string)
    requires |w| > 0 && AllSpace(w)
    ensures Runs(a + w + b) == Runs(a) + Runs(b)
    decreases |b|
  {
    if |b| == 0 {
      assert a + w + b == a + w;
      RunsTrailingSpace(a, w);
    } else {
      var b' := b[..|b| - 1];
      var s := a + w + b;
      assert s[..|s| - 1] == a + w + b';
      RunsAcrossSpace(a, w, b');
      assert s[|s| - 1] == b[|b| - 1];
      assert s[|s| - 2] == if |b| == 1 then w[|w| - 1] else b[|b| - 2];
      assert StartsRun(s, |s| - 1) == StartsRun(b, |b| - 1);
    }
  }

  lemma RunsLeadingSpace(w: string, b: string)
    requires AllSpace(w)
    ensures Runs(w + b) == Runs(b)
  {
    if |w| > 0 {
      RunsAcrossSpace("", w, b);
      assert "" + w + b == w + b;
    } else {
      assert w + b == b;
    }
  }

  lemma {:induction false} RunsOfWord(word: string)
    requires |word| > 0 && NoSpace(word)
    ensures Runs(word) == 1
    decreases |word|
  {
    if |word| > 1 {
      RunsOfWord(word[..|word| - 1]);
    } else {
      assert word[..0] == "";
    }
  }

  /** A leading whitespace character starts no run. */
  lemma RunsDropSpace(s: string)
    requires |s| > 0 && IsSpace(s[0])
    ensures Runs(s) == Runs(s[1..])
  {
    assert s == s[..1] + s[1..];
    RunsLeadingSpace(s[..1], s[1..]);
  }

  /** A non-empty token followed by whitespace (or nothing) adds one run. */
  lemma RunsWordThenRest(word: string, rest: string)
    requires |word| > 0 && NoSpace(word)
    requires |rest| > 0 ==> IsSpace(rest[0])
    ensures Runs(word + rest) == 1 + Runs(rest)
  {
    RunsOfWord(word);
    if |rest| == 0 {
      assert word + rest == word;
    } else {
      assert Runs(word + rest) == Runs(word) + Runs(rest[1..]) by {
        assert word + rest == word + rest[..1] + rest[1..];
        RunsAcrossSpace(word, rest[..1], rest[1..]);
      }
      assert Runs(rest) == Runs(rest[1..]) by {
        RunsDropSpace(rest);
      }
    }
  }

  lemma TakeWordRuns(t: string)
    requires |t| > 0 && !IsSpace(t[0])
    ensures Runs(t) == 1 + Runs(t[WordPrefix(t)..])
  {
    var n := WordPrefix(t);
    assert t == t[..n] + t[n..];
    RunsWordThenRest(t[..n], t[n..]);
  }

  /** `len(x.split())` is the number of maximal non-whitespace runs. */
  lemma {:induction false} WordCountIsRuns(s: string)
    ensures WordCount(s) == Runs(s)
    decreases |s|
  {
    if |s| > 0 {
      if IsSpace(s[0]) {
        RunsDropSpace(s);
        WordCountIsRuns(s[1..]);
      } else {
        var n := WordPrefix(s);
        assert |Split(s)| == 1 + |Split(s[n..])|;
        TakeWordRuns(s);
        WordCountIsRuns(s[n..]);
      }
    }
  }

  /** The reference count is 0 exactly when the text is empty or all
      whitespace, as `WordCount` promises of the tokens. */
  lemma {:induction false} RunsZeroIffAllSpace(s: string)
    ensures Runs(s) == 0 <==> AllSpace(s)
    decreases |s|
  {
    if |s| > 0 {
      var s' := s[..|s| - 1];
      RunsZeroIffAllSpace(s');
      if AllSpace(s) {
        assert AllSpace(s');
      } else if AllSpace(s') {
        assert !IsSpace(s[|s| - 1]);
        assert StartsRun(s, |s| - 1);
      }
    }
  }

  /** Word counts add up over a "\n" join, the way the parser joins a
      message with its continuation lines. */
  lemma WordCountNewlineJoin(a: string, b: string)
    ensures WordCount(a + "\n" + b) == WordCount(a) + WordCount(b)
  {
    WordCountIsRuns(a + "\n" + b);
    WordCountIsRuns(a);
    WordCountIsRuns(b);
    RunsAcrossSpace(a, "\n", b);
  }

  /** How much whitespace separates two texts does not change the count. */
  lemma WordCountIgnoresSpacing(a: string, w1: string, w2: string, b: string)
    requires |w1| > 0 && AllSpace(w1)
    requires |w2| > 0 && AllSpace(w2)
    ensures WordCount(a + w1 + b) == WordCount(a + w2 + b)
  {
    WordCountIsRuns(a + w1 + b);
    WordCountIsRuns(a + w2 + b);
    RunsAcrossSpace(a, w1, b);
    RunsAcrossSpace(a, w2, b);
  }

  /** Whitespace around a text does not change its count. */
  lemma WordCountIgnoresPadding(w1: string, a: string, w2: string)
    requires AllSpace(w1) && AllSpace(w2)
    ensures WordCount(w1 + a + w2) == WordCount(a)
  {
    WordCountIsRuns(w1 + a + w2);
    WordCountIsRuns(a);
    assert w1 + a + w2 == w1 + (a + w2);
    RunsLeadingSpace(w1, a + w2);
    RunsTrailingSpace(a, w2);
  }

  lemma {:induction false} SqueezeAppend(a: string, b: string)
    ensures Squeeze(a + b) == Squeeze(a) + Squeeze(b)
    decreases |a|
  {
    if |a| > 0 {
      assert (a + b)[0] == a[0];
      assert (a + b)[1..] == a[1..] + b;
      SqueezeAppend(a[1..], b);
    } else {
      assert a + b == b;
    }
  }

  lemma {:induction false} SqueezeSpace(w: string)
    requires AllSpace(w)
    ensures Squeeze(w) == ""
    decreases |w|
  {
    if |w| > 0 {
      SqueezeSpace(w[1..]);
    }
  }

  lemma {:induction false} SqueezeWord(x: string)
    requires NoSpace(x)
    ensures Squeeze(x) == x
    decreases |x|
  {
    if |x| > 0 {
      SqueezeWord(x[1..]);
      assert [x[0]] + x[1..] == x;
    }
  }

  /** The tokens, put back together, are the message with its whitespace
      removed: splitting loses nothing but whitespace. */
  lemma {:induction false} SplitKeepsText(s: string)
    ensures Concat(Split(s)) == Squeeze(s)
    decreases |s|
  {
    if |s| > 0 {
      if IsSpace(s[0]) {
        SplitKeepsText(s[1..]);
      } else {
        var n := WordPrefix(s);
        assert s == s[..n] + s[n..];
        SqueezeAppend(s[..n], s[n..]);
        SqueezeWord(s[..n]);
        SplitKeepsText(s[n..]);
        assert Split(s) == [s[..n]] + Split(s[n..]);
        assert ([s[..n]] + Split(s[n..]))[1..] == Split(s[n..]);
      }
    }
  }

  lemma {:induction false} WordPrefixOf(x: string, y: string)
    requires NoSpace(x)
    requires |y| > 0 ==> IsSpace(y[0])
    ensures WordPrefix(x + y) == |x|
    decreases |x|
  {
    if |x| > 0 {
      assert (x + y)[1..] == x[1..] + y;
      WordPrefixOf(x[1..], y);
    } else {
      assert x + y == y;
    }
  }

  /** Leading whitespace produces no token. */
  lemma {:induction false} SplitSkipsSpace(w: string, x: string)
    requires AllSpace(w)
    ensures Split(w + x) == Split(x)
    decreases |w|
  {
    if |w| > 0 {
      assert (w + x)[0] == w[0];
      assert (w + x)[1..] == w[1..] + x;
      SplitSkipsSpace(w[1..], x);
    } else {
      assert w + x == x;
    }
  }

  /** Splitting a text made of one token and what follows it. */
  lemma SplitToken(word: string, rest: string)
    requires |word| > 0 && NoSpace(word)
    requires |rest| > 0 ==> IsSpace(rest[0])
    ensures Split(word + rest) == [word] + Split(rest)
  {
    var s := word + rest;
    assert s[0] == word[0];
    WordPrefixOf(word, rest);
    assert s[..|word|] == word;
    assert s[|word|..] == rest;
  }

  /** Splitting tokens joined by single spaces gives the tokens back. */
  lemma {:induction false} SplitJoinRoundTrip(words: seq<string>)
    requires forall k | 0 <= k < |words| :: |words[k]| > 0 && NoSpace(words[k])
    ensures Split(Join(words, " ")) == words
    decreases |words|
  {
    if |words| == 1 {
      SplitToken(words[0], "");
      assert words[0] + "" == words[0];
      assert Split("") == [];
    } else if |words| > 1 {
      var rest := Join(words[1..], " ");
      assert Join(words, " ") == words[0] + (" " + rest);
      SplitToken(words[0], " " + rest);
      SplitSkipsSpace(" ", rest);
      SplitJoinRoundTrip(words[1..]);
      assert [words[0]] + words[1..] == words;
    }
  }
}
