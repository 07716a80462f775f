/** What the parse loop computes: the left fold equals the front-to-back
    grouping, so records come one per header line, in order, each with
    its continuation lines; leading non-header lines leave no trace; and a
    record no longer changes once the next header has been read. */
module AssemblerFacts {
  import opened Wrappers
  import opened Header
  import opened Assembler

  lemma {:induction false} ContinuationAppend(matcher: string -> Option<Match>, lines: seq<string>, line: string)
    ensures Continuation(matcher, lines + [line])
         == if NoHeader(matcher, lines) && matcher(line).None?
            then Continuation(matcher, lines) + "\n" + line
            else Continuation(matcher, lines)
  {
    if |lines| == 0 {
      assert [] + [line] == [line];
      assert ([line])[1..] == [];
    } else {
      assert (lines + [line])[1..] == lines[1..] + [line];
      ContinuationAppend(matcher, lines[1..], line);
      if matcher(lines[0]).None? {
        assert NoHeader(matcher, lines) <==> NoHeader(matcher, lines[1..]) by {
          if NoHeader(matcher, lines[1..]) {
            forall i | 0 <= i < |lines| ensures matcher(lines[i]).None? {
              if i > 0 {
                assert lines[i] == lines[1..][i - 1];
              }
            }
          }
        }
      }
    }
  }

  /** No records come out exactly when no line is a header. */
  lemma {:induction false} GroupedEmpty(matcher: string -> Option<Match>, lines: seq<string>)
    ensures Grouped(matcher, lines) == [] <==> NoHeader(matcher, lines)
  {
    if |lines| > 0 {
      GroupedEmpty(matcher, lines[1..]);
      if matcher(lines[0]).None? && NoHeader(matcher, lines[1..]) {
        forall i | 0 <= i < |lines| ensures matcher(lines[i]).None? {
          if i > 0 {
            assert lines[i] == lines[1..][i - 1];
          }
        }
      }
    }
  }

  /** A turn of the loop that leaves the first record alone. */
  lemma StepBehindFirst(matcher: string -> Option<Match>, r: Record, g: seq<Record>, line: string)
    requires matcher(line).Some? || g != []
    ensures Step(matcher, [r] + g, line) == [r] + Step(matcher, g, line)
  {
    var data := [r] + g;
    if matcher(line).Some? {
      assert [r] + (g + [Open(matcher(line).value)]) == data + [Open(matcher(line).value)];
    } else {
      var last := g[|g| - 1];
      assert data[|data| - 1] == last;
      assert data[..|data| - 1] == [r] + g[..|g| - 1];
      assert [r] + (g[..|g| - 1] + [last.(message := last.message + "\n" + line)])
          == ([r] + g[..|g| - 1]) + [last.(message := last.message + "\n" + line)];
    }
  }

  /** The first record, before and after one more line is read. */
  lemma FirstRecordSnoc(matcher: string -> Option<Match>, lines: seq<string>, line: string)
    requires |lines| > 0 && matcher(lines[0]).Some?
    ensures RecordAt(matcher, lines + [line], 0)
         == if NoHeader(matcher, lines[1..]) && matcher(line).None?
            then RecordAt(matcher, lines, 0).(message := RecordAt(matcher, lines, 0).message + "\n" + line)
            else RecordAt(matcher, lines, 0)
  {
    var rest := lines[1..];
    var first := Open(matcher(lines[0]).value);
    assert (lines + [line])[0] == lines[0];
    assert (lines + [line])[1..] == rest + [line];
    ContinuationAppend(matcher, rest, line);
    var c := Continuation(matcher, rest);
    assert first.message + (c + "\n" + line) == (first.message + c) + "\n" + line;
  }

  /** One turn of the loop on records `[r] + g`, given what it does to `r`. */
  lemma StepOnFirst(matcher: string -> Option<Match>, r: Record, r': Record, g: seq<Record>, line: string)
    requires matcher(line).Some? || g != [] ==> r' == r
    requires matcher(line).None? && g == [] ==> r' == r.(message := r.message + "\n" + line)
    ensures [r'] + Step(matcher, g, line) == Step(matcher, [r] + g, line)
  {
    if matcher(line).Some? || g != [] {
      StepBehindFirst(matcher, r, g, line);
    }
  }

  /** `GroupedSnoc` when the first line is a header. */
  lemma GroupedSnocAtHeader(matcher: string -> Option<Match>, lines: seq<string>, line: string)
    requires |lines| > 0 && matcher(lines[0]).Some?
    requires Grouped(matcher, lines[1..] + [line]) == Step(matcher, Grouped(matcher, lines[1..]), line)
    ensures Grouped(matcher, lines + [line]) == Step(matcher, Grouped(matcher, lines), line)
  {
    var rest := lines[1..];
    var g := Grouped(matcher, rest);
    var r := RecordAt(matcher, lines, 0);
    var r' := RecordAt(matcher, lines + [line], 0);
    assert Grouped(matcher, lines) == [r] + g;
    assert Grouped(matcher, lines + [line]) == [r'] + Step(matcher, g, line) by {
      assert (lines + [line])[0] == lines[0];
      assert (lines + [line])[1..] == rest + [line];
    }
    assert g == [] <==> NoHeader(matcher, rest) by {
      GroupedEmpty(matcher, rest);
    }
    assert r' == if g == [] && matcher(line).None? then r.(message := r.message + "\n" + line) else r by {
      FirstRecordSnoc(matcher, lines, line);
    }
    StepOnFirst(matcher, r, r', g, line);
  }

  /** Reading one more line at the end of the front-to-back grouping is one
      turn of the loop. */
  lemma {:induction false} GroupedSnoc(matcher: string -> Option<Match>, lines: seq<string>, line: string)
    ensures Grouped(matcher, lines + [line]) == Step(matcher, Grouped(matcher, lines), line)
  {
    if |lines| == 0 {
      assert lines + [line] == [line];
      assert [line][1..] == [];
      assert Grouped(matcher, [line][1..]) == [];
      assert Continuation(matcher, [line][1..]) == "";
      if matcher(line).Some? {
        var r := Open(matcher(line).value);
        assert r.message + "" == r.message;
        assert RecordAt(matcher, [line], 0) == r;
      }
    } else {
      assert (lines + [line])[1..] == lines[1..] + [line];
      assert (lines + [line])[0] == lines[0];
      GroupedSnoc(matcher, lines[1..], line);
      if matcher(lines[0]).Some? {
        GroupedSnocAtHeader(matcher, lines, line);
      }
    }
  }

  /** The left fold of the loop is the front-to-back grouping. */
  lemma {:induction false} ParseIsGrouped(matcher: string -> Option<Match>, lines: seq<string>)
    ensures Parse(matcher, lines) == Grouped(matcher, lines)
  {
    if |lines| > 0 {
      var init := lines[..|lines| - 1];
      var last := lines[|lines| - 1];
      assert init + [last] == lines;
      ParseSnoc(matcher, init, last);
      ParseIsGrouped(matcher, init);
      GroupedSnoc(matcher, init, last);
    }
  }

  /** `records[k]` is the record of the header line `lines[ps[k]]`, for
      every k. */
  ghost predicate Aligned(matcher: string -> Option<Match>, lines: seq<string>, records: seq<Record>, ps: seq<nat>) {
    && |records| == |ps|
    && forall k | 0 <= k < |ps| ::
         ps[k] < |lines| && matcher(lines[ps[k]]).Some? && records[k] == RecordAt(matcher, lines, ps[k])
  }

  lemma AlignedCons(matcher: string -> Option<Match>, lines: seq<string>, i: nat, records: seq<Record>, ps: seq<nat>)
    requires i < |lines| && matcher(lines[i]).Some?
    requires Aligned(matcher, lines, records, ps)
    ensures Aligned(matcher, lines, [RecordAt(matcher, lines, i)] + records, [i] + ps)
  {
    var records' := [RecordAt(matcher, lines, i)] + records;
    var ps' := [i] + ps;
    forall k | 0 <= k < |ps'|
      ensures ps'[k] < |lines| && matcher(lines[ps'[k]]).Some? && records'[k] == RecordAt(matcher, lines, ps'[k])
    {
      if k > 0 {
        assert records'[k] == records[k - 1];
        assert ps'[k] == ps[k - 1];
      }
    }
  }

  /** The k-th record of the grouping from line `from` on is the record of
      the k-th header line from there. */
  lemma {:induction false} GroupedFollowsHeaders(matcher: string -> Option<Match>, lines: seq<string>, from: nat)
    requires from <= |lines|
    ensures Aligned(matcher, lines, Grouped(matcher, lines[from..]), HeaderPositions(matcher, lines, from))
    decreases |lines| - from
  {
    if from < |lines| {
      GroupedFollowsHeaders(matcher, lines, from + 1);
      var ps := HeaderPositions(matcher, lines, from + 1);
      var g := Grouped(matcher, lines[from + 1..]);
      assert lines[from..][1..] == lines[from + 1..];
      assert lines[from..][0] == lines[from];
      if matcher(lines[from]).Some? {
        assert RecordAt(matcher, lines[from..], 0) == RecordAt(matcher, lines, from);
        assert Grouped(matcher, lines[from..]) == [RecordAt(matcher, lines, from)] + g;
        assert HeaderPositions(matcher, lines, from) == [from] + ps;
        AlignedCons(matcher, lines, from, g, ps);
      } else {
        assert Grouped(matcher, lines[from..]) == g;
        assert HeaderPositions(matcher, lines, from) == ps;
      }
    } else {
      assert Grouped(matcher, lines[from..]) == [];
    }
  }

  /** The loop yields one record per header line, in the order of the
      header lines, each opened by its header and carrying the lines that
      follow it up to the next header. */
  lemma RecordsFollowHeaders(matcher: string -> Option<Match>, lines: seq<string>)
    ensures |Parse(matcher, lines)| == |Headers(matcher, lines)|
    ensures forall k | 0 <= k < |Headers(matcher, lines)| ::
      Parse(matcher, lines)[k] == RecordAt(matcher, lines, Headers(matcher, lines)[k])
  {
    ParseIsGrouped(matcher, lines);
    GroupedFollowsHeaders(matcher, lines, 0);
    assert lines[0..] == lines;
    assert Aligned(matcher, lines, Parse(matcher, lines), Headers(matcher, lines));
  }

  /** The result is empty exactly when no line is a header. */
  lemma {:induction false} ParseEmpty(matcher: string -> Option<Match>, lines: seq<string>)
    ensures Parse(matcher, lines) == [] <==> NoHeader(matcher, lines)
  {
    ParseIsGrouped(matcher, lines);
    GroupedEmpty(matcher, lines);
  }

  lemma {:induction false} GroupedSkipsLeading(matcher: string -> Option<Match>, junk: seq<string>, lines: seq<string>)
    requires NoHeader(matcher, junk)
    ensures Grouped(matcher, junk + lines) == Grouped(matcher, lines)
  {
    if |junk| > 0 {
      assert matcher(junk[0]).None?;
      assert (junk + lines)[0] == junk[0];
      assert (junk + lines)[1..] == junk[1..] + lines;
      assert NoHeader(matcher, junk[1..]) by {
        forall i | 0 <= i < |junk[1..]| ensures matcher(junk[1..][i]).None? {
          assert junk[1..][i] == junk[i + 1];
        }
      }
      GroupedSkipsLeading(matcher, junk[1..], lines);
    } else {
      assert junk + lines == lines;
    }
  }

  /** Non-header lines before the first header have no effect. */
  lemma LeadingLinesIgnored(matcher: string -> Option<Match>, junk: seq<string>, lines: seq<string>)
    requires NoHeader(matcher, junk)
    ensures Parse(matcher, junk + lines) == Parse(matcher, lines)
  {
    ParseIsGrouped(matcher, junk + lines);
    ParseIsGrouped(matcher, lines);
    GroupedSkipsLeading(matcher, junk, lines);
  }

  /** The records of `data` before position `n - 1` are identical in
      `after`, and the one at `n - 1` differs at most by a longer message. */
  ghost predicate KeepsFinished(data: seq<Record>, after: seq<Record>, n: nat) {
    && 0 < n <= |data| <= |after|
    && after[..n - 1] == data[..n - 1]
    && after[n - 1].dateTime == data[n - 1].dateTime
    && after[n - 1].sender == data[n - 1].sender
    && data[n - 1].message <= after[n - 1].message
  }

  lemma StepKeepsFinished(matcher: string -> Option<Match>, data: seq<Record>, line: string, n: nat)
    requires 0 < n <= |data|
    ensures KeepsFinished(data, Step(matcher, data, line), n)
  {
    var after := Step(matcher, data, line);
    if matcher(line).Some? {
      assert after[..|data|] == data;
      assert after[..n - 1] == data[..n - 1];
      assert after[n - 1] == data[n - 1];
    } else if n < |data| {
      assert after[..|data| - 1] == data[..|data| - 1];
      assert after[..n - 1] == data[..n - 1];
      assert after[n - 1] == data[n - 1];
    } else {
      assert after[..n - 1] == data[..n - 1];
      assert after[n - 1].message == data[n - 1].message + "\n" + line;
    }
  }

  lemma KeepsFinishedTrans(a: seq<Record>, b: seq<Record>, c: seq<Record>, n: nat)
    requires KeepsFinished(a, b, n) && KeepsFinished(b, c, n)
    ensures KeepsFinished(a, c, n)
  {
    assert a[n - 1].message <= c[n - 1].message by {
      assert a[n - 1].message == b[n - 1].message[..|a[n - 1].message|];
      assert b[n - 1].message == c[n - 1].message[..|b[n - 1].message|];
    }
  }

  /** One more line at the end is one more turn of the loop. */
  lemma ParseSnoc(matcher: string -> Option<Match>, lines: seq<string>, line: string)
    ensures Parse(matcher, lines + [line]) == Step(matcher, Parse(matcher, lines), line)
  {
    assert (lines + [line])[..|lines|] == lines;
  }

  /** The loop's turns over `more`, starting from the records `data`. */
  function StepAll(matcher: string -> Option<Match>, data: seq<Record>, more: seq<string>): seq<Record> {
    if |more| == 0 then data
    else Step(matcher, StepAll(matcher, data, more[..|more| - 1]), more[|more| - 1])
  }

  lemma ParseSnocOf(matcher: string -> Option<Match>, lines: seq<string>, more: seq<string>)
    requires |more| > 0
    ensures Parse(matcher, lines + more)
         == Step(matcher, Parse(matcher, lines + more[..|more| - 1]), more[|more| - 1])
  {
    assert lines + more == (lines + more[..|more| - 1]) + [more[|more| - 1]];
    ParseSnoc(matcher, lines + more[..|more| - 1], more[|more| - 1]);
  }

  lemma {:induction false} ParseAppend(matcher: string -> Option<Match>, lines: seq<string>, more: seq<string>)
    ensures Parse(matcher, lines + more) == StepAll(matcher, Parse(matcher, lines), more)
    decreases |more|
  {
    if |more| == 0 {
      assert lines + more == lines;
    } else {
      ParseAppend(matcher, lines, more[..|more| - 1]);
      ParseSnocOf(matcher, lines, more);
    }
  }

  lemma {:induction false} StepAllKeepsFinished(matcher: string -> Option<Match>, data: seq<Record>, more: seq<string>, n: nat)
    requires 0 < n <= |data|
    ensures KeepsFinished(data, StepAll(matcher, data, more), n)
    decreases |more|
  {
    if |more| > 0 {
      var mid := StepAll(matcher, data, more[..|more| - 1]);
      StepAllKeepsFinished(matcher, data, more[..|more| - 1], n);
      StepKeepsFinished(matcher, mid, more[|more| - 1], n);
      KeepsFinishedTrans(data, mid, StepAll(matcher, data, more), n);
    } else {
      assert KeepsFinished(data, data, n);
    }
  }

  /** Reading more lines never changes a record that already has a
      successor: only the last record stays open, and then only its
      message, which can only grow. */
  lemma FinishedRecordsStay(matcher: string -> Option<Match>, lines: seq<string>, more: seq<string>)
    requires Parse(matcher, lines) != []
    ensures KeepsFinished(Parse(matcher, lines), Parse(matcher, lines + more), |Parse(matcher, lines)|)
  {
    var before := Parse(matcher, lines);
    ParseAppend(matcher, lines, more);
    StepAllKeepsFinished(matcher, before, more, |before|);
  }

  /** The `for line in lines` loop, statement by statement, with the
      header regex passed in as `matcher`. */
  method ParseLoop(matcher: string -> Option<Match>, lines: seq<string>) returns (data: seq<Record>)
    ensures data == Grouped(matcher, lines)
    ensures |data| == |Headers(matcher, lines)|
    ensures data == [] <==> NoHeader(matcher, lines)
  {
    data := [];
    for i := 0 to |lines|
      invariant data == Parse(matcher, lines[..i])
    {
      assert lines[..i + 1] == lines[..i] + [lines[i]];
      ParseSnoc(matcher, lines[..i], lines[i]);
      match matcher(lines[i]) {
        case Some(m) =>
          data := data + [Open(m)];
        case None =>
          if |data| > 0 {
            var last := data[|data| - 1];
            data := data[..|data| - 1] + [last.(message := last.message + "\n" + lines[i])];
          }
      }
    }
    assert lines[..|lines|] == lines;
    ParseIsGrouped(matcher, lines);
    RecordsFollowHeaders(matcher, lines);
    ParseEmpty(matcher, lines);
  }
}
