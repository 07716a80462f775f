/** The transcript parser as the script runs it: the header regex plugged
    into the parse loop, the Word_Count column, and the "no messages could
    be parsed" outcome when no line is a header. */
module Transcript {
  import opened Wrappers
  import opened Header
  import opened Assembler
  import opened AssemblerFacts
  import opened Words
  import opened WordsFacts

  /** One row of the exported table. */
  datatype Row = Row(dateTime: string, sender: string, message: string, wordCount: nat)

  /** The DataFrame with its derived Word_Count column. */
  function Project(records: seq<Record>): (rows: seq<Row>)
    ensures |rows| == |records|
    ensures forall k | 0 <= k < |rows| ::
      && rows[k].dateTime == records[k].dateTime
      && rows[k].sender == records[k].sender
      && rows[k].message == records[k].message
      && rows[k].wordCount == Runs(records[k].message)
  {
    var rows := seq(|records|, k requires 0 <= k < |records| =>
      Row(records[k].dateTime, records[k].sender, records[k].message, WordCount(records[k].message)));
    assert forall k | 0 <= k < |rows| :: rows[k].wordCount == Runs(records[k].message) by {
      forall k | 0 <= k < |rows|
        ensures rows[k].wordCount == Runs(records[k].message)
      {
        WordCountIsRuns(records[k].message);
      }
    }
    rows
  }

  /** The one failure the parser reports. */
  datatype Failure = NoMessagesParsed

  /** The table for any header matcher: the failure when no line is a
      header, otherwise one row per header line. */
  function Tabulate(matcher: string -> Option<Match>, lines: seq<string>): (r: Result<seq<Row>, Failure>)
    ensures r.Failure? <==> NoHeader(matcher, lines)
    ensures r.Success? ==> |r.value| == |Headers(matcher, lines)|
    ensures r.Success? ==> forall k | 0 <= k < |r.value| ::
      var rec := RecordAt(matcher, lines, Headers(matcher, lines)[k]);
      && r.value[k].dateTime == rec.dateTime
      && r.value[k].sender == rec.sender
      && r.value[k].message == rec.message
      && r.value[k].wordCount == Runs(rec.message)
  {
    var data := Parse(matcher, lines);
    ParseEmpty(matcher, lines);
    RecordsFollowHeaders(matcher, lines);
    if data == [] then Failure(NoMessagesParsed) else Success(Project(data))
  }

  /** From the split lines of the chat file to the table, or to the failure
      when no line is a header. */
  function Extract(lines: seq<string>): (r: Result<seq<Row>, Failure>)
    ensures r.Failure? <==> NoHeader(MatchLine, lines)
    ensures r.Success? ==> |r.value| == |Headers(MatchLine, lines)|
    ensures r.Success? ==> forall k | 0 <= k < |r.value| ::
      var rec := RecordAt(MatchLine, lines, Headers(MatchLine, lines)[k]);
      && r.value[k].dateTime == rec.dateTime
      && r.value[k].sender == rec.sender
      && r.value[k].message == rec.message
      && r.value[k].wordCount == Runs(rec.message)
  {
    Tabulate(MatchLine, lines)
  }

  /** Words in the continuation lines at the front of `lines`. */
  function ContinuationWords(matcher: string -> Option<Match>, lines: seq<string>): nat {
    if |lines| == 0 || matcher(lines[0]).Some? then 0
    else WordCount(lines[0]) + ContinuationWords(matcher, lines[1..])
  }

  /** A record's word count is that of its message start plus those of its
      continuation lines: the "\n" the loop inserts joins no two words. */
  lemma {:induction false} RecordWordCount(matcher: string -> Option<Match>, start: string, lines: seq<string>)
    ensures WordCount(start + Continuation(matcher, lines))
         == WordCount(start) + ContinuationWords(matcher, lines)
    decreases |lines|
  {
    if |lines| == 0 || matcher(lines[0]).Some? {
      assert start + "" == start;
    } else {
      var start' := start + "\n" + lines[0];
      assert start + Continuation(matcher, lines) == start' + Continuation(matcher, lines[1..]);
      RecordWordCount(matcher, start', lines[1..]);
      WordCountNewlineJoin(start, lines[0]);
    }
  }
}
