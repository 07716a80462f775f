/** The parse loop: a left fold over the transcript's lines that opens a
    record at each header line and appends every other line, after a
    "\n", to the message of the last record. Lines before the first header
    are dropped.

    The fold takes the header matcher as a parameter `matcher`; the
    transcript parser instantiates it with `Header.MatchLine`. Every fact
    here holds for any matcher. */
module Assembler {
  import opened Wrappers
  import opened Header

  /** One row of `data`: the three capture groups, the message growing
      with its continuation lines. */
  datatype Record = Record(dateTime: string, sender: string, message: string)

  /** The record a header line opens. */
  function Open(m: Match): Record {
    Record(m.DateTime(), m.sender, m.start)
  }

  /** One turn of the loop. A header opens a record after the others; any
      other line changes only the message of the last record, or nothing
      when there is no record yet. */
  function Step(matcher: string -> Option<Match>, data: seq<Record>, line: string): (r: seq<Record>)
    ensures matcher(line).Some? ==> |r| == |data| + 1 && r[..|data|] == data
    ensures matcher(line).Some? ==> r[|data|] == Open(matcher(line).value)
    ensures matcher(line).None? && data == [] ==> r == []
    ensures matcher(line).None? && data != [] ==>
      && |r| == |data|
      && r[..|data| - 1] == data[..|data| - 1]
      && r[|data| - 1].dateTime == data[|data| - 1].dateTime
      && r[|data| - 1].sender == data[|data| - 1].sender
      && r[|data| - 1].message == data[|data| - 1].message + "\n" + line
  {
    match matcher(line)
    case Some(m) => data + [Open(m)]
    case None =>
      if data == [] then data
      else
        var last := data[|data| - 1];
        data[..|data| - 1] + [last.(message := last.message + "\n" + line)]
  }

  /** The loop over all lines, as a left fold: at most one record per
      line, none while no line is a header, and a final header line leaves
      the record it opens last. */
  function Parse(matcher: string -> Option<Match>, lines: seq<string>): (data: seq<Record>)
    ensures |data| <= |lines|
    ensures NoHeader(matcher, lines) ==> data == []
    ensures |lines| > 0 && matcher(lines[|lines| - 1]).Some? ==>
      |data| > 0 && data[|data| - 1] == Open(matcher(lines[|lines| - 1]).value)
  {
    if |lines| == 0 then []
    else
      var init := lines[..|lines| - 1];
      assert NoHeader(matcher, lines) ==> NoHeader(matcher, init) by {
        forall i | 0 <= i < |init| ensures init[i] == lines[i] { }
      }
      Step(matcher, Parse(matcher, init), lines[|lines| - 1])
  }

  /** What the non-header lines at the front of `lines` add to the message
      before them: "\n" + line for each, up to the next header. */
  function Continuation(matcher: string -> Option<Match>, lines: seq<string>): string {
    if |lines| == 0 || matcher(lines[0]).Some? then ""
    else "\n" + lines[0] + Continuation(matcher, lines[1..])
  }

  /** The record that the header line `lines[i]` ends up as. */
  function RecordAt(matcher: string -> Option<Match>, lines: seq<string>, i: nat): Record
    requires i < |lines| && matcher(lines[i]).Some?
  {
    var r := Open(matcher(lines[i]).value);
    r.(message := r.message + Continuation(matcher, lines[i + 1..]))
  }

  /** The records read front to back: one per header line, in order, each
      with the lines up to the next header as its continuation. */
  function Grouped(matcher: string -> Option<Match>, lines: seq<string>): seq<Record> {
    if |lines| == 0 then []
    else if matcher(lines[0]).Some? then [RecordAt(matcher, lines, 0)] + Grouped(matcher, lines[1..])
    else Grouped(matcher, lines[1..])
  }

  predicate NoHeader(matcher: string -> Option<Match>, lines: seq<string>) {
    forall i | 0 <= i < |lines| :: matcher(lines[i]).None?
  }

  /** Indices of the header lines from `from` on, in increasing order. */
  function HeaderPositions(matcher: string -> Option<Match>, lines: seq<string>, from: nat): (ps: seq<nat>)
    requires from <= |lines|
    ensures forall k | 0 <= k < |ps| :: from <= ps[k] < |lines| && matcher(lines[ps[k]]).Some?
    ensures forall k, l | 0 <= k < l < |ps| :: ps[k] < ps[l]
    ensures forall i | from <= i < |lines| && matcher(lines[i]).Some? :: i in ps
    decreases |lines| - from
  {
    if from == |lines| then []
    else
      var rest := HeaderPositions(matcher, lines, from + 1);
      if matcher(lines[from]).Some? then [from] + rest else rest
  }

  /** Indices of all header lines, in increasing order. */
  function Headers(matcher: string -> Option<Match>, lines: seq<string>): seq<nat> {
    HeaderPositions(matcher, lines, 0)
  }
}
