/** The header regex of the transcript parser,
      ^(\d{1,2}/\d{1,2}/\d{2,4}, \d{1,2}:\d{2}(?: AM| PM)?) - (.*?): (.*)$
    written as a recogniser over strings. `Match.Valid` and `Match.Line`
    describe the lines the regex accepts; `MatchLine` finds the capture
    groups, and the lemmas show it accepts exactly those lines and splits
    each one the single way the regex does. */
module Header {
  import opened Wrappers
  import opened Text

  /** The optional `(?: AM| PM)` group; `Clock24` is its absence. */
  datatype Meridiem = Clock24 | Am | Pm

  function MeridiemText(m: Meridiem): string {
    match m
    case Clock24 => ""
    case Am => " AM"
    case Pm => " PM"
  }

  /** The date/time prefix field by field; its `Text` is capture group 1.
      The two leading date fields are kept as written: the parser does not
      decide which one is the day. */
  datatype Stamp = Stamp(date1: string, date2: string, year: string,
                         hour: string, minute: string, meridiem: Meridiem)
  {
    predicate Valid() {
      && IsDigits(date1) && 1 <= |date1| <= 2
      && IsDigits(date2) && 1 <= |date2| <= 2
      && IsDigits(year) && 2 <= |year| <= 4
      && IsDigits(hour) && 1 <= |hour| <= 2
      && IsDigits(minute) && |minute| == 2
    }

    function Text(): string {
      date1 + ("/" + (date2 + ("/" + (year + (", " + (hour + (":" + (minute + MeridiemText(meridiem)))))))))
    }
  }

  /** The three capture groups of a header line: date/time, sender and
      message start. */
  datatype Match = Match(stamp: Stamp, sender: string, start: string)
  {
    function DateTime(): string {
      stamp.Text()
    }

    /** The shape the regex demands: `.` never matches '\n', and the lazy
        `(.*?)` stops at the first ": ", so the sender holds none. */
    predicate Valid() {
      && stamp.Valid()
      && !HasColonSpace(sender)
      && '\n' !in sender
      && '\n' !in start
    }

    /** The line these capture groups were taken from. */
    function Line(): string {
      DateTime() + (" - " + (sender + (": " + start)))
    }
  }

  /** `\d{lo,hi}` followed by a non-digit: splits off the digit run. */
  function TakeDigits(s: string, lo: nat, hi: nat): (r: Option<(string, string)>)
    ensures r.Some? ==> IsDigits(r.value.0) && lo <= |r.value.0| <= hi
    ensures r.Some? ==> r.value.0 + r.value.1 == s
    ensures r.Some? ==> |r.value.1| > 0 ==> !IsDigit(r.value.1[0])
  {
    var n := DigitPrefix(s);
    if lo <= n <= hi then
      assert s[..n] + s[n..] == s;
      Some((s[..n], s[n..]))
    else
      None
  }

  /** A literal piece of the pattern: splits it off the front. */
  function TakeLiteral(s: string, lit: string): (r: Option<string>)
    ensures r.Some? <==> |lit| <= |s| && s[..|lit|] == lit
    ensures r.Some? ==> lit + r.value == s
  {
    if |lit| <= |s| && s[..|lit|] == lit then
      assert s[..|lit|] + s[|lit|..] == s;
      Some(s[|lit|..])
    else
      None
  }

  /** The optional `(?: AM| PM)` group. Taking it whenever it is present
      loses no match: a line with " AM" after the minutes cannot continue
      with " - " instead. */
  function TakeMeridiem(s: string): (r: (Meridiem, string))
    ensures MeridiemText(r.0) + r.1 == s
  {
    if |s| >= 3 && s[..3] == " AM" then
      assert s[..3] + s[3..] == s;
      (Am, s[3..])
    else if |s| >= 3 && s[..3] == " PM" then
      assert s[..3] + s[3..] == s;
      (Pm, s[3..])
    else
      (Clock24, s)
  }

  /** Appending to a stamp's text appends to its last piece. */
  lemma StampTextAppend(st: Stamp, rest: string)
    ensures st.Text() + rest
         == st.date1 + ("/" + (st.date2 + ("/" + (st.year + (", " + (st.hour + (":" + (st.minute + (MeridiemText(st.meridiem) + rest)))))))))
  {
  }

  /** Capture group 1: reads a date/time prefix off the front of `s`. */
  function ParseStamp(s: string): (r: Option<(Stamp, string)>)
    ensures r.Some? ==> r.value.0.Valid() && r.value.0.Text() + r.value.1 == s
  {
    var a :- TakeDigits(s, 1, 2);
    var b :- TakeLiteral(a.1, "/");
    var c :- TakeDigits(b, 1, 2);
    var d :- TakeLiteral(c.1, "/");
    var e :- TakeDigits(d, 2, 4);
    var f :- TakeLiteral(e.1, ", ");
    var g :- TakeDigits(f, 1, 2);
    var h :- TakeLiteral(g.1, ":");
    var i :- TakeDigits(h, 2, 2);
    var (mer, rest) := TakeMeridiem(i.1);
    var st := Stamp(a.0, c.0, e.0, g.0, i.0, mer);
    assert s == a.0 + ("/" + (c.0 + ("/" + (e.0 + (", " + (g.0 + (":" + (i.0 + (MeridiemText(mer) + rest)))))))));
    StampTextAppend(st, rest);
    Some((st, rest))
  }

  /** The lazy `(.*?): ` group: splits at the first ": ". */
  function SplitSender(s: string): (r: Option<(string, string)>)
    ensures r.Some? ==> r.value.0 + ": " + r.value.1 == s && !HasColonSpace(r.value.0)
    ensures r.None? ==> !HasColonSpace(s)
  {
    if |s| < 2 then
      None
    else if s[0] == ':' && s[1] == ' ' then
      assert s == ": " + s[2..];
      Some(([], s[2..]))
    else
      match SplitSender(s[1..])
      case None => None
      case Some(p) =>
        var sender := [s[0]] + p.0;
        assert sender[1..] == p.0;
        assert sender + ": " + p.1 == [s[0]] + (p.0 + ": " + p.1);
        Some((sender, p.1))
  }

  lemma NoNewlineInParts(d: string, x: string, y: string)
    requires '\n' !in d + (" - " + (x + (": " + y)))
    ensures '\n' !in x && '\n' !in y
  {
    assert x + (": " + y) == (d + (" - " + (x + (": " + y))))[|d| + 3..];
  }

  /** The part of the pattern after the date/time: ` - (.*?): (.*)`. */
  function MatchTail(s: string): (r: Option<(string, string)>)
    ensures r.Some? ==> s == " - " + (r.value.0 + (": " + r.value.1))
    ensures r.Some? ==> !HasColonSpace(r.value.0)
  {
    var rest :- TakeLiteral(s, " - ");
    SplitSender(rest)
  }

  /** The regex against the line without its optional final '\n'. */
  function MatchBody(body: string): (r: Option<Match>)
    ensures r.Some? ==> r.value.Valid() && r.value.Line() == body
  {
    if '\n' in body then None
    else
      var p :- ParseStamp(body);
      var q :- MatchTail(p.1);
      NoNewlineInParts(p.0.Text(), q.0, q.1);
      Some(Match(p.0, q.0, q.1))
  }

  /** `pattern.match(line)`: the capture groups when `line` is a header. */
  function MatchLine(line: string): (r: Option<Match>)
    ensures r.Some? ==> r.value.Valid() && r.value.Line() == StripFinalNewline(line)
  {
    MatchBody(StripFinalNewline(line))
  }

  predicate IsHeader(line: string) {
    MatchLine(line).Some?
  }
}

/** Completeness of the recogniser, and the lemmas that follow from it. */
module HeaderFacts {
  import opened Wrappers
  import opened Text
  import opened Header

  lemma TakeDigitsOf(x: string, y: string, lo: nat, hi: nat)
    requires IsDigits(x) && lo <= |x| <= hi
    requires |y| > 0 ==> !IsDigit(y[0])
    ensures TakeDigits(x + y, lo, hi) == Some((x, y))
  {
    DigitPrefixOf(x, y);
    assert (x + y)[..|x|] == x;
    assert (x + y)[|x|..] == y;
  }

  lemma TakeLiteralOf(lit: string, y: string)
    ensures TakeLiteral(lit + y, lit) == Some(y)
  {
    assert (lit + y)[..|lit|] == lit;
    assert (lit + y)[|lit|..] == y;
  }

  /** `ParseStampOf` in terms of what the reader sees after the minutes:
      the meridiem reader must give back `st.meridiem`, and no digit may
      follow the minutes. */
  lemma {:induction false} ParseStampThrough(st: Stamp, rest: string)
    requires st.Valid()
    requires TakeMeridiem(MeridiemText(st.meridiem) + rest) == (st.meridiem, rest)
    requires |MeridiemText(st.meridiem) + rest| > 0 ==> !IsDigit((MeridiemText(st.meridiem) + rest)[0])
    ensures ParseStamp(st.Text() + rest) == Some((st, rest))
  {
    var r8 := MeridiemText(st.meridiem) + rest;
    var r7 := st.minute + r8;
    var r6 := ":" + r7;
    var r5 := st.hour + r6;
    var r4 := ", " + r5;
    var r3 := st.year + r4;
    var r2 := "/" + r3;
    var r1 := st.date2 + r2;
    var r0 := "/" + r1;
    StampTextAppend(st, rest);
    assert st.Text() + rest == st.date1 + r0;
    TakeDigitsOf(st.date1, r0, 1, 2);
    TakeLiteralOf("/", r1);
    TakeDigitsOf(st.date2, r2, 1, 2);
    TakeLiteralOf("/", r3);
    TakeDigitsOf(st.year, r4, 2, 4);
    TakeLiteralOf(", ", r5);
    TakeDigitsOf(st.hour, r6, 1, 2);
    TakeLiteralOf(":", r7);
    TakeDigitsOf(st.minute, r8, 2, 2);
  }

  /** The lazy sender group stops at the end of any sender free of ": ". */
  lemma {:induction false} SplitSenderOf(sender: string, start: string)
    requires !HasColonSpace(sender)
    ensures SplitSender(sender + (": " + start)) == Some((sender, start))
  {
    var s := sender + (": " + start);
    if |sender| == 0 {
      assert s == ": " + start;
      assert s[2..] == start;
    } else {
      assert s[0] == sender[0];
      assert s[1] == if |sender| == 1 then ':' else sender[1];
      assert s[1..] == sender[1..] + (": " + start);
      assert !HasColonSpace(sender[1..]);
      SplitSenderOf(sender[1..], start);
      assert [s[0]] + sender[1..] == sender;
    }
  }

  lemma MatchTailOf(sender: string, start: string)
    requires !HasColonSpace(sender)
    ensures MatchTail(" - " + (sender + (": " + start))) == Some((sender, start))
  {
    TakeLiteralOf(" - ", sender + (": " + start));
    SplitSenderOf(sender, start);
  }

  lemma NoNewlineInDigits(x: string)
    requires IsDigits(x)
    ensures '\n' !in x
  {
  }

  lemma NoNewlineInStamp(st: Stamp)
    requires st.Valid()
    ensures '\n' !in st.Text()
  {
    NoNewlineInDigits(st.date1);
    NoNewlineInDigits(st.date2);
    NoNewlineInDigits(st.year);
    NoNewlineInDigits(st.hour);
    NoNewlineInDigits(st.minute);
    assert '\n' !in MeridiemText(st.meridiem);
  }

  /** Any valid date/time text is read back as exactly that date/time,
      provided what follows does not extend it: after a 24-hour time, no
      further digit of the minutes and no " AM" or " PM"; after a
      meridiem, anything at all. */
  lemma ParseStampOf(st: Stamp, rest: string)
    requires st.Valid()
    requires st.meridiem == Clock24 && |rest| > 0 ==> !IsDigit(rest[0])
    requires st.meridiem == Clock24 && |rest| >= 3 ==> rest[..3] != " AM" && rest[..3] != " PM"
    ensures ParseStamp(st.Text() + rest) == Some((st, rest))
  {
    var s := MeridiemText(st.meridiem) + rest;
    match st.meridiem {
      case Clock24 =>
        assert s == rest;
      case Am =>
        assert s[..3] == " AM" && s[3..] == rest;
      case Pm =>
        assert s[..3] == " PM" && s[3..] == rest;
    }
    ParseStampThrough(st, rest);
  }

  /** The optional meridiem group is greedy: it is taken exactly when the
      text after the minutes starts with " AM" or " PM". */
  lemma TakeMeridiemGreedy(s: string)
    ensures TakeMeridiem(s).0 != Clock24 <==> |s| >= 3 && (s[..3] == " AM" || s[..3] == " PM")
  {
  }

  /** The meridiem reader gives back the meridiem that precedes " - ". */
  lemma TakeMeridiemOf(m: Meridiem, tail: string)
    ensures TakeMeridiem(MeridiemText(m) + (" - " + tail)) == (m, " - " + tail)
  {
    var s := MeridiemText(m) + (" - " + tail);
    match m
    case Clock24 =>
      assert s == " - " + tail;
      assert s[..3][1] == '-';
    case Am =>
      assert s[..3] == " AM";
      assert s[3..] == " - " + tail;
    case Pm =>
      assert s[..3] == " PM";
      assert s[3..] == " - " + tail;
  }

  /** Every text of the header shape is matched with exactly its own
      capture groups. */
  lemma MatchBodyOf(m: Match)
    requires m.Valid()
    ensures MatchBody(m.Line()) == Some(m)
  {
    var tail := " - " + (m.sender + (": " + m.start));
    NoNewlineInStamp(m.stamp);
    TakeMeridiemOf(m.stamp.meridiem, m.sender + (": " + m.start));
    ParseStampThrough(m.stamp, tail);
    MatchTailOf(m.sender, m.start);
  }

  /** Every line of the header shape is accepted, with exactly its own
      capture groups. */
  lemma MatchLineOf(m: Match)
    requires m.Valid()
    ensures MatchLine(m.Line()) == Some(m)
  {
    var line := m.Line();
    MatchBodyOf(m);
    NoNewlineInStamp(m.stamp);
    assert line[|line| - 1] in line;
    assert StripFinalNewline(line) == line;
  }

  /** The same line followed by a final '\n', which `$` lets the match
      end before, gives the same capture groups. */
  lemma MatchLineOfNewline(m: Match)
    requires m.Valid()
    ensures MatchLine(m.Line() + "\n") == Some(m)
  {
    var line := m.Line();
    MatchBodyOf(m);
    assert (line + "\n")[..|line|] == line;
    assert StripFinalNewline(line + "\n") == line;
  }

  /** The header regex accepts `line` with capture groups `m` exactly when
      `m` has the header shape and spells `line` (up to one final '\n').
      So a header line splits in one way only. */
  lemma MatchLineExactly(line: string, m: Match)
    requires m.Valid()
    ensures MatchLine(line) == Some(m) <==> m.Line() == StripFinalNewline(line)
  {
    if m.Line() == StripFinalNewline(line) {
      MatchBodyOf(m);
    }
  }

  /** The lines the header regex accepts. */
  ghost predicate HasHeaderShape(line: string) {
    exists m: Match :: m.Valid() && m.Line() == StripFinalNewline(line)
  }

  lemma HeaderExactly(line: string)
    ensures IsHeader(line) <==> HasHeaderShape(line)
  {
    if HasHeaderShape(line) {
      var m: Match :| m.Valid() && m.Line() == StripFinalNewline(line);
      MatchLineExactly(line, m);
    }
  }

  /** Two capture-group triples that spell the same line are the same. */
  lemma MatchUnique(m1: Match, m2: Match)
    requires m1.Valid() && m2.Valid()
    requires m1.Line() == m2.Line()
    ensures m1 == m2
  {
    MatchLineOf(m1);
    MatchLineOf(m2);
  }

  /** Only " - " may follow the date/time. */
  lemma MatchTailRejects(rest: string)
    requires |rest| >= 2 && rest[1] != '-'
    ensures MatchTail(rest).None?
  {
    if |rest| >= 3 {
      assert rest[..3][1] == rest[1];
    }
  }

  /** A line whose date/time prefix (without meridiem) is followed by a
      space and then anything but '-', 'A' or 'P' is not a header. */
  lemma NotHeaderAfterStamp(line: string, st: Stamp, rest: string)
    requires st.Valid() && st.meridiem == Clock24
    requires st.Text() + rest == StripFinalNewline(line)
    requires |rest| >= 2 && rest[0] == ' ' && rest[1] !in "-AP"
    ensures !IsHeader(line)
  {
    var body := StripFinalNewline(line);
    assert ParseStamp(body) == Some((st, rest)) by {
      if |rest| >= 3 {
        assert rest[..3][1] == rest[1];
      }
      ParseStampOf(st, rest);
    }
    assert MatchTail(rest).None? by {
      MatchTailRejects(rest);
    }
    assert MatchBody(body).None?;
  }

  lemma StripFinalNewlineAppend(a: string, b: string)
    requires |b| > 0
    ensures StripFinalNewline(a + b) == a + StripFinalNewline(b)
  {
    var line := a + b;
    assert line[|line| - 1] == b[|b| - 1];
    if b[|b| - 1] == '\n' {
      assert line[..|line| - 1] == a + b[..|b| - 1];
    }
  }

  lemma {:induction false} NotHeaderWithMark(st: Stamp, mark: string, tail: string)
    requires st.Valid() && st.meridiem == Clock24
    requires |mark| == 3 && mark[0] == ' ' && mark[1] !in "-AP"
    ensures !IsHeader(st.Text() + (mark + tail))
  {
    var line := st.Text() + (mark + tail);
    var rest := StripFinalNewline(mark + tail);
    StripFinalNewlineAppend(st.Text(), mark + tail);
    assert rest[0] == ' ' && rest[1] == mark[1];
    NotHeaderAfterStamp(line, st, rest);
  }

  /** The meridiem must be written in upper case: a date/time followed by
      " am" or " pm" never starts a message, whatever follows. */
  lemma LowerCaseMeridiemRejected(st: Stamp, tail: string)
    requires st.Valid() && st.meridiem == Clock24
    ensures !IsHeader(st.Text() + (" am" + tail))
    ensures !IsHeader(st.Text() + (" pm" + tail))
  {
    NotHeaderWithMark(st, " am", tail);
    NotHeaderWithMark(st, " pm", tail);
  }
}
