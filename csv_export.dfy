/**
 * The text that `exportAsCSV` (src/App.jsx:149-156) builds: a header line and
 * one line per event, visiting the days in key order and each day's events in
 * list order. Fields are joined with commas and never quoted.
 */
module CsvExport {
  import opened Wrappers
  import opened EventModel
  import opened EventStore

  /** The header's field names; joined with commas they read "Date,Event Name,Start Time,End Time,Description". */
  const HeaderFields: seq<string> := ["Date", "Event Name", "Start Time", "End Time", "Description"]

  const HeaderLine := Join(HeaderFields, ',')

  /** Fields joined with separator `c`. */
  function Join(fields: seq<string>, c: char): string {
    if |fields| <= 1 then (if fields == [] then "" else fields[0])
    else fields[0] + [c] + Join(fields[1..], c)
  }

  /** A character that is neither the separator nor in any field is not in the joined text. */
  lemma {:induction false} JoinAvoids(fields: seq<string>, c: char, d: char)
    requires d != c && forall i :: 0 <= i < |fields| ==> d !in fields[i]
    ensures d !in Join(fields, c)
    decreases |fields|
  {
    if |fields| > 1 {
      JoinAvoids(fields[1..], c, d);
    }
  }

  /** The joined header is the literal first line that `exportAsCSV` writes. */
  lemma HeaderText()
    ensures HeaderLine == "Date,Event Name,Start Time,End Time,Description"
  {
    HeaderHead();
    assert HeaderFields[2..] == ["Start Time", "End Time", "Description"];
    HeaderTailText();
    HeaderHalves();
  }

  /** The first two header names, each followed by its comma, then the rest joined. */
  lemma HeaderHead()
    ensures HeaderLine == "Date,Event Name," + Join(HeaderFields[2..], ',')
  {
    assert HeaderFields[1..][1..] == HeaderFields[2..];
  }

  /** The last three header names joined. */
  lemma HeaderTailText()
    ensures Join(["Start Time", "End Time", "Description"], ',') == "Start Time,End Time,Description"
  {
    var fields := ["Start Time", "End Time", "Description"];
    assert fields[1..][1..] == ["Description"];
    assert Join(fields[1..], ',') == "End Time,Description";
  }

  /** The header literal is its two halves put together. */
  lemma HeaderHalves()
    ensures "Date,Event Name," + "Start Time,End Time,Description" == "Date,Event Name,Start Time,End Time,Description"
  {
  }

  /** One step of the export: a day key and one event of that day. */
  datatype Visit = Visit(date: DayKey, event: Event)

  /** `eventList.forEach(...)` for one day: the day's events in list order, each with the day key. */
  function DayVisits(date: DayKey, list: seq<Event>): seq<Visit> {
    seq(|list|, i requires 0 <= i < |list| => Visit(date, list[i]))
  }

  /** `for (const [date, eventList] of Object.entries(events)) eventList.forEach(...)` over the given keys. */
  function Visits(keys: seq<DayKey>, days: map<DayKey, seq<Event>>): seq<Visit> {
    if keys == [] then []
    else Visits(keys[..|keys| - 1], days) + DayVisits(keys[|keys| - 1], Get(days, keys[|keys| - 1]))
  }

  /** The visits of the first i + 1 keys are those of the first i keys, then the visits of key i. */
  lemma VisitsStep(keys: seq<DayKey>, days: map<DayKey, seq<Event>>, i: nat)
    requires i < |keys|
    ensures Visits(keys[..i + 1], days) == Visits(keys[..i], days) + DayVisits(keys[i], Get(days, keys[i]))
  {
    assert keys[..i + 1][..i] == keys[..i];
  }

  /** The export visits exactly the store's events, in the same order. */
  lemma {:induction false} VisitsAreEvents(keys: seq<DayKey>, days: map<DayKey, seq<Event>>)
    ensures |Visits(keys, days)| == |Gather(keys, days)|
    ensures forall i :: 0 <= i < |Visits(keys, days)| ==> Visits(keys, days)[i].event == Gather(keys, days)[i]
    decreases |keys|
  {
    if keys != [] {
      VisitsAreEvents(keys[..|keys| - 1], days);
    }
  }

  /** `event.description || ""` */
  function DescriptionText(description: Option<string>): string {
    match description
    case None => ""
    case Some(text) => text
  }

  /** The five fields of one row. */
  function Fields(v: Visit): seq<string> {
    [v.date, v.event.data.name, v.event.data.startTime, v.event.data.endTime, DescriptionText(v.event.data.description)]
  }

  /** `${date},${event.name},${event.startTime},${event.endTime},${event.description || ""}` */
  function RowLine(v: Visit): string {
    Join(Fields(v), ',')
  }

  /** The row is the template of src/App.jsx:154, piece by piece. */
  lemma RowLineTemplate(v: Visit)
    ensures RowLine(v) == v.date + "," + v.event.data.name + "," + v.event.data.startTime + ","
      + v.event.data.endTime + "," + DescriptionText(v.event.data.description)
  {
    var f := Fields(v);
    assert f[3..][1..] == [f[4]];
    assert f[2..][1..] == f[3..];
    assert f[1..][1..] == f[2..];
    var r3 := f[3] + [','] + f[4];
    var r2 := f[2] + [','] + r3;
    var r1 := f[1] + [','] + r2;
    assert Join(f[3..], ',') == r3;
    assert Join(f[2..], ',') == r2;
    assert Join(f[1..], ',') == r1;
    assert RowLine(v) == f[0] + [','] + r1;
    assert (f[0] + [','] + f[1] + [',']) + r2 == f[0] + [','] + r1;
    assert (f[0] + [','] + f[1] + [','] + f[2] + [',']) + r3 == f[0] + [','] + f[1] + [','] + r2;
    assert (f[0] + [','] + f[1] + [','] + f[2] + [','] + f[3] + [',']) + f[4]
      == f[0] + [','] + f[1] + [','] + f[2] + [','] + r3;
    assert "," == [','];
  }

  /** The row of each visit, in visiting order. */
  function RowLines(vs: seq<Visit>): seq<string> {
    seq(|vs|, i requires 0 <= i < |vs| => RowLine(vs[i]))
  }

  /** The lines of the export, header first. */
  function CsvLines(s: Store): seq<string> {
    [HeaderLine] + RowLines(Visits(s.order, s.days))
  }

  /** Each line followed by "\n". */
  function Terminated(lines: seq<string>): string {
    if lines == [] then "" else lines[0] + "\n" + Terminated(lines[1..])
  }

  lemma {:induction false} TerminatedSnoc(lines: seq<string>, line: string)
    ensures Terminated(lines + [line]) == Terminated(lines) + line + "\n"
    decreases |lines|
  {
    if lines == [] {
      assert [line][1..] == [];
    } else {
      assert (lines + [line])[1..] == lines[1..] + [line];
      TerminatedSnoc(lines[1..], line);
    }
  }

  /** One more visit adds its row, terminated, to the end of the text. */
  lemma ExportedRowsSnoc(vs: seq<Visit>, v: Visit)
    ensures Terminated([HeaderLine] + RowLines(vs + [v])) == Terminated([HeaderLine] + RowLines(vs)) + RowLine(v) + "\n"
  {
    assert RowLines(vs + [v]) == RowLines(vs) + [RowLine(v)];
    assert [HeaderLine] + RowLines(vs + [v]) == ([HeaderLine] + RowLines(vs)) + [RowLine(v)];
    TerminatedSnoc([HeaderLine] + RowLines(vs), RowLine(v));
  }

  /** The exported text. */
  function CsvText(s: Store): string {
    Terminated(CsvLines(s))
  }

  /** Visiting one more event of the day appends its terminated row. */
  lemma DayRowStep(done: seq<Visit>, date: DayKey, eventList: seq<Event>, j: nat)
    requires j < |eventList|
    ensures Terminated([HeaderLine] + RowLines(done + DayVisits(date, eventList[..j + 1])))
      == Terminated([HeaderLine] + RowLines(done + DayVisits(date, eventList[..j]))) + RowLine(Visit(date, eventList[j])) + "\n"
  {
    var v := Visit(date, eventList[j]);
    var before := done + DayVisits(date, eventList[..j]);
    assert eventList[..j + 1] == eventList[..j] + [eventList[j]];
    assert DayVisits(date, eventList[..j + 1]) == DayVisits(date, eventList[..j]) + [v];
    assert done + DayVisits(date, eventList[..j + 1]) == before + [v];
    ExportedRowsSnoc(before, v);
  }

  /**
   * `eventList.forEach(event => { csv += row })`: appends one terminated row per
   * event of the day to a text that already holds the rows of `done`.
   */
  method AppendDayRows(csv: string, date: DayKey, eventList: seq<Event>, ghost done: seq<Visit>) returns (out: string)
    requires csv == Terminated([HeaderLine] + RowLines(done))
    ensures out == Terminated([HeaderLine] + RowLines(done + DayVisits(date, eventList)))
  {
    out := csv;
    assert done + DayVisits(date, eventList[..0]) == done;
    var j := 0;
    while j < |eventList|
      invariant 0 <= j <= |eventList|
      invariant out == Terminated([HeaderLine] + RowLines(done + DayVisits(date, eventList[..j])))
    {
      var event := eventList[j];
      var row := date + "," + event.data.name + "," + event.data.startTime + ","
        + event.data.endTime + "," + DescriptionText(event.data.description);
      RowLineTemplate(Visit(date, event));
      DayRowStep(done, date, eventList, j);
      out := out + row + "\n";
      j := j + 1;
    }
    assert eventList[..j] == eventList;
  }

  // ---- Reading the text back -----------------------------------------------

  /** The position of the first `c` in `t`, or |t| when there is none. */
  function Find(t: string, c: char): (i: nat)
    ensures i <= |t| && c !in t[..i]
    ensures i < |t| ==> t[i] == c
  {
    if t == [] then 0
    else if t[0] == c then 0
    else
      var j := Find(t[1..], c);
      assert t[..j + 1] == [t[0]] + t[1..][..j];
      j + 1
  }

  lemma {:induction false} FindAt(a: string, c: char, b: string)
    requires c !in a
    ensures Find(a + [c] + b, c) == |a|
    decreases |a|
  {
    if a != [] {
      assert (a + [c] + b)[1..] == a[1..] + [c] + b;
      FindAt(a[1..], c, b);
    }
  }

  /** The pieces of `t` between the separators `c`. */
  function Split(t: string, c: char): seq<string>
    decreases |t|
  {
    var i := Find(t, c);
    if i == |t| then [t] else [t[..i]] + Split(t[i + 1..], c)
  }

  /** The lines of a text in which every line ends with "\n". */
  function SplitLines(t: string): seq<string>
    decreases |t|
  {
    if t == [] then []
    else
      var i := Find(t, '\n');
      if i == |t| then [t] else [t[..i]] + SplitLines(t[i + 1..])
  }

  lemma SplitAt(a: string, c: char, b: string)
    requires c !in a
    ensures Split(a + [c] + b, c) == [a] + Split(b, c)
  {
    FindAt(a, c, b);
    var t := a + [c] + b;
    assert t[..|a|] == a && t[|a| + 1..] == b;
  }

  /** A line without a line break, then a line break, comes off the front of a text as its first line. */
  lemma SplitLinesAt(line: string, rest: string)
    requires '\n' !in line
    ensures SplitLines(line + ['\n'] + rest) == [line] + SplitLines(rest)
  {
    FindAt(line, '\n', rest);
    var t := line + ['\n'] + rest;
    assert t[..|line|] == line && t[|line| + 1..] == rest;
  }

  lemma {:induction false} SplitTerminated(lines: seq<string>)
    requires forall i :: 0 <= i < |lines| ==> '\n' !in lines[i]
    ensures SplitLines(Terminated(lines)) == lines
    decreases |lines|
  {
    if lines != [] {
      SplitTerminated(lines[1..]);
      SplitLinesAt(lines[0], Terminated(lines[1..]));
      assert lines == [lines[0]] + lines[1..];
    }
  }

  /** Neither a comma nor a line break. */
  predicate Plain(t: string) {
    ',' !in t && '\n' !in t
  }

  /** None of the row's fields holds a comma or a line break. */
  predicate PlainVisit(v: Visit) {
    forall i :: 0 <= i < |Fields(v)| ==> Plain(Fields(v)[i])
  }

  /** Joined fields that hold no separator split back into those fields. */
  lemma {:induction false} SplitJoin(fields: seq<string>, c: char)
    requires |fields| > 0
    requires forall i :: 0 <= i < |fields| ==> c !in fields[i]
    ensures Split(Join(fields, c), c) == fields
    decreases |fields|
  {
    if |fields| == 1 {
      assert Find(fields[0], c) == |fields[0]|;
    } else {
      SplitJoin(fields[1..], c);
      SplitAt(fields[0], c, Join(fields[1..], c));
      assert fields == [fields[0]] + fields[1..];
    }
  }

  /** A row of plain fields splits at its commas into exactly its five fields, and holds no line break. */
  lemma RowFields(v: Visit)
    requires PlainVisit(v)
    ensures Split(RowLine(v), ',') == Fields(v)
    ensures '\n' !in RowLine(v)
  {
    SplitJoin(Fields(v), ',');
    JoinAvoids(Fields(v), ',', '\n');
  }

  /** The rows of a text, each split into its fields. */
  function ParseCsv(t: string): seq<seq<string>> {
    var lines := SplitLines(t);
    seq(|lines|, i requires 0 <= i < |lines| => Split(lines[i], ','))
  }

  /** The fields of each visit's row. */
  function FieldRows(vs: seq<Visit>): seq<seq<string>> {
    seq(|vs|, i requires 0 <= i < |vs| => Fields(vs[i]))
  }

  /** When every row is plain, no line of the export holds a line break and every line splits into its fields. */
  lemma PlainLines(vs: seq<Visit>)
    requires forall i :: 0 <= i < |vs| ==> PlainVisit(vs[i])
    ensures var lines := [HeaderLine] + RowLines(vs);
      var rows := [HeaderFields] + FieldRows(vs);
      forall i :: 0 <= i < |lines| ==> '\n' !in lines[i] && Split(lines[i], ',') == rows[i]
  {
    var lines := [HeaderLine] + RowLines(vs);
    var rows := [HeaderFields] + FieldRows(vs);
    forall i | 0 <= i < |lines|
      ensures '\n' !in lines[i] && Split(lines[i], ',') == rows[i]
    {
      if i == 0 {
        HeaderSplits();
      } else {
        assert lines[i] == RowLine(vs[i - 1]) && rows[i] == Fields(vs[i - 1]);
        RowFields(vs[i - 1]);
      }
    }
  }

  /** None of the row's fields holds a line break (a comma may occur). */
  predicate NoLineBreak(v: Visit) {
    forall i :: 0 <= i < |Fields(v)| ==> '\n' !in Fields(v)[i]
  }

  /**
   * When no day key and no event field holds a line break, the export has
   * exactly one line per event after the header: its lines are the header and
   * the rows, in visiting order. Commas in fields do not matter here.
   */
  lemma CsvLineCount(s: Store)
    requires forall i :: 0 <= i < |Visits(s.order, s.days)| ==> NoLineBreak(Visits(s.order, s.days)[i])
    ensures SplitLines(CsvText(s)) == CsvLines(s)
    ensures |SplitLines(CsvText(s))| == 1 + TotalEvents(s)
  {
    var vs := Visits(s.order, s.days);
    var lines := CsvLines(s);
    forall i | 0 <= i < |lines| ensures '\n' !in lines[i] {
      if i == 0 {
        HeaderSplits();
      } else {
        assert lines[i] == RowLine(vs[i - 1]);
        JoinAvoids(Fields(vs[i - 1]), ',', '\n');
      }
    }
    SplitTerminated(lines);
    VisitsAreEvents(s.order, s.days);
  }

  /**
   * When no day key and no event field holds a comma or a line break, reading
   * the export back gives the header and then each event's five fields, in
   * visiting order.
   */
  lemma CsvRoundTrip(s: Store)
    requires forall i :: 0 <= i < |Visits(s.order, s.days)| ==> PlainVisit(Visits(s.order, s.days)[i])
    ensures ParseCsv(CsvText(s)) == [HeaderFields] + FieldRows(Visits(s.order, s.days))
  {
    var vs := Visits(s.order, s.days);
    PlainLines(vs);
    ParseTerminated(CsvLines(s), [HeaderFields] + FieldRows(vs));
  }

  /** Lines without line breaks, each splitting into its fields, parse back into those fields. */
  lemma ParseTerminated(lines: seq<string>, rows: seq<seq<string>>)
    requires |lines| == |rows|
    requires forall i :: 0 <= i < |lines| ==> '\n' !in lines[i] && Split(lines[i], ',') == rows[i]
    ensures ParseCsv(Terminated(lines)) == rows
  {
    SplitTerminated(lines);
  }

  /** The header holds no line break and splits into its five names. */
  lemma HeaderSplits()
    ensures '\n' !in HeaderLine
    ensures Split(HeaderLine, ',') == HeaderFields
  {
    assert forall i :: 0 <= i < |HeaderFields| ==> Plain(HeaderFields[i]);
    SplitJoin(HeaderFields, ',');
    JoinAvoids(HeaderFields, ',', '\n');
  }

  /** A line break inside a description, which the form's text area allows, splits that row across two lines. */
  lemma LineBreakInDescriptionSplitsRow(v: Visit, first: string, second: string)
    requires Plain(v.date) && Plain(v.event.data.name) && Plain(v.event.data.startTime) && Plain(v.event.data.endTime)
    requires '\n' !in first && '\n' !in second
    requires v.event.data.description == Some(first + "\n" + second)
    ensures SplitLines(RowLine(v) + "\n") ==
      [Join([v.date, v.event.data.name, v.event.data.startTime, v.event.data.endTime, first], ','), second]
  {
    var head := [v.date, v.event.data.name, v.event.data.startTime, v.event.data.endTime, first];
    assert first + "\n" + second == first + (['\n'] + second);
    assert Fields(v) == head[..4] + [first + (['\n'] + second)];
    JoinLast(head[..4], first, ['\n'] + second, ',');
    assert head[..4] + [first] == head;
    assert forall i :: 0 <= i < |head| ==> '\n' !in head[i];
    JoinAvoids(head, ',', '\n');
    var j := Join(head, ',');
    assert RowLine(v) == j + (['\n'] + second);
    calc {
      Terminated([j, second]);
      j + "\n" + Terminated([second]);
      { assert [j, second][1..] == [second]; }
      j + "\n" + (second + "\n" + Terminated([]));
      { assert Terminated([]) == ""; }
      RowLine(v) + "\n";
    }
    SplitTerminated([j, second]);
  }

  /** Text appended to the last field of a join is appended to the joined text. */
  lemma {:induction false} JoinLast(fields: seq<string>, last: string, extra: string, c: char)
    ensures Join(fields + [last + extra], c) == Join(fields + [last], c) + extra
    decreases |fields|
  {
    if fields != [] {
      assert (fields + [last + extra])[1..] == fields[1..] + [last + extra];
      assert (fields + [last])[1..] == fields[1..] + [last];
      JoinLast(fields[1..], last, extra, c);
    }
  }
}
