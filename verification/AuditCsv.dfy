/**
 * The CSV form of an audit export (audit/export.ts), and a reader that follows section 2 of RFC 4180 (a lone LF
 * also ends a line) and recovers every field from it.
 */
module AuditCsv {
  import opened AuditLog
  import opened Basics
  import Text

  datatype ExportedEvent = ExportedEvent(
    id: string,
    eventType: string,
    actor: string,
    occurredAt: string,
    sequence: nat,
    hash: string,
    prevHash: Option<string>)

  function Doubled(c: char): string
  {
    if c == '\"' then "\"\"" else [c]
  }

  function DoubleQuotes(s: string): string
  {
    if s == "" then "" else Doubled(s[0]) + DoubleQuotes(s[1..])
  }

  predicate Special(c: char)
  {
    c == ',' || c == '\"' || c == '\n' || c == '\r'
  }

  function EscapeCsvField(text: string): string
  {
    if exists i :: 0 <= i < |text| && Special(text[i]) then "\"" + (DoubleQuotes(text) + "\"") else text
  }

  /** The seven columns; an absent previous hash is written as the empty field. */
  function Columns(e: ExportedEvent): (r: seq<string>)
    ensures |r| == 7
  {
    [e.id, e.eventType, e.actor, e.occurredAt, Text.Decimal(e.sequence), e.hash,
     if e.prevHash.Some? then e.prevHash.value else ""]
  }

  function ToCsvRow(fields: seq<string>): string
  {
    Text.Join(',', Map(EscapeCsvField, fields))
  }

  const HEADER_FIELDS := ["id", "eventType", "actor", "occurredAt", "sequence", "hash", "prevHash"]

  /** The header line, written without escaping. */
  const HEADER := Text.Join(',', HEADER_FIELDS)

  function SerializeCsv(events: seq<ExportedEvent>): string
  {
    Text.Join('\n', [HEADER] + Map((e: ExportedEvent) => ToCsvRow(Columns(e)), events))
  }

  // ----- The reader -----

  predicate EndsPlain(c: char)
  {
    c == ',' || c == '\n' || c == '\r'
  }

  /** An unquoted field: it runs to the next comma or line break and may hold no quote. */
  function ReadPlain(s: string): (r: Read<string>)
    ensures r.Got? ==> |r.rest| <= |s|
  {
    if s == "" || EndsPlain(s[0]) then Got("", s)
    else if s[0] == '\"' then Malformed
    else
      var r := ReadPlain(s[1..]);
      if r.Malformed? then r else Got([s[0]] + r.value, r.rest)
  }

  /** A quoted field, after its opening quote: a doubled quote is a quote, a single one closes it. */
  function ReadQuoted(s: string): (r: Read<string>)
    ensures r.Got? ==> |r.rest| < |s|
  {
    if s == "" then Malformed
    else if s[0] == '\"' then
      if |s| > 1 && s[1] == '\"' then
        var r := ReadQuoted(s[2..]);
        if r.Malformed? then r else Got("\"" + r.value, r.rest)
      else Got("", s[1..])
    else
      var r := ReadQuoted(s[1..]);
      if r.Malformed? then r else Got([s[0]] + r.value, r.rest)
  }

  function ReadField(s: string): (r: Read<string>)
    ensures r.Got? ==> |r.rest| <= |s|
  {
    if s != "" && s[0] == '\"' then ReadQuoted(s[1..]) else ReadPlain(s)
  }

  /** One record and its line break, if there is one. */
  function ReadRecord(s: string): (r: Read<seq<string>>)
    ensures r.Got? ==> |r.rest| < |s| || s == ""
    decreases |s|
  {
    var f := ReadField(s);
    if f.Malformed? then Malformed
    else if f.rest == "" then Got([f.value], "")
    else if f.rest[0] == '\n' then Got([f.value], f.rest[1..])
    else if |f.rest| > 1 && f.rest[0] == '\r' && f.rest[1] == '\n' then Got([f.value], f.rest[2..])
    else if f.rest[0] != ',' then Malformed
    else
      var r := ReadRecord(f.rest[1..]);
      if r.Malformed? then r else Got([f.value] + r.value, r.rest)
  }

  function ReadCsv(s: string): Option<seq<seq<string>>>
    decreases |s|
  {
    if s == "" then Some([])
    else
      var r := ReadRecord(s);
      if r.Malformed? then None
      else
        var more := ReadCsv(r.rest);
        if more.None? then None else Some([r.value] + more.value)
  }

  // ----- Round trip -----

  /** What follows a field in the written text. */
  ghost predicate AfterField(rest: string)
  {
    rest == "" || rest[0] == ',' || rest[0] == '\n'
  }

  lemma {:induction false} PlainIsRead(f: string, rest: string)
    requires AfterField(rest) && forall i :: 0 <= i < |f| ==> !Special(f[i])
    ensures ReadPlain(f + rest) == Got(f, rest)
  {
    if f == "" {
      assert f + rest == rest;
    } else {
      assert (f + rest)[1..] == f[1..] + rest;
      PlainIsRead(f[1..], rest);
      assert f == [f[0]] + f[1..];
    }
  }

  lemma {:induction false} QuotedIsRead(f: string, rest: string)
    requires AfterField(rest)
    ensures ReadQuoted(DoubleQuotes(f) + ("\"" + rest)) == Got(f, rest)
  {
    if f == "" {
      var s := DoubleQuotes(f) + ("\"" + rest);
      assert s == "\"" + rest;
      assert s[1..] == rest;
    } else {
      QuotedIsRead(f[1..], rest);
      QuotedStep(f[0], DoubleQuotes(f[1..]) + ("\"" + rest));
      hide ReadQuoted;
      assert DoubleQuotes(f) + ("\"" + rest) == Doubled(f[0]) + (DoubleQuotes(f[1..]) + ("\"" + rest));
      assert f == [f[0]] + f[1..];
    }
  }

  /** One character of a quoted field is read back, whatever follows. */
  lemma QuotedStep(c: char, tail: string)
    ensures ReadQuoted(Doubled(c) + tail)
         == var r := ReadQuoted(tail); if r.Malformed? then r else Got([c] + r.value, r.rest)
  {
    var s := Doubled(c) + tail;
    assert s[|Doubled(c)|..] == tail;
  }

  lemma FieldIsRead(f: string, rest: string)
    requires AfterField(rest)
    ensures ReadField(EscapeCsvField(f) + rest) == Got(f, rest)
  {
    var s := EscapeCsvField(f) + rest;
    if exists i :: 0 <= i < |f| && Special(f[i]) {
      assert s == "\"" + (DoubleQuotes(f) + ("\"" + rest));
      assert s[1..] == DoubleQuotes(f) + ("\"" + rest);
      QuotedIsRead(f, rest);
    } else {
      assert s != "" ==> s[0] != '\"';
      PlainIsRead(f, rest);
    }
  }

  /** Only a field that needs quotes gets them. */
  lemma QuotedExactly(f: string)
    ensures EscapeCsvField(f) == f <==> ',' !in f && '\"' !in f && '\n' !in f && '\r' !in f
  {
    if exists i :: 0 <= i < |f| && Special(f[i]) { QuotesLengthen(f); }
  }

  lemma {:induction false} QuotesLengthen(f: string)
    ensures |DoubleQuotes(f)| >= |f|
  {
    if f != "" { QuotesLengthen(f[1..]); }
  }

  /** A written row is read back field by field, up to the end of the text or past its line break. */
  lemma {:induction false} RowIsRead(fields: seq<string>, rest: string)
    requires fields != []
    ensures ReadRecord(ToCsvRow(fields)) == Got(fields, "")
    ensures ReadRecord(ToCsvRow(fields) + ("\n" + rest)) == Got(fields, rest)
  {
    RowWithRest(fields, "");
    RowWithRest(fields, "\n" + rest);
    assert ToCsvRow(fields) + "" == ToCsvRow(fields);
  }

  lemma {:induction false} RowWithRest(fields: seq<string>, rest: string)
    requires fields != [] && (rest == "" || rest[0] == '\n')
    ensures ReadRecord(ToCsvRow(fields) + rest) == Got(fields, if rest == "" then "" else rest[1..])
  {
    var f, more := fields[0], fields[1..];
    assert fields == [f] + more;
    if more == [] {
      assert fields == [f] && ToCsvRow(fields) == EscapeCsvField(f);
      FieldIsRead(f, rest);
    } else {
      var tail := "," + (ToCsvRow(more) + rest);
      Text.JoinUnfold(',', EscapeCsvField(f), Map(EscapeCsvField, more));
      assert Map(EscapeCsvField, fields) == [EscapeCsvField(f)] + Map(EscapeCsvField, more);
      assert ToCsvRow(fields) + rest == EscapeCsvField(f) + tail;
      FieldIsRead(f, tail);
      RowWithRest(more, rest);
      assert tail[1..] == ToCsvRow(more) + rest;
    }
  }

  lemma {:induction false} RowsAreRead(rows: seq<seq<string>>)
    requires rows != [] && forall i :: 0 <= i < |rows| ==> |rows[i]| >= 2
    ensures ReadCsv(Text.Join('\n', Map(ToCsvRow, rows))) == Some(rows)
  {
    var row, more := rows[0], rows[1..];
    RowNotEmpty(row);
    assert rows == [row] + more;
    if more == [] {
      RowIsRead(row, "");
      assert Text.Join('\n', Map(ToCsvRow, rows)) == ToCsvRow(row);
    } else {
      var rest := Text.Join('\n', Map(ToCsvRow, more));
      Text.JoinUnfold('\n', ToCsvRow(row), Map(ToCsvRow, more));
      assert Map(ToCsvRow, rows) == [ToCsvRow(row)] + Map(ToCsvRow, more);
      RowIsRead(row, rest);
      RowsAreRead(more);
    }
  }

  lemma RowNotEmpty(fields: seq<string>)
    requires |fields| >= 2
    ensures ToCsvRow(fields) != ""
  {
    var m := Map(EscapeCsvField, fields);
    assert m == [m[0]] + m[1..];
    Text.JoinUnfold(',', m[0], m[1..]);
  }

  lemma PlainHeaderNames()
    ensures forall i :: 0 <= i < 7 ==> forall k :: 0 <= k < |HEADER_FIELDS[i]| ==> !Special(HEADER_FIELDS[i][k])
  {
  }

  lemma HeaderIsRow()
    ensures HEADER == ToCsvRow(HEADER_FIELDS)
  {
    hide Text.Join, Special;
    var h := HEADER_FIELDS;
    PlainHeaderNames();
    forall i | 0 <= i < 7 ensures Map(EscapeCsvField, h)[i] == h[i] {
      var name := h[i];
      assert forall k :: 0 <= k < |name| ==> !Special(name[k]);
    }
    assert Map(EscapeCsvField, h) == h;
  }

  /** Reading the export gives back the header and, for every event in order, all seven fields. */
  lemma CsvRoundTrip(events: seq<ExportedEvent>)
    ensures ReadCsv(SerializeCsv(events)) == Some([HEADER_FIELDS] + Map(Columns, events))
  {
    var rows := [HEADER_FIELDS] + Map(Columns, events);
    HeaderIsRow();
    var written := Map((e: ExportedEvent) => ToCsvRow(Columns(e)), events);
    assert Map(ToCsvRow, rows) == [HEADER] + written;
    RowsAreRead(rows);
  }

  /** So equal exports have equal events, an absent previous hash and an empty one being the same. */
  lemma ColumnsDetermineEvent(a: ExportedEvent, b: ExportedEvent)
    requires Columns(a) == Columns(b)
    ensures b.(prevHash := a.prevHash) == a
    ensures a.prevHash == b.prevHash || (a.prevHash in {None, Some("")} && b.prevHash in {None, Some("")})
  {
    var c, d := Columns(a), Columns(b);
    assert c[0] == d[0] && c[1] == d[1] && c[2] == d[2] && c[3] == d[3] && c[4] == d[4] && c[5] == d[5] && c[6] == d[6];
    Text.DecimalInjective(a.sequence, b.sequence);
  }

  // ----- The table by its header -----

  /** Under the heading stands this value. */
  ghost predicate Under(header: seq<string>, row: seq<string>, heading: string, value: string)
  {
    && |row| == |header| && heading in header
    && forall c :: 0 <= c < |header| && header[c] == heading ==> row[c] == value
  }

  ghost predicate Tabulates(table: seq<seq<string>>, events: seq<ExportedEvent>)
  {
    && |table| == |events| + 1
    && table[0] == ["id", "eventType", "actor", "occurredAt", "sequence", "hash", "prevHash"]
    && forall k :: 0 <= k < |events| ==>
         var e := events[k];
         && Under(table[0], table[k + 1], "id", e.id)
         && Under(table[0], table[k + 1], "eventType", e.eventType)
         && Under(table[0], table[k + 1], "actor", e.actor)
         && Under(table[0], table[k + 1], "occurredAt", e.occurredAt)
         && Under(table[0], table[k + 1], "sequence", Text.Decimal(e.sequence))
         && Under(table[0], table[k + 1], "hash", e.hash)
         && Under(table[0], table[k + 1], "prevHash", if e.prevHash.Some? then e.prevHash.value else "")
  }

  lemma HeadingsDiffer()
    ensures Distinct(HEADER_FIELDS)
  {
    assert HEADER_FIELDS[0][0] == 'i' && HEADER_FIELDS[1][0] == 'e' && HEADER_FIELDS[2][0] == 'a'
           && HEADER_FIELDS[3][0] == 'o' && HEADER_FIELDS[4][0] == 's' && HEADER_FIELDS[5][0] == 'h'
           && HEADER_FIELDS[6][0] == 'p';
  }

  lemma UnderColumn(row: seq<string>, c: nat)
    requires c < 7 == |row|
    ensures Under(HEADER_FIELDS, row, HEADER_FIELDS[c], row[c])
  {
    HeadingsDiffer();
  }

  lemma RowUnderHeader(e: ExportedEvent)
    ensures Tabulates([HEADER_FIELDS, Columns(e)], [e])
  {
    hide Under, Text.Decimal;
    var row := Columns(e);
    UnderColumn(row, 0);
    UnderColumn(row, 1);
    UnderColumn(row, 2);
    UnderColumn(row, 3);
    UnderColumn(row, 4);
    UnderColumn(row, 5);
    UnderColumn(row, 6);
  }

  /** In the table read back, every event has its line, and under each heading stands the field of that name. */
  lemma ExportIsTable(events: seq<ExportedEvent>)
    ensures ReadCsv(SerializeCsv(events)).Some? && Tabulates(ReadCsv(SerializeCsv(events)).value, events)
  {
    hide Columns, SerializeCsv, ReadCsv, Under, Text.Decimal;
    CsvRoundTrip(events);
    var table := [HEADER_FIELDS] + Map(Columns, events);
    forall k | 0 <= k < |events| ensures Tabulates([table[0], table[k + 1]], [events[k]]) {
      assert table[k + 1] == Columns(events[k]);
      RowUnderHeader(events[k]);
    }
    TableOfRows(table, events);
  }

  lemma TableOfRows(table: seq<seq<string>>, events: seq<ExportedEvent>)
    requires |table| == |events| + 1
    requires table[0] == HEADER_FIELDS
    requires forall k {:trigger events[k]} :: 0 <= k < |events| ==> Tabulates([table[0], table[k + 1]], [events[k]])
    ensures Tabulates(table, events)
  {
    hide Under, Text.Decimal;
    forall k | 0 <= k < |events|
      ensures Under(table[0], table[k + 1], "id", events[k].id)
      ensures Under(table[0], table[k + 1], "eventType", events[k].eventType)
      ensures Under(table[0], table[k + 1], "actor", events[k].actor)
      ensures Under(table[0], table[k + 1], "occurredAt", events[k].occurredAt)
      ensures Under(table[0], table[k + 1], "sequence", Text.Decimal(events[k].sequence))
      ensures Under(table[0], table[k + 1], "hash", events[k].hash)
      ensures Under(table[0], table[k + 1], "prevHash",
                    if events[k].prevHash.Some? then events[k].prevHash.value else "")
    {
      assert Tabulates([table[0], table[k + 1]], [events[k]]);
      assert [events[k]][0] == events[k] && [table[0], table[k + 1]][1] == table[k + 1];
    }
  }

  // ----- The export of one request -----

  function ToExportedEvent(e: AuditEvent): ExportedEvent
  {
    ExportedEvent(e.id, e.body.action, e.body.actor, Stamp(e.createdAt), e.body.sequence, e.body.hash, e.body.prevHash)
  }

  /** `exportAuditEvents` in CSV: one line for each event of the request's chain, and the last event's hash. */
  method ExportAuditEvents(repo: AuditRepository, requestId: string)
    returns (serialized: string, rootHash: Option<string>)
    ensures ReadCsv(serialized).Some?
    ensures var c, table := Chain(repo.events, requestId), ReadCsv(serialized).value;
            && |table| == |c| + 1
            && (rootHash == if c == [] then None else Some(c[|c| - 1].body.hash))
            && forall k :: 0 <= k < |c| ==>
                 && Under(table[0], table[k + 1], "id", c[k].id)
                 && Under(table[0], table[k + 1], "eventType", c[k].body.action)
                 && Under(table[0], table[k + 1], "actor", c[k].body.actor)
                 && Under(table[0], table[k + 1], "occurredAt", Stamp(c[k].createdAt))
                 && Under(table[0], table[k + 1], "sequence", Text.Decimal(c[k].body.sequence))
                 && Under(table[0], table[k + 1], "hash", c[k].body.hash)
                 && Under(table[0], table[k + 1], "prevHash",
                          if c[k].body.prevHash.Some? then c[k].body.prevHash.value else "")
  {
    hide Under, Text.Decimal, Stamp, SerializeCsv, ReadCsv, Chain;
    var records := repo.ListByRequestId(requestId);
    var events := Map(ToExportedEvent, records);
    serialized := SerializeCsv(events);
    ExportIsTable(events);
    rootHash := if events == [] then None else Some(events[|events| - 1].hash);
  }
}
