/**
 * The record normaliser (parse_document): turns the export's records, each a
 * map from attribute name to text, into typed rows. The two dates are sliced
 * as fixed-width digit groups YYYY MM DD HH MM before any error handling, so
 * a missing or malformed date stops the whole parse; a record whose count or
 * type is missing, or whose value is not a number, is dropped on its own.
 */
module Normalizer {
  import opened Wrappers
  import opened Literals
  import opened Calendar
  import opened Records

  /** One export record as the XML reader hands it over: attribute name to attribute text. */
  type RawRecord = map<string, string>

  const StartDateKey := "@startDate"
  const EndDateKey := "@endDate"
  const RecordCountKey := "@recordCount"
  const TypeKey := "@type"
  const ValueKey := "@value"

  /** Why the whole parse stopped: the index of the record and the attribute at fault. */
  datatype ParseError = MissingKey(index: nat, key: string) | InvalidDate(index: nat, key: string)

  /** What happens to one record: it becomes a row, it is silently dropped, or it stops the parse. */
  datatype Outcome = Keep(row: Row) | Drop | Abort(error: ParseError)

  /** Python's s[lo:hi] for lo <= hi: bounds past the end are clipped, never an error. */
  function Slice(s: string, lo: nat, hi: nat): string
    requires lo <= hi
  {
    if hi <= |s| then s[lo..hi] else if lo <= |s| then s[lo..] else ""
  }

  /** datetime(y, m, d, h, mi, 0), or None where the constructor raises ValueError. */
  function MakeDateTime(y: int, m: int, d: int, h: int, mi: int): Option<ValidDateTime>
  {
    var dt := DateTime(y, m, d, h, mi);
    if dt.Valid() then Some(dt) else None
  }

  /** The date_stamp of a record: the day of a date string at 00:00, from its first eight characters. */
  function DecodeDay(s: string): (d: Option<ValidDateTime>)
    ensures d.Some? ==> d.value.hour == 0 && d.value.minute == 0 && |s| > 6
  {
    match (ParseInt(Slice(s, 0, 4)), ParseInt(Slice(s, 4, 6)), ParseInt(Slice(s, 6, 8)))
    case (Some(y), Some(m), Some(d)) => MakeDateTime(y, m, d, 0, 0)
    case _ => None
  }

  /** A start or end date: the first twelve characters of a date string read as YYYYMMDDHHMM; the rest is ignored. */
  function DecodeMinute(s: string): (d: Option<ValidDateTime>)
    ensures d.Some? ==> |s| > 10
  {
    match (ParseInt(Slice(s, 0, 4)), ParseInt(Slice(s, 4, 6)), ParseInt(Slice(s, 6, 8)),
           ParseInt(Slice(s, 8, 10)), ParseInt(Slice(s, 10, 12)))
    case (Some(y), Some(m), Some(d), Some(h), Some(mi)) => MakeDateTime(y, m, d, h, mi)
    case _ => None
  }

  /** A timestamp written the way the export writes it: twelve digits, YYYYMMDDHHMM. */
  function Encode(d: ValidDateTime): string
  {
    PadDigits(d.year, 4) + PadDigits(d.month, 2) + PadDigits(d.day, 2) + PadDigits(d.hour, 2) + PadDigits(d.minute, 2)
  }

  /** One pass of the loop body: the record at `index`, with `user` as the user tag. */
  function NormalizeRecord(rec: RawRecord, index: nat, user: string): (o: Outcome)
    ensures o.Abort? ==> o.error.index == index
    ensures o.Keep? ==> o.row.user == user && o.row.dateStamp == Midnight(o.row.endDate)
  {
    if StartDateKey !in rec then Abort(MissingKey(index, StartDateKey))
    else if EndDateKey !in rec then Abort(MissingKey(index, EndDateKey))
    else
      var rsd, red := rec[StartDateKey], rec[EndDateKey];
      match (DecodeDay(red), DecodeMinute(rsd), DecodeMinute(red))
      case (None, _, _) => Abort(InvalidDate(index, EndDateKey))
      case (Some(_), None, _) => Abort(InvalidDate(index, StartDateKey))
      case (Some(_), Some(_), None) => Abort(InvalidDate(index, EndDateKey))
      case (Some(stamp), Some(start), Some(end)) =>
        if RecordCountKey !in rec || TypeKey !in rec || ValueKey !in rec then Drop
        else
          match ParseFloat(rec[ValueKey])
          case None => Drop
          case Some(v) => Keep(Row(user, rec[RecordCountKey], rec[TypeKey], stamp, start, end, v))
  }

  /** The outcome of every record of a document, in order. */
  function Outcomes(records: seq<RawRecord>, user: string): (os: seq<Outcome>)
    ensures |os| == |records|
  {
    seq(|records|, i requires 0 <= i < |records| => NormalizeRecord(records[i], i, user))
  }

  /** The frame that a run of outcomes builds: the kept rows in order, or the first error. */
  function Collect(os: seq<Outcome>): Result<seq<Row>, ParseError>
  {
    if os == [] then Ok([])
    else
      var n := |os| - 1;
      match Collect(os[..n])
      case Err(e) => Err(e)
      case Ok(rows) =>
        match os[n]
        case Abort(e) => Err(e)
        case Drop => Ok(rows)
        case Keep(row) => Ok(rows + [row])
  }

  /** parse_document as a whole. */
  function Normalize(records: seq<RawRecord>, user: string): Result<seq<Row>, ParseError>
  {
    Collect(Outcomes(records, user))
  }

  /** Once an outcome has stopped the parse, no later outcome changes the error. */
  lemma {:induction false} ErrorIsFinal(os: seq<Outcome>, k: nat, e: ParseError)
    requires k <= |os| && Collect(os[..k]) == Err(e)
    ensures Collect(os) == Err(e)
    decreases |os| - k
  {
    if k < |os| {
      assert os[..k + 1][..k] == os[..k];
      ErrorIsFinal(os, k + 1, e);
    } else {
      assert os[..k] == os;
    }
  }

  /** Adding one outcome to the frame built so far. */
  lemma CollectStep(os: seq<Outcome>, i: nat, rows: seq<Row>)
    requires i < |os| && Collect(os[..i]) == Ok(rows)
    ensures Collect(os[..i + 1]) == match os[i]
      case Abort(e) => Err(e)
      case Drop => Ok(rows)
      case Keep(row) => Ok(rows + [row])
  {
    assert os[..i + 1][..i] == os[..i];
  }

  /** The loop of parse_document, filling the frame one record at a time. */
  method ParseDocument(records: seq<RawRecord>, user: string) returns (result: Result<seq<Row>, ParseError>)
    ensures result == Normalize(records, user)
  {
    ghost var os := Outcomes(records, user);
    var rows: seq<Row> := [];
    for i := 0 to |records|
      invariant Collect(os[..i]) == Ok(rows)
    {
      var outcome := NormalizeRecord(records[i], i, user);
      CollectStep(os, i, rows);
      match outcome
      case Abort(e) =>
        ErrorIsFinal(os, i + 1, e);
        return Err(e);
      case Drop =>
      case Keep(row) =>
        rows := rows + [row];
    }
    assert os[..|records|] == os;
    result := Ok(rows);
  }

  /**
   * A run of outcomes builds a frame exactly when none of them stops the
   * parse, and when it fails the error is that of the first one that does.
   */
  lemma {:induction false} CollectFailsAtFirstAbort(os: seq<Outcome>)
    ensures Collect(os).Ok? <==> forall i :: 0 <= i < |os| ==> !os[i].Abort?
    ensures Collect(os).Err? ==>
              exists i :: 0 <= i < |os| && os[i] == Abort(Collect(os).error) &&
                forall j :: 0 <= j < i ==> !os[j].Abort?
  {
    if os != [] {
      var n := |os| - 1;
      CollectFailsAtFirstAbort(os[..n]);
      assert forall i :: 0 <= i < n ==> os[..n][i] == os[i];
      if Collect(os[..n]).Err? {
        var i :| 0 <= i < n && os[..n][i] == Abort(Collect(os[..n]).error) &&
                forall j :: 0 <= j < i ==> !os[..n][j].Abort?;
        assert os[i] == Abort(Collect(os).error);
      }
    }
  }

  /**
   * The parse of a document succeeds exactly when no record stops it; when it
   * fails, the error names the first record that does, by its index.
   */
  lemma NormalizeFailsAtFirstAbort(records: seq<RawRecord>, user: string)
    ensures var os := Outcomes(records, user);
      Normalize(records, user).Ok? <==> forall i :: 0 <= i < |os| ==> !os[i].Abort?
    ensures var os := Outcomes(records, user);
      Normalize(records, user).Err? ==>
        var e := Normalize(records, user).error;
        && e.index < |os|
        && os[e.index] == Abort(e)
        && forall i :: 0 <= i < e.index ==> !os[i].Abort?
  {
    var os := Outcomes(records, user);
    CollectFailsAtFirstAbort(os);
    if Collect(os).Err? {
      var i :| 0 <= i < |os| && os[i] == Abort(Collect(os).error) &&
                forall j :: 0 <= j < i ==> !os[j].Abort?;
    }
  }

  /**
   * A frame built from a run of outcomes holds exactly the rows of the Keep
   * outcomes, in their order; Drop outcomes leave nothing behind.
   */
  lemma {:induction false} KeptRowsInOrder(os: seq<Outcome>, rows: seq<Row>) returns (idx: seq<nat>)
    requires Collect(os) == Ok(rows)
    ensures |idx| == |rows|
    ensures forall j :: 0 <= j < |idx| ==> idx[j] < |os| && os[idx[j]] == Keep(rows[j])
    ensures forall j, k :: 0 <= j < k < |idx| ==> idx[j] < idx[k]
    ensures forall i :: 0 <= i < |os| && os[i].Keep? ==> i in idx
  {
    if os == [] {
      idx := [];
    } else {
      var n := |os| - 1;
      var prefix := os[..n];
      assert forall i :: 0 <= i < n ==> prefix[i] == os[i];
      match os[n]
      case Drop =>
        idx := KeptRowsInOrder(prefix, rows);
      case Keep(row) =>
        var before := KeptRowsInOrder(prefix, rows[..|rows| - 1]);
        idx := before + [n];
    }
  }

  /** The day of a record is the day of its end date: parsing both from the same string agrees. */
  lemma DayOfEnd(s: string)
    requires DecodeMinute(s).Some?
    ensures DecodeDay(s) == Some(Midnight(DecodeMinute(s).value))
  {
  }

  /**
   * Every kept row carries the caller's user tag, the record's own count,
   * type and numeric value, timestamps read from its date strings, and the
   * day of its end date at 00:00 as its date stamp.
   */
  lemma KeptRowFields(rec: RawRecord, index: nat, user: string)
    requires NormalizeRecord(rec, index, user).Keep?
    ensures var row := NormalizeRecord(rec, index, user).row;
      && row.user == user
      && RecordCountKey in rec && row.recordCount == rec[RecordCountKey]
      && TypeKey in rec && row.recordType == rec[TypeKey]
      && ValueKey in rec && ParseFloat(rec[ValueKey]) == Some(row.value)
      && StartDateKey in rec && DecodeMinute(rec[StartDateKey]) == Some(row.startDate)
      && EndDateKey in rec && DecodeMinute(rec[EndDateKey]) == Some(row.endDate)
      && row.dateStamp == Midnight(row.endDate)
  {
  }

  /**
   * A record stops the whole parse exactly when a date attribute is missing
   * or does not read as a valid timestamp, whatever its other attributes
   * hold; otherwise it is dropped exactly when its count, type or value is
   * missing or its value is not a number.
   */
  lemma RecordOutcomeCases(rec: RawRecord, index: nat, user: string)
    ensures NormalizeRecord(rec, index, user).Abort? <==>
      || StartDateKey !in rec || EndDateKey !in rec
      || DecodeMinute(rec[StartDateKey]).None? || DecodeMinute(rec[EndDateKey]).None?
    ensures NormalizeRecord(rec, index, user).Drop? <==>
      && !NormalizeRecord(rec, index, user).Abort?
      && (RecordCountKey !in rec || TypeKey !in rec || ValueKey !in rec || ParseFloat(rec[ValueKey]).None?)
  {
    if StartDateKey in rec && EndDateKey in rec && DecodeMinute(rec[EndDateKey]).Some? {
      DayOfEnd(rec[EndDateKey]);
    }
  }

  lemma ReadField(n: nat, width: nat)
    requires width > 0 && n < Pow10(width)
    ensures ParseInt(PadDigits(n, width)) == Some(n as int)
  {
    ParseDigits(PadDigits(n, width));
  }

  /**
   * Writing a timestamp as twelve digits and reading it back, whatever
   * follows (a time zone, say), gives the same timestamp and its midnight.
   */
  lemma {:induction false} DecodeEncode(d: ValidDateTime, suffix: string)
    ensures DecodeMinute(Encode(d) + suffix) == Some(d)
    ensures DecodeDay(Encode(d) + suffix) == Some(Midnight(d))
  {
    EncodedFieldValues(d, suffix);
    assert MakeDateTime(d.year, d.month, d.day, d.hour, d.minute) == Some(d);
    assert MakeDateTime(d.year, d.month, d.day, 0, 0) == Some(Midnight(d));
  }

  /** Each field of an encoded timestamp reads back through int() as the number written. */
  lemma {:induction false} EncodedFieldValues(d: ValidDateTime, suffix: string)
    ensures ParseInt(Slice(Encode(d) + suffix, 0, 4)) == Some(d.year)
    ensures ParseInt(Slice(Encode(d) + suffix, 4, 6)) == Some(d.month)
    ensures ParseInt(Slice(Encode(d) + suffix, 6, 8)) == Some(d.day)
    ensures ParseInt(Slice(Encode(d) + suffix, 8, 10)) == Some(d.hour)
    ensures ParseInt(Slice(Encode(d) + suffix, 10, 12)) == Some(d.minute)
  {
    EncodedFields(d, suffix);
    assert Pow10(2) == 100 && Pow10(4) == 10000;
    ReadField(d.year, 4);
    ReadField(d.month, 2);
    ReadField(d.day, 2);
    ReadField(d.hour, 2);
    ReadField(d.minute, 2);
  }

  /** Each field of an encoded timestamp sits at its fixed offset, whatever follows. */
  lemma {:induction false} EncodedFields(d: ValidDateTime, suffix: string)
    ensures Slice(Encode(d) + suffix, 0, 4) == PadDigits(d.year, 4)
    ensures Slice(Encode(d) + suffix, 4, 6) == PadDigits(d.month, 2)
    ensures Slice(Encode(d) + suffix, 6, 8) == PadDigits(d.day, 2)
    ensures Slice(Encode(d) + suffix, 8, 10) == PadDigits(d.hour, 2)
    ensures Slice(Encode(d) + suffix, 10, 12) == PadDigits(d.minute, 2)
  {
    var s := Encode(d) + suffix;
    var y, mo, dd, h, mi := PadDigits(d.year, 4), PadDigits(d.month, 2), PadDigits(d.day, 2), PadDigits(d.hour, 2), PadDigits(d.minute, 2);
    assert Encode(d) == y + mo + dd + h + mi;
    assert Slice(s, 0, 4) == y;
    assert Slice(s, 4, 6) == mo;
    assert Slice(s, 6, 8) == dd;
    assert Slice(s, 8, 10) == h;
    assert Slice(s, 10, 12) == mi;
  }
}
