/** The batch loader, clean_and_seed_data: cleans a table read from a
    delimited file, dates each row, and inserts the rows whose names are not
    yet stored, in one all-or-nothing transaction. */
module Seed {
  import opened Wrappers
  import opened Text
  import opened Clans

  /** One field as the file reader produced it: the text of its value, or
      None for a missing value. */
  type Cell = Option<string>

  /** One record of the file, field by field in column order. */
  type Row = seq<Cell>

  /** The file as read: its header names and its records. */
  datatype Table = Table(columns: seq<string>, rows: seq<Row>)

  /** A record's field in column `j`; a record shorter than the header reads
      as missing there. */
  function CellAt(row: Row, j: nat): (r: Cell)
    ensures j < |row| ==> r == row[j]
    ensures j >= |row| ==> r.None?
  {
    if j < |row| then row[j] else None
  }

  /** The position of the first column with header `key`. */
  function ColumnIndex(columns: seq<string>, key: string): (k: Option<nat>)
    ensures k.None? <==> key !in columns
    ensures k.Some? ==> k.value < |columns| && columns[k.value] == key
    ensures k.Some? ==> forall j :: 0 <= j < k.value ==> columns[j] != key
  {
    if columns == [] then None
    else if columns[0] == key then Some(0)
    else
      assert columns == [columns[0]] + columns[1..];
      match ColumnIndex(columns[1..], key)
      case None => None
      case Some(k) => Some(k + 1)
  }

  // ---------------------------------------------------------------------
  // Header normalisation

  /** `c.lower().strip()`. */
  function NormalizeHeader(c: string): string {
    Trim(Lower(c))
  }

  /** Every header normalised, in place. */
  function NormalizeHeaders(columns: seq<string>): seq<string> {
    seq(|columns|, i requires 0 <= i < |columns| => NormalizeHeader(columns[i]))
  }

  /** A normalised header is lower case, trimmed, and normalises to itself. */
  lemma NormalizeHeaderCanonical(c: string)
    ensures Lower(NormalizeHeader(c)) == NormalizeHeader(c)
    ensures Trim(NormalizeHeader(c)) == NormalizeHeader(c)
    ensures NormalizeHeader(NormalizeHeader(c)) == NormalizeHeader(c)
  {
    var l := Lower(c);
    var x := NormalizeHeader(c);
    var a := TrimSlice(l);
    forall i | 0 <= i < |x| ensures LowerChar(x[i]) == x[i] {
      assert x[i] == l[a + i];
    }
    assert Lower(x) == x;
    TrimIdempotent(l);
  }

  /** Letter case in a header does not matter. */
  lemma NormalizeHeaderIgnoresCase(c: string)
    ensures NormalizeHeader(Lower(c)) == NormalizeHeader(c)
  {
    assert Lower(Lower(c)) == Lower(c);
  }

  /** Whitespace around a header does not matter. */
  lemma NormalizeHeaderIgnoresPadding(pre: string, c: string, post: string)
    requires forall i :: 0 <= i < |pre| ==> IsSpace(pre[i])
    requires forall i :: 0 <= i < |post| ==> IsSpace(post[i])
    ensures NormalizeHeader(pre + c + post) == NormalizeHeader(c)
  {
    assert Lower(pre + c + post) == Lower(pre) + Lower(c) + Lower(post);
    forall i | 0 <= i < |pre| ensures IsSpace(Lower(pre)[i]) {
      LowerKeepsSpace(pre[i]);
    }
    forall i | 0 <= i < |post| ensures IsSpace(Lower(post)[i]) {
      LowerKeepsSpace(post[i]);
    }
    TrimPadding(Lower(pre), Lower(c), Lower(post));
  }

  // ---------------------------------------------------------------------
  // Dropping records without a name

  /** The record has a name that is not blank. */
  predicate HasName(row: Row, nameIdx: nat) {
    CellAt(row, nameIdx).Some? && Trim(CellAt(row, nameIdx).value) != ""
  }

  /** The records that keep their place in the table: those with a name, in file order. */
  function KeepNamed(rows: seq<Row>, nameIdx: nat): (kept: seq<Row>)
    ensures |kept| <= |rows|
    ensures forall i :: 0 <= i < |kept| ==> HasName(kept[i], nameIdx)
  {
    if rows == [] then []
    else
      assert rows == [rows[0]] + rows[1..];
      (if HasName(rows[0], nameIdx) then [rows[0]] else []) + KeepNamed(rows[1..], nameIdx)
  }

  /** A record is kept exactly when it has a name. */
  lemma {:induction false} KeepNamedMembers(rows: seq<Row>, nameIdx: nat)
    ensures forall r :: r in KeepNamed(rows, nameIdx) <==> r in rows && HasName(r, nameIdx)
  {
    if rows != [] {
      KeepNamedMembers(rows[1..], nameIdx);
      assert rows == [rows[0]] + rows[1..];
    }
  }

  /** Filtering keeps the file order: it distributes over concatenation. */
  lemma {:induction false} KeepNamedAppend(a: seq<Row>, b: seq<Row>, nameIdx: nat)
    ensures KeepNamed(a + b, nameIdx) == KeepNamed(a, nameIdx) + KeepNamed(b, nameIdx)
  {
    if a == [] {
      assert a + b == b;
    } else {
      assert (a + b)[1..] == a[1..] + b;
      KeepNamedAppend(a[1..], b, nameIdx);
    }
  }

  /** No record is dropped exactly when every record has a name. */
  lemma {:induction false} NothingDroppedIff(rows: seq<Row>, nameIdx: nat)
    ensures |KeepNamed(rows, nameIdx)| == |rows| <==> forall i :: 0 <= i < |rows| ==> HasName(rows[i], nameIdx)
  {
    if rows != [] {
      NothingDroppedIff(rows[1..], nameIdx);
      assert forall i :: 1 <= i < |rows| ==> rows[i] == rows[1..][i - 1];
    }
  }

  // ---------------------------------------------------------------------
  // Dating a record: parse_smart_date

  /** What `datetime.fromtimestamp(float(t), tz=timezone.utc)` does with an
      epoch text: gives an instant, raises ValueError (a year out of range),
      or raises another error (OverflowError beyond the platform's time_t,
      OSError from the C library). */
  datatype EpochConversion = Converted(at: Timestamp) | ValueErrorRaised | OtherErrorRaised

  /** How a created_at field is read. */
  datatype DateKind =
    | Missing                   // absent, or blank after trimming
    | EpochText(text: string)   // digits, with at most one '.'
    | DateText(text: string)    // anything else, handed to the date-string parser

  function Classify(raw: Cell): (k: DateKind)
    ensures k.Missing? <==> raw.None? || Trim(raw.value) == ""
    ensures k.EpochText? <==> raw.Some? && EpochShape(Trim(raw.value))
    ensures !k.Missing? ==> k.text == Trim(raw.value)
  {
    if raw.None? || Trim(raw.value) == "" then Missing
    else
      var t := Trim(raw.value);
      EpochTestIff(t);
      if LooksLikeEpoch(t) then EpochText(t) else DateText(t)
  }

  /** The date-string branch: the parser's instant in UTC, or `now` when it fails. */
  function ParseDateText(t: string, now: Timestamp, parse: string -> Option<Timestamp>): Timestamp {
    match parse(t)
    case Some(at) => at
    case None => now
  }

  /** parse_smart_date with every failed epoch conversion falling through to
      the date-string parser. It never fails. */
  function ParseSmartDate(raw: Cell, now: Timestamp, epoch: string -> EpochConversion,
                          parse: string -> Option<Timestamp>): (at: Timestamp)
    ensures raw.None? || Trim(raw.value) == "" ==> at == now
    ensures raw.Some? && EpochShape(Trim(raw.value)) && epoch(Trim(raw.value)).Converted? ==>
      at == epoch(Trim(raw.value)).at
    ensures raw.Some? && Trim(raw.value) != "" && !(EpochShape(Trim(raw.value)) && epoch(Trim(raw.value)).Converted?) ==>
      at == ParseDateText(Trim(raw.value), now, parse)
  {
    match Classify(raw)
    case Missing => now
    case EpochText(t) => if epoch(t).Converted? then epoch(t).at else ParseDateText(t, now, parse)
    case DateText(t) => ParseDateText(t, now, parse)
  }

  /** The epoch conversion of a field raises an error other than ValueError,
      which the handler around it does not catch. */
  predicate ConversionEscapes(raw: Cell, epoch: string -> EpochConversion) {
    raw.Some? && EpochShape(Trim(raw.value)) && epoch(Trim(raw.value)).OtherErrorRaised?
  }

  /** parse_smart_date as written: only ValueError is caught around the epoch
      conversion, so any other error escapes. */
  function ParseSmartDateAsWritten(raw: Cell, now: Timestamp, epoch: string -> EpochConversion,
                                   parse: string -> Option<Timestamp>): (r: Result<Timestamp, SeedError>)
    ensures r.Err? <==> ConversionEscapes(raw, epoch)
    ensures r.Err? ==> r.error == ConversionEscaped(Trim(raw.value))
  {
    match Classify(raw)
    case Missing => Ok(now)
    case EpochText(t) =>
      (match epoch(t)
       case Converted(at) => Ok(at)
       case ValueErrorRaised => Ok(ParseDateText(t, now, parse))
       case OtherErrorRaised => Err(ConversionEscaped(t)))
    case DateText(t) => Ok(ParseDateText(t, now, parse))
  }

  /** Wherever the epoch conversion does not raise an uncaught error, the code
      as written and the corrected reading agree. */
  lemma AsWrittenAgreesOtherwise(raw: Cell, now: Timestamp, epoch: string -> EpochConversion,
                                 parse: string -> Option<Timestamp>)
    requires !ConversionEscapes(raw, epoch)
    ensures ParseSmartDateAsWritten(raw, now, epoch, parse) == Ok(ParseSmartDate(raw, now, epoch, parse))
  {
  }

  /** A digit string is its own trimmed text and has the epoch shape. */
  lemma DigitTextIsEpoch(t: string)
    requires IsDigits(t)
    ensures Trim(t) == t && EpochShape(t)
  {
    TrimUnpadded(t);
    AllDigitsNoDots(t);
  }

  /** For a digit string whose conversion raises something other than
      ValueError, the code as written fails, while the corrected reading
      hands the text to the date-string parser. */
  lemma OverflowingEpochEscapes(t: string, now: Timestamp, epoch: string -> EpochConversion,
                                parse: string -> Option<Timestamp>)
    requires IsDigits(t) && epoch(t) == OtherErrorRaised
    ensures ParseSmartDateAsWritten(Some(t), now, epoch, parse) == Err(ConversionEscaped(t))
    ensures ParseSmartDate(Some(t), now, epoch, parse) == ParseDateText(t, now, parse)
  {
    DigitTextIsEpoch(t);
  }

  /** Twenty nines is 1e20 seconds, beyond a 64-bit time_t, where
      fromtimestamp raises OverflowError: as written that error escapes
      parse_smart_date. */
  lemma TwentyNinesEscape(now: Timestamp, epoch: string -> EpochConversion,
                          parse: string -> Option<Timestamp>)
    requires epoch("99999999999999999999") == OtherErrorRaised
    ensures ParseSmartDateAsWritten(Some("99999999999999999999"), now, epoch, parse)
      == Err(ConversionEscaped("99999999999999999999"))
  {
    var t := "99999999999999999999";
    assert IsDigits(t);
    OverflowingEpochEscapes(t, now, epoch, parse);
  }

  /** A non-blank text that is not converted as an epoch and that the
      date-string parser rejects falls back to `now` instead of raising. */
  lemma RejectedDateIsNow(raw: Cell, now: Timestamp, epoch: string -> EpochConversion,
                          parse: string -> Option<Timestamp>)
    requires raw.Some? && Trim(raw.value) != ""
    requires !(EpochShape(Trim(raw.value)) && epoch(Trim(raw.value)).Converted?)
    requires parse(Trim(raw.value)) == None
    ensures ParseSmartDate(raw, now, epoch, parse) == now
  {
  }

  /** The text "not-a-date", rejected by the parser, is dated `now`. */
  lemma NotADateIsNow(now: Timestamp, epoch: string -> EpochConversion,
                      parse: string -> Option<Timestamp>)
    requires parse("not-a-date") == None
    ensures ParseSmartDate(Some("not-a-date"), now, epoch, parse) == now
  {
    var t := "not-a-date";
    assert Trim(t) == t;
    assert !DigitsAndDots(t) by { assert t[0] == 'n'; }
    RejectedDateIsNow(Some(t), now, epoch, parse);
  }

  /** Texts the loader reads as epochs: digits, with at most one '.'. */
  lemma EpochExamples()
    ensures EpochShape("1719227554") && EpochShape("17.5") && EpochShape(".5")
  {
    SecondsAreEpoch();
    FractionIsEpoch();
  }

  lemma SecondsAreEpoch()
    ensures EpochShape("1719227554")
  {
    var t := "1719227554";
    assert IsDigits(t);
    DigitTextIsEpoch(t);
  }

  lemma FractionIsEpoch()
    ensures EpochShape("17.5")
  {
    assert "17.5" == "17" + ".5";
    DotCountAppend("17", ".5");
  }

  /** Texts it hands to the date-string parser instead. */
  lemma NotEpochExamples()
    ensures !EpochShape(".") && !EpochShape("1.2.3") && !EpochShape("-5") && !EpochShape("")
  {
    assert !DigitsAndDots("-5") by { assert "-5"[0] == '-'; }
    assert DotCount("1.2.3") == 2;
  }

  lemma {:induction false} DotCountAppend(a: string, b: string)
    ensures DotCount(a + b) == DotCount(a) + DotCount(b)
  {
    if a == [] {
      assert a + b == b;
    } else {
      assert (a + b)[1..] == a[1..] + b;
      DotCountAppend(a[1..], b);
    }
  }

  // ---------------------------------------------------------------------
  // The cleaned table

  /** An error the loader does not catch: a missing column, or an epoch
      conversion error other than ValueError. */
  datatype SeedError = MissingColumn(column: string) | ConversionEscaped(text: string)

  /** A kept record together with its created_at_clean value. */
  datatype CleanRow = CleanRow(cells: Row, createdAt: Timestamp)

  /** The table once cleaned, with the number of records dropped for lack of a name. */
  datatype Cleaned = Cleaned(columns: seq<string>, nameIdx: nat, rows: seq<CleanRow>, dropped: nat)

  /** The position of the first record whose created_at conversion escapes,
      which is where `apply` stops with that error. */
  function FirstEscape(rows: seq<Row>, dateIdx: nat, epoch: string -> EpochConversion): (k: Option<nat>)
    ensures k.None? <==> forall i :: 0 <= i < |rows| ==> !ConversionEscapes(CellAt(rows[i], dateIdx), epoch)
    ensures k.Some? ==> k.value < |rows| && ConversionEscapes(CellAt(rows[k.value], dateIdx), epoch)
    ensures k.Some? ==> forall j :: 0 <= j < k.value ==> !ConversionEscapes(CellAt(rows[j], dateIdx), epoch)
  {
    if rows == [] then None
    else if ConversionEscapes(CellAt(rows[0], dateIdx), epoch) then Some(0)
    else
      assert forall i :: 1 <= i < |rows| ==> rows[i] == rows[1..][i - 1];
      match FirstEscape(rows[1..], dateIdx, epoch)
      case None => None
      case Some(k) => Some(k + 1)
  }

  /** Everything before the transaction: normalises the headers, drops the
      records without a name and dates the rest, as the code is written.
      Looking up a `name` or `created_at` column that is not there raises
      KeyError, and so does an epoch conversion that raises an error other
      than ValueError; these errors leave the loader before the session opens. */
  function Prepare(t: Table, now: Timestamp, epoch: string -> EpochConversion,
                   parse: string -> Option<Timestamp>): (r: Result<Cleaned, SeedError>)
    ensures "name" !in NormalizeHeaders(t.columns) ==> r == Err(MissingColumn("name"))
    ensures "name" in NormalizeHeaders(t.columns) && "created_at" !in NormalizeHeaders(t.columns) ==>
      r == Err(MissingColumn("created_at"))
    ensures "name" in NormalizeHeaders(t.columns) && "created_at" in NormalizeHeaders(t.columns) ==>
      var columns := NormalizeHeaders(t.columns);
      var nameIdx := ColumnIndex(columns, "name").value;
      var dateIdx := ColumnIndex(columns, "created_at").value;
      var kept := KeepNamed(t.rows, nameIdx);
      var escape := FirstEscape(kept, dateIdx, epoch);
      && (r.Err? <==> escape.Some?)
      && (r.Err? ==> r.error == ConversionEscaped(Trim(CellAt(kept[escape.value], dateIdx).value)))
      && (r.Ok? ==>
            && r.value.columns == columns
            && r.value.nameIdx == nameIdx
            && r.value.dropped == |t.rows| - |kept|
            && |r.value.rows| == |kept|
            && forall i :: 0 <= i < |kept| ==>
                 r.value.rows[i].cells == kept[i]
                 && r.value.rows[i].createdAt == ParseSmartDate(CellAt(kept[i], dateIdx), now, epoch, parse))
  {
    var columns := NormalizeHeaders(t.columns);
    match ColumnIndex(columns, "name")
    case None => Err(MissingColumn("name"))
    case Some(nameIdx) =>
      var kept := KeepNamed(t.rows, nameIdx);
      match ColumnIndex(columns, "created_at")
      case None => Err(MissingColumn("created_at"))
      case Some(dateIdx) =>
        match FirstEscape(kept, dateIdx, epoch)
        case Some(k) => Err(ConversionEscaped(Trim(CellAt(kept[k], dateIdx).value)))
        case None =>
          var rows := seq(|kept|, i requires 0 <= i < |kept| =>
            CleanRow(kept[i], ParseSmartDate(CellAt(kept[i], dateIdx), now, epoch, parse)));
          Ok(Cleaned(columns, nameIdx, rows, |t.rows| - |kept|))
  }

  /** The cleaned table's name index points at a "name" column, every row
      has a name, and kept plus dropped records are all the records. */
  lemma PreparedRowsNamed(t: Table, now: Timestamp, epoch: string -> EpochConversion,
                          parse: string -> Option<Timestamp>)
    requires Prepare(t, now, epoch, parse).Ok?
    ensures var p := Prepare(t, now, epoch, parse).value;
      && p.nameIdx < |p.columns| && p.columns[p.nameIdx] == "name"
      && (forall i :: 0 <= i < |p.rows| ==> HasName(p.rows[i].cells, p.nameIdx))
      && |p.rows| + p.dropped == |t.rows|
  {
    var p := Prepare(t, now, epoch, parse).value;
    var kept := KeepNamed(t.rows, p.nameIdx);
    assert |kept| <= |t.rows|;
    forall i | 0 <= i < |p.rows| ensures HasName(p.rows[i].cells, p.nameIdx) {
      assert p.rows[i].cells == kept[i];
    }
  }

  /** Every kept record is dated as parse_smart_date, as written, dates it:
      where the run gets past the dating, the two readings agree. */
  lemma PreparedDatesAsWritten(t: Table, now: Timestamp, epoch: string -> EpochConversion,
                               parse: string -> Option<Timestamp>, i: nat)
    requires Prepare(t, now, epoch, parse).Ok?
    requires i < |Prepare(t, now, epoch, parse).value.rows|
    ensures var p := Prepare(t, now, epoch, parse).value;
      ParseSmartDateAsWritten(CellAt(p.rows[i].cells, ColumnIndex(p.columns, "created_at").value), now, epoch, parse)
        == Ok(p.rows[i].createdAt)
  {
    var p := Prepare(t, now, epoch, parse).value;
    var dateIdx := ColumnIndex(p.columns, "created_at").value;
    AsWrittenAgreesOtherwise(CellAt(p.rows[i].cells, dateIdx), now, epoch, parse);
  }

  /** A file whose one record holds twenty nines as created_at: when that
      conversion overflows, the whole load stops before the session opens. */
  lemma OverflowAbortsTheLoad(now: Timestamp, epoch: string -> EpochConversion,
                              parse: string -> Option<Timestamp>)
    requires epoch("99999999999999999999") == OtherErrorRaised
    ensures Prepare(Table(["name", "created_at", "region"], [[Some("A"), Some("99999999999999999999"), Some("EU")]]),
                    now, epoch, parse) == Err(ConversionEscaped("99999999999999999999"))
  {
    var columns := ["name", "created_at", "region"];
    var row := [Some("A"), Some("99999999999999999999"), Some("EU")];
    PlainHeaders();
    assert ColumnIndex(columns, "name") == Some(0);
    assert ColumnIndex(columns, "created_at") == Some(1);
    var t := "99999999999999999999";
    assert IsDigits(t);
    OverflowRow(row, t, epoch);
    assert KeepNamed([row], 0) == [row];
    assert FirstEscape([row], 1, epoch) == Some(0);
  }

  lemma OverflowRow(row: Row, t: string, epoch: string -> EpochConversion)
    requires row == [Some("A"), Some(t), Some("EU")]
    requires IsDigits(t) && epoch(t) == OtherErrorRaised
    ensures HasName(row, 0) && ConversionEscapes(CellAt(row, 1), epoch)
    ensures Trim(CellAt(row, 1).value) == t
  {
    TrimUnpadded("A");
    DigitTextIsEpoch(t);
  }

  lemma PlainHeaders()
    ensures NormalizeHeaders(["name", "created_at", "region"]) == ["name", "created_at", "region"]
  {
    var columns := ["name", "created_at", "region"];
    NameHeaderPlain();
    CreatedAtHeaderPlain();
    RegionHeaderPlain();
    assert NormalizeHeaders(columns) == [NormalizeHeader(columns[0]), NormalizeHeader(columns[1]), NormalizeHeader(columns[2])];
  }

  lemma NameHeaderPlain()
    ensures NormalizeHeader("name") == "name"
  {
    assert Lower("name") == "name";
    TrimUnpadded("name");
  }

  lemma CreatedAtHeaderPlain()
    ensures NormalizeHeader("created_at") == "created_at"
  {
    assert Lower("created_at") == "created_at";
    TrimUnpadded("created_at");
  }

  lemma RegionHeaderPlain()
    ensures NormalizeHeader("region") == "region"
  {
    assert Lower("region") == "region";
    TrimUnpadded("region");
  }

  /** The header lookup is insensitive to case and surrounding whitespace. */
  lemma HeaderExample()
    ensures NormalizeHeaders([" Name", "REGION ", "Created_At"]) == ["name", "region", "created_at"]
  {
    NameHeader();
    RegionHeader();
    CreatedAtHeader();
    var h := [" Name", "REGION ", "Created_At"];
    assert NormalizeHeaders(h) == [NormalizeHeader(h[0]), NormalizeHeader(h[1]), NormalizeHeader(h[2])];
  }

  lemma NameHeader()
    ensures NormalizeHeader(" Name") == "name"
  {
    PaddedHeader(" Name", " ", "Name", "", "name");
  }

  lemma RegionHeader()
    ensures NormalizeHeader("REGION ") == "region"
  {
    PaddedHeader("REGION ", "", "REGION", " ", "region");
  }

  lemma CreatedAtHeader()
    ensures NormalizeHeader("Created_At") == "created_at"
  {
    assert Lower("Created_At") == "created_at";
    TrimUnpadded("created_at");
  }

  lemma PaddedHeader(h: string, pre: string, core: string, post: string, key: string)
    requires h == pre + core + post
    requires forall i :: 0 <= i < |pre| ==> IsSpace(pre[i])
    requires forall i :: 0 <= i < |post| ==> IsSpace(post[i])
    requires core != [] && !IsSpace(Lower(core)[0]) && !IsSpace(Lower(core)[|core| - 1])
    requires Lower(core) == key
    ensures NormalizeHeader(h) == key
  {
    NormalizeHeaderIgnoresPadding(pre, core, post);
    TrimUnpadded(Lower(core));
  }

  // ---------------------------------------------------------------------
  // Staging new clans

  /** The raw `name` field of a kept record. */
  function RawName(row: CleanRow, nameIdx: nat): (r: string)
    ensures CellAt(row.cells, nameIdx) == Some(r) || (CellAt(row.cells, nameIdx).None? && r == "")
  {
    match CellAt(row.cells, nameIdx)
    case Some(s) => s
    case None => ""
  }

  /** `str()` of a region field: a missing value prints as "nan". */
  function RegionText(cell: Cell): string {
    match cell
    case Some(s) => s
    case None => "nan"
  }

  /** Some stored clan has exactly this name (no trimming, case-sensitive). */
  predicate NameTaken(existing: seq<Clan>, name: string) {
    exists i :: 0 <= i < |existing| && existing[i].name == name
  }

  /** The clan staged for a record. */
  function NewClan(row: CleanRow, nameIdx: nat, regionIdx: nat, id: Id): Clan {
    Clan(id, Trim(RawName(row, nameIdx)), Trim(RegionText(CellAt(row.cells, regionIdx))), row.createdAt)
  }

  /** The records whose raw name no stored clan has, in file order. */
  function NewRows(existing: seq<Clan>, rows: seq<CleanRow>, nameIdx: nat): seq<CleanRow> {
    if rows == [] then []
    else
      (if NameTaken(existing, RawName(rows[0], nameIdx)) then [] else [rows[0]])
        + NewRows(existing, rows[1..], nameIdx)
  }

  /** A record is new exactly when no stored clan has its raw name. */
  lemma {:induction false} NewRowsMembers(existing: seq<Clan>, rows: seq<CleanRow>, nameIdx: nat)
    ensures forall r :: r in NewRows(existing, rows, nameIdx) <==> r in rows && !NameTaken(existing, RawName(r, nameIdx))
  {
    if rows != [] {
      NewRowsMembers(existing, rows[1..], nameIdx);
      assert rows == [rows[0]] + rows[1..];
    }
  }

  /** What the insertion loop stages, from the `k`-th fresh id on: None when
      a record reaches `row['region']` and the column does not exist. */
  function Stage(existing: seq<Clan>, rows: seq<CleanRow>, nameIdx: nat, regionIdx: Option<nat>,
                 freshId: nat -> Id, k: nat): Option<seq<Clan>>
  {
    if rows == [] then Some([])
    else if NameTaken(existing, RawName(rows[0], nameIdx)) then
      Stage(existing, rows[1..], nameIdx, regionIdx, freshId, k)
    else if regionIdx.None? then None
    else
      match Stage(existing, rows[1..], nameIdx, regionIdx, freshId, k + 1)
      case None => None
      case Some(rest) => Some([NewClan(rows[0], nameIdx, regionIdx.value, freshId(k))] + rest)
  }

  /** `prefix` followed by the rest, if there is a rest. */
  function Prepend(prefix: seq<Clan>, rest: Option<seq<Clan>>): Option<seq<Clan>> {
    match rest
    case None => None
    case Some(s) => Some(prefix + s)
  }

  /** `staged` holds one clan per record of `novel`, in order, the j-th with
      the (k + j)-th fresh id. */
  predicate StagedFrom(staged: seq<Clan>, novel: seq<CleanRow>, nameIdx: nat, regionIdx: nat,
                       freshId: nat -> Id, k: nat)
  {
    |staged| == |novel|
    && forall j :: 0 <= j < |novel| ==> staged[j] == NewClan(novel[j], nameIdx, regionIdx, freshId(k + j))
  }

  /** Without a region column, staging succeeds, with nothing, exactly
      when every record's raw name is already stored. */
  lemma {:induction false} StageWithoutRegion(existing: seq<Clan>, rows: seq<CleanRow>, nameIdx: nat,
                                              freshId: nat -> Id, k: nat)
    ensures Stage(existing, rows, nameIdx, None, freshId, k)
      == if NewRows(existing, rows, nameIdx) == [] then Some([]) else None
  {
    if rows != [] && NameTaken(existing, RawName(rows[0], nameIdx)) {
      StageWithoutRegion(existing, rows[1..], nameIdx, freshId, k);
    }
  }

  /** With a region column, staging gives one clan per new-name record, in
      order, with consecutive fresh ids. */
  lemma {:induction false} StageWithRegion(existing: seq<Clan>, rows: seq<CleanRow>, nameIdx: nat,
                                           regionIdx: nat, freshId: nat -> Id, k: nat)
    ensures Stage(existing, rows, nameIdx, Some(regionIdx), freshId, k).Some?
    ensures StagedFrom(Stage(existing, rows, nameIdx, Some(regionIdx), freshId, k).value,
                       NewRows(existing, rows, nameIdx), nameIdx, regionIdx, freshId, k)
  {
    if rows != [] {
      var tail := rows[1..];
      if NameTaken(existing, RawName(rows[0], nameIdx)) {
        StageWithRegion(existing, tail, nameIdx, regionIdx, freshId, k);
      } else {
        StageWithRegion(existing, tail, nameIdx, regionIdx, freshId, k + 1);
        var c := NewClan(rows[0], nameIdx, regionIdx, freshId(k));
        var s' := Stage(existing, tail, nameIdx, Some(regionIdx), freshId, k + 1).value;
        var n' := NewRows(existing, tail, nameIdx);
        assert NewRows(existing, rows, nameIdx) == [rows[0]] + n';
        assert Stage(existing, rows, nameIdx, Some(regionIdx), freshId, k).value == [c] + s';
        StagedFromCons(c, s', rows[0], n', nameIdx, regionIdx, freshId, k);
      }
    }
  }

  /** The loop stages one clan per record whose raw name is new, in file
      order, with consecutive fresh ids; it fails only when such a record
      exists and there is no region column. */
  lemma StageMatchesNewRows(existing: seq<Clan>, rows: seq<CleanRow>, nameIdx: nat,
                            regionIdx: Option<nat>, freshId: nat -> Id, k: nat)
    ensures Stage(existing, rows, nameIdx, regionIdx, freshId, k).None?
      <==> regionIdx.None? && NewRows(existing, rows, nameIdx) != []
    ensures regionIdx.None? && NewRows(existing, rows, nameIdx) == [] ==>
      Stage(existing, rows, nameIdx, regionIdx, freshId, k) == Some([])
    ensures regionIdx.Some? ==>
      Stage(existing, rows, nameIdx, regionIdx, freshId, k).Some? &&
      StagedFrom(Stage(existing, rows, nameIdx, regionIdx, freshId, k).value,
                 NewRows(existing, rows, nameIdx), nameIdx, regionIdx.value, freshId, k)
  {
    if regionIdx.None? {
      StageWithoutRegion(existing, rows, nameIdx, freshId, k);
    } else {
      StageWithRegion(existing, rows, nameIdx, regionIdx.value, freshId, k);
    }
  }

  lemma StagedFromCons(c: Clan, staged: seq<Clan>, row: CleanRow, novel: seq<CleanRow>, nameIdx: nat,
                       regionIdx: nat, freshId: nat -> Id, k: nat)
    requires c == NewClan(row, nameIdx, regionIdx, freshId(k))
    requires StagedFrom(staged, novel, nameIdx, regionIdx, freshId, k + 1)
    ensures StagedFrom([c] + staged, [row] + novel, nameIdx, regionIdx, freshId, k)
  {
    var s, n := [c] + staged, [row] + novel;
    forall j | 0 <= j < |n| ensures s[j] == NewClan(n[j], nameIdx, regionIdx, freshId(k + j)) {
      if j > 0 {
        assert s[j] == staged[j - 1] && n[j] == novel[j - 1];
      }
    }
  }

  /** Staged clans carry distinct fresh ids, in issue order. */
  lemma StagedIds(existing: seq<Clan>, rows: seq<CleanRow>, nameIdx: nat, regionIdx: Option<nat>,
                  freshId: nat -> Id, k: nat)
    requires forall i, j :: i != j ==> freshId(i) != freshId(j)
    ensures var s := Stage(existing, rows, nameIdx, regionIdx, freshId, k);
      s.Some? ==> UniqueIds(s.value) && forall j :: 0 <= j < |s.value| ==> s.value[j].id == freshId(k + j)
  {
    StageMatchesNewRows(existing, rows, nameIdx, regionIdx, freshId, k);
    var s := Stage(existing, rows, nameIdx, regionIdx, freshId, k);
    if s.Some? && regionIdx.None? {
      assert s.value == [];
    }
  }

  /** A clan staged from a named record has a non-blank name, and neither
      field has surrounding whitespace. */
  lemma NewClanTrimmed(row: CleanRow, nameIdx: nat, regionIdx: nat, id: Id)
    requires HasName(row.cells, nameIdx)
    ensures var c := NewClan(row, nameIdx, regionIdx, id);
      c.name != "" && Trim(c.name) == c.name && Trim(c.region) == c.region
  {
    TrimIdempotent(RawName(row, nameIdx));
    TrimIdempotent(RegionText(CellAt(row.cells, regionIdx)));
  }

  /** Every staged clan has a non-blank name and a region with no
      surrounding whitespace, both trimmed from the record's fields. */
  lemma StagedFieldsTrimmed(existing: seq<Clan>, rows: seq<CleanRow>, nameIdx: nat, regionIdx: Option<nat>,
                            freshId: nat -> Id, k: nat)
    requires forall i :: 0 <= i < |rows| ==> HasName(rows[i].cells, nameIdx)
    ensures var s := Stage(existing, rows, nameIdx, regionIdx, freshId, k);
      s.Some? ==> forall c :: c in s.value ==>
        c.name != "" && Trim(c.name) == c.name && Trim(c.region) == c.region
  {
    StageMatchesNewRows(existing, rows, nameIdx, regionIdx, freshId, k);
    var s := Stage(existing, rows, nameIdx, regionIdx, freshId, k);
    if s.Some? && regionIdx.Some? {
      var n := NewRows(existing, rows, nameIdx);
      NewRowsMembers(existing, rows, nameIdx);
      forall c | c in s.value ensures c.name != "" && Trim(c.name) == c.name && Trim(c.region) == c.region {
        var j :| 0 <= j < |s.value| && s.value[j] == c;
        assert n[j] in rows;
        var i :| 0 <= i < |rows| && rows[i] == n[j];
        NewClanTrimmed(n[j], nameIdx, regionIdx.value, freshId(k + j));
      }
    } else if s.Some? {
      assert s.value == [];
    }
  }

  /** A cleaned record of a three-column file: name, region and created_at. */
  function Record(name: string, region: string, at: Timestamp): CleanRow {
    CleanRow([Some(name), Some(region), Some("")], at)
  }

  /** Records whose raw names are all stored already add nothing, whether or
      not there is a region column. */
  lemma {:induction false} StoredNamesAreSkipped(existing: seq<Clan>, rows: seq<CleanRow>, nameIdx: nat,
                                                 regionIdx: Option<nat>, freshId: nat -> Id, k: nat)
    requires forall i :: 0 <= i < |rows| ==> NameTaken(existing, RawName(rows[i], nameIdx))
    ensures Stage(existing, rows, nameIdx, regionIdx, freshId, k) == Some([])
  {
    if rows != [] {
      assert forall i :: 1 <= i < |rows| ==> rows[1..][i - 1] == rows[i];
      StoredNamesAreSkipped(existing, rows[1..], nameIdx, regionIdx, freshId, k);
    }
  }

  /** When no record's raw name is stored, every record is a candidate:
      names repeated within the file are not detected. */
  lemma {:induction false} NewRowsAllNew(existing: seq<Clan>, rows: seq<CleanRow>, nameIdx: nat)
    requires forall i :: 0 <= i < |rows| ==> !NameTaken(existing, RawName(rows[i], nameIdx))
    ensures NewRows(existing, rows, nameIdx) == rows
  {
    if rows != [] {
      assert forall i :: 1 <= i < |rows| ==> rows[1..][i - 1] == rows[i];
      NewRowsAllNew(existing, rows[1..], nameIdx);
      assert rows == [rows[0]] + rows[1..];
    }
  }

  /** With a region column, records whose names are not stored are all
      staged, one clan each in file order, even when they share a name. */
  lemma NewNamesAllStaged(existing: seq<Clan>, rows: seq<CleanRow>, nameIdx: nat, regionIdx: nat,
                          freshId: nat -> Id, k: nat)
    requires forall i :: 0 <= i < |rows| ==> !NameTaken(existing, RawName(rows[i], nameIdx))
    ensures var s := Stage(existing, rows, nameIdx, Some(regionIdx), freshId, k);
      s.Some? && |s.value| == |rows|
      && forall j :: 0 <= j < |rows| ==> s.value[j] == NewClan(rows[j], nameIdx, regionIdx, freshId(k + j))
  {
    NewRowsAllNew(existing, rows, nameIdx);
    StageWithRegion(existing, rows, nameIdx, regionIdx, freshId, k);
  }

  /** A file row named like a stored clan adds nothing. */
  lemma ReingestingIsSkipped(id: Id, at: Timestamp, freshId: nat -> Id)
    ensures Stage([Clan(id, "Alpha", "EU", at)], [Record("Alpha", "US", at)], 0, Some(1), freshId, 0) == Some([])
  {
    var existing, rows := [Clan(id, "Alpha", "EU", at)], [Record("Alpha", "US", at)];
    assert RawName(rows[0], 0) == "Alpha";
    assert existing[0].name == "Alpha";
    StoredNamesAreSkipped(existing, rows, 0, Some(1), freshId, 0);
  }

  /** Duplicates are only looked up among the rows stored before the run,
      so two new records with one name are both staged. */
  lemma SameNameTwiceInOneFile(at: Timestamp, freshId: nat -> Id)
    ensures var s := Stage([], [Record("Alpha", "EU", at), Record("Alpha", "US", at)], 0, Some(1), freshId, 0);
      s.Some? && |s.value| == 2 && s.value[0].name == "Alpha" && s.value[1].name == "Alpha"
  {
    var rows := [Record("Alpha", "EU", at), Record("Alpha", "US", at)];
    assert RawName(rows[0], 0) == "Alpha" && RawName(rows[1], 0) == "Alpha";
    assert !NameTaken([], "Alpha");
    TrimUnpadded("Alpha");
    NewNamesAllStaged([], rows, 0, 1, freshId, 0);
  }

  /** The duplicate check compares the untrimmed name with the stored,
      trimmed ones, so a padded copy of a stored name is inserted again. */
  lemma PaddedNameIsNotADuplicate(id: Id, at: Timestamp, freshId: nat -> Id)
    ensures var s := Stage([Clan(id, "Alpha", "EU", at)], [Record(" Alpha", "EU", at)], 0, Some(1), freshId, 0);
      s.Some? && |s.value| == 1 && s.value[0].name == "Alpha"
  {
    var existing := [Clan(id, "Alpha", "EU", at)];
    assert !NameTaken(existing, " Alpha") by {
      assert existing[0].name != " Alpha" by { assert " Alpha"[0] != "Alpha"[0]; }
    }
    assert Trim(" Alpha") == "Alpha" by { assert TrimStart(" Alpha") == " Alpha"[1..]; }
  }

  // ---------------------------------------------------------------------
  // The run

  /** How a run ends. */
  datatype SeedOutcome =
    | ReadFailed                          // the file could not be read; the run returns
    | Raised(error: SeedError)            // an uncaught error before the session opens
    | RolledBack                          // an error inside the transaction; it is rolled back
    | Inserted(count: nat, dropped: nat)  // committed: clans inserted, records dropped

  /** One step of the insertion loop: the record at `i` is skipped, fails
      the run, or contributes the next clan. */
  lemma StageStep(existing: seq<Clan>, rows: seq<CleanRow>, i: nat, nameIdx: nat, regionIdx: Option<nat>,
                  freshId: nat -> Id, k: nat)
    requires i < |rows|
    ensures Stage(existing, rows[i..], nameIdx, regionIdx, freshId, k) ==
      if NameTaken(existing, RawName(rows[i], nameIdx)) then Stage(existing, rows[i + 1..], nameIdx, regionIdx, freshId, k)
      else if regionIdx.None? then None
      else Prepend([NewClan(rows[i], nameIdx, regionIdx.value, freshId(k))],
                   Stage(existing, rows[i + 1..], nameIdx, regionIdx, freshId, k + 1))
  {
    assert rows[i..][0] == rows[i] && rows[i..][1..] == rows[i + 1..];
  }

  lemma PrependPrepend(a: seq<Clan>, b: seq<Clan>, rest: Option<seq<Clan>>)
    ensures Prepend(a, Prepend(b, rest)) == Prepend(a + b, rest)
  {
    if rest.Some? {
      assert a + (b + rest.value) == (a + b) + rest.value;
    }
  }

  lemma PrependNothing(rest: Option<seq<Clan>>)
    ensures Prepend([], rest) == rest
  {
    if rest.Some? {
      assert [] + rest.value == rest.value;
    }
  }

  /** Appending the staged clans to the store keeps the primary key unique. */
  lemma StagedKeepsKey(existing: seq<Clan>, rows: seq<CleanRow>, nameIdx: nat, regionIdx: Option<nat>,
                       freshId: nat -> Id)
    requires UniqueIds(existing)
    requires forall i, j :: i != j ==> freshId(i) != freshId(j)
    requires forall k :: freshId(k) !in IdsOf(existing)
    ensures var s := Stage(existing, rows, nameIdx, regionIdx, freshId, 0);
      s.Some? ==> UniqueIds(existing + s.value)
  {
    var s := Stage(existing, rows, nameIdx, regionIdx, freshId, 0);
    if s.Some? {
      StagedIds(existing, rows, nameIdx, regionIdx, freshId, 0);
      forall c | c in s.value ensures c.id !in IdsOf(existing) {
        var j :| 0 <= j < |s.value| && s.value[j] == c;
        assert c.id == freshId(j);
      }
      AppendKeepsUniqueIds(existing, s.value);
    }
  }

  /** The session part of the run (the try block): stages a clan for every
      cleaned record whose raw name is not stored yet, then commits them all,
      or rolls back when a record needs the missing region column or the
      database fails. */
  method InsertCleaned(store: ClanStore, p: Cleaned, freshId: nat -> Id, dbFails: bool)
    returns (outcome: SeedOutcome)
    requires store.Valid()
    requires forall i, j :: i != j ==> freshId(i) != freshId(j)
    requires forall k :: freshId(k) !in store.Ids()
    modifies store
    ensures store.Valid()
    ensures outcome.RolledBack? || outcome.Inserted?
    ensures outcome.RolledBack? ==> store.clans == old(store.clans)
    ensures var s := Stage(old(store.clans), p.rows, p.nameIdx, ColumnIndex(p.columns, "region"), freshId, 0);
      if s.None? || dbFails then outcome == RolledBack
      else outcome == Inserted(|s.value|, p.dropped) && store.clans == old(store.clans) + s.value
  {
    var regionIdx := ColumnIndex(p.columns, "region");
    ghost var existing := store.clans;
    ghost var spec := Stage(existing, p.rows, p.nameIdx, regionIdx, freshId, 0);

    var staged: seq<Clan> := [];
    var counter := 0;
    var i := 0;
    assert p.rows[0..] == p.rows;
    PrependNothing(spec);
    while i < |p.rows|
      invariant 0 <= i <= |p.rows|
      invariant store.clans == existing
      invariant counter == |staged|
      invariant spec == Prepend(staged, Stage(existing, p.rows[i..], p.nameIdx, regionIdx, freshId, counter))
    {
      var row := p.rows[i];
      StageStep(existing, p.rows, i, p.nameIdx, regionIdx, freshId, counter);
      if NameTaken(store.clans, RawName(row, p.nameIdx)) {
        // already stored: skipped
        i := i + 1;
        continue;
      }
      if regionIdx.None? {
        // row['region'] raises KeyError: the session is rolled back
        return RolledBack;
      }
      var clan := NewClan(row, p.nameIdx, regionIdx.value, freshId(counter));
      PrependPrepend(staged, [clan], Stage(existing, p.rows[i + 1..], p.nameIdx, regionIdx, freshId, counter + 1));
      staged := staged + [clan];
      counter := counter + 1;
      i := i + 1;
    }
    assert p.rows[i..] == [];
    assert staged + [] == staged;
    if dbFails {
      return RolledBack;
    }
    assert spec == Some(staged);
    StagedKeepsKey(existing, p.rows, p.nameIdx, regionIdx, freshId);
    store.clans := store.clans + staged;
    outcome := Inserted(counter, p.dropped);
  }

  /** The whole run against the store. `csv` is the reader's result (None
      when it raised); `now`, `epoch` and `parse` stand for the clock, the
      epoch conversion and the date-string parser; `freshId(k)` is the k-th
      UUID generated; `dbFails` says whether a statement or the commit fails. */
  method CleanAndSeed(store: ClanStore, csv: Option<Table>, now: Timestamp,
                      epoch: string -> EpochConversion, parse: string -> Option<Timestamp>,
                      freshId: nat -> Id, dbFails: bool)
    returns (outcome: SeedOutcome)
    requires store.Valid()
    requires forall i, j :: i != j ==> freshId(i) != freshId(j)
    requires forall k :: freshId(k) !in store.Ids()
    modifies store
    ensures store.Valid()
    ensures !outcome.Inserted? ==> store.clans == old(store.clans)
    ensures csv.None? <==> outcome == ReadFailed
    ensures csv.Some? && Prepare(csv.value, now, epoch, parse).Err? ==>
      outcome == Raised(Prepare(csv.value, now, epoch, parse).error)
    ensures csv.Some? && Prepare(csv.value, now, epoch, parse).Ok? ==>
      var p := Prepare(csv.value, now, epoch, parse).value;
      var s := Stage(old(store.clans), p.rows, p.nameIdx, ColumnIndex(p.columns, "region"), freshId, 0);
      if s.None? || dbFails then outcome == RolledBack
      else outcome == Inserted(|s.value|, p.dropped) && store.clans == old(store.clans) + s.value
  {
    if csv.None? {
      return ReadFailed;
    }
    var prepared := Prepare(csv.value, now, epoch, parse);
    if prepared.Err? {
      return Raised(prepared.error);
    }
    outcome := InsertCleaned(store, prepared.value, freshId, dbFails);
  }
}
