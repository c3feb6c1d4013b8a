/**
 * What `FileLoader.LoadList` promises about the file it reads: the records are
 * the well-formed data lines up to the first line with a wrong field count, in
 * file order; a line whose numbers do not parse is skipped without stopping the
 * load; a line with a wrong field count ends it; and a file written one record
 * per line loads back as those records.
 */
module LoaderProperties {
  import opened Wrappers
  import opened Sequences
  import opened Strings
  import opened Int32Text
  import opened Playlist
  import opened FileLoader

  predicate IsParsed(r: Row)
  {
    r.Parsed?
  }

  predicate IsInvalid(r: Row)
  {
    r.InvalidNumber?
  }

  /** The first row at or after `lo` with a wrong field count, or `|rows|` when there is none. */
  function FirstMisshapen(rows: seq<Row>, lo: nat): (e: nat)
    requires lo <= |rows|
    ensures lo <= e <= |rows|
    ensures e < |rows| ==> rows[e].WrongShape?
    ensures forall k :: lo <= k < e ==> !rows[k].WrongShape?
    decreases |rows| - lo
  {
    if lo == |rows| || rows[lo].WrongShape? then lo else FirstMisshapen(rows, lo + 1)
  }

  /** The positions in `[lo, hi)` of the rows that `keep` accepts, in increasing order. */
  function RowsWhere(rows: seq<Row>, lo: nat, hi: nat, keep: Row -> bool): (idx: seq<nat>)
    requires lo <= hi <= |rows|
    ensures forall i :: 0 <= i < |idx| ==> lo <= idx[i] < hi && keep(rows[idx[i]])
    ensures forall i, j :: 0 <= i < j < |idx| ==> idx[i] < idx[j]
    ensures forall k :: lo <= k < hi && keep(rows[k]) ==> k in idx
    decreases hi - lo
  {
    if lo == hi then []
    else (if keep(rows[lo]) then [lo] else []) + RowsWhere(rows, lo + 1, hi, keep)
  }

  lemma RowsWhereStep(rows: seq<Row>, lo: nat, hi: nat, keep: Row -> bool)
    requires lo < hi <= |rows|
    ensures keep(rows[lo]) ==> RowsWhere(rows, lo, hi, keep) == [lo] + RowsWhere(rows, lo + 1, hi, keep)
    ensures !keep(rows[lo]) ==> RowsWhere(rows, lo, hi, keep) == RowsWhere(rows, lo + 1, hi, keep)
  {
    assert [] + RowsWhere(rows, lo + 1, hi, keep) == RowsWhere(rows, lo + 1, hi, keep);
  }

  /** The records of the parsed rows in `[lo, hi)`, in row order. */
  function Records(rows: seq<Row>, lo: nat, hi: nat): (music: seq<PlaylistInfo>)
    requires lo <= hi <= |rows|
    ensures |music| == |RowsWhere(rows, lo, hi, IsParsed)|
    ensures forall i :: 0 <= i < |music| ==>
              rows[RowsWhere(rows, lo, hi, IsParsed)[i]] == Parsed(music[i])
    decreases hi - lo
  {
    if lo == hi then []
    else
      var rest := Records(rows, lo + 1, hi);
      if rows[lo].Parsed? then
        assert RowsWhere(rows, lo, hi, IsParsed) == [lo] + RowsWhere(rows, lo + 1, hi, IsParsed);
        [rows[lo].info] + rest
      else
        assert RowsWhere(rows, lo, hi, IsParsed) == RowsWhere(rows, lo + 1, hi, IsParsed);
        rest
  }

  /**
   * The load from data row `row` on, described without the loop: the records
   * of the parsed rows before the first row with a wrong field count, the
   * positions of the rows with a bad number before it, and that row, if any,
   * as the ending.
   */
  function Described(rows: seq<Row>, row: nat): Load
    requires row <= |rows|
  {
    var e := FirstMisshapen(rows, row);
    Load(Records(rows, row, e), RowsWhere(rows, row, e, IsInvalid),
         if e < |rows| then ShapeMismatch(e, rows[e].count) else EndOfStream)
  }

  /** A row that does not end the load puts its own contribution in front of the description of the rest. */
  lemma DescribedStep(rows: seq<Row>, row: nat)
    requires 1 <= row < |rows| && !rows[row].WrongShape?
    ensures rows[row].InvalidNumber? ==> Described(rows, row) == Described(rows, row + 1).PrecededBy([], [row])
    ensures rows[row].Parsed? ==> Described(rows, row) == Described(rows, row + 1).PrecededBy([rows[row].info], [])
  {
    var e := FirstMisshapen(rows, row);
    assert e == FirstMisshapen(rows, row + 1);
    RowsWhereStep(rows, row, e, IsInvalid);
    var later := Described(rows, row + 1);
    if rows[row].InvalidNumber? {
      assert Records(rows, row, e) == Records(rows, row + 1, e);
      assert [] + later.music == later.music;
    } else {
      assert !IsInvalid(rows[row]);
      assert Records(rows, row, e) == [rows[row].info] + Records(rows, row + 1, e);
      assert [] + later.skipped == later.skipped;
    }
  }

  /** The loop and the description agree. */
  lemma {:induction false} ScanExactly(rows: seq<Row>, row: nat)
    requires 1 <= row <= |rows|
    ensures Scan(rows, row) == Described(rows, row)
    decreases |rows| - row
  {
    if row < |rows| && !rows[row].WrongShape? {
      ScanExactly(rows, row + 1);
      DescribedStep(rows, row);
    }
  }

  /** `origin[i]` is the line that record `i` was read from; the lines are data lines, in file order. */
  predicate Origin(lines: seq<string>, music: seq<PlaylistInfo>, origin: seq<nat>)
  {
    && |origin| == |music|
    && (forall i :: 0 <= i < |origin| ==>
          1 <= origin[i] < |lines| && Holds(Split(lines[origin[i]], Tab), music[i]))
    && (forall i, j :: 0 <= i < j < |origin| ==> origin[i] < origin[j])
  }

  /**
   * Every loaded record comes from its own data line, whose text columns it
   * holds verbatim and whose numeric columns it holds parsed, and the records
   * keep the order of their lines.
   */
  lemma LoadedRecordsComeFromLines(lines: seq<string>)
    ensures exists origin :: Origin(lines, Loaded(Some(lines)).music, origin)
  {
    var music := Loaded(Some(lines)).music;
    if |lines| == 0 {
      assert Origin(lines, music, []);
    } else {
      var rows := ParseRows(lines);
      var e := FirstMisshapen(rows, 1);
      ScanExactly(rows, 1);
      var origin := RowsWhere(rows, 1, e, IsParsed);
      forall i | 0 <= i < |origin|
        ensures 1 <= origin[i] < |lines| && Holds(Split(lines[origin[i]], Tab), music[i])
      {
        ParseRowsAt(lines, origin[i]);
        ParseRowSpec(lines[origin[i]]);
      }
      assert Origin(lines, music, origin);
    }
  }

  /**
   * Conversely, a data line that holds a record is loaded when no earlier data
   * line has a wrong field count.
   */
  lemma LoadedKeepsRecordBeforeTheCut(lines: seq<string>, k: nat, p: PlaylistInfo)
    requires 1 <= k < |lines|
    requires forall j :: 1 <= j < k ==> |Split(lines[j], Tab)| == ItemsInRow
    requires Holds(Split(lines[k], Tab), p)
    ensures p in Loaded(Some(lines)).music
  {
    var rows := ParseRows(lines);
    assert rows[k] == Parsed(p) by {
      ParseRowsAt(lines, k);
      ParseRowSpec(lines[k]);
    }
    NoCutBefore(lines, k);
    var e := FirstMisshapen(rows, 1);
    assert k < e;
    ScanExactly(rows, 1);
    var idx := RowsWhere(rows, 1, e, IsParsed);
    assert IsParsed(rows[k]);
    var i :| 0 <= i < |idx| && idx[i] == k;
    var music := Records(rows, 1, e);
    assert Loaded(Some(lines)).music == music by {
      assert Loaded(Some(lines)) == Scan(rows, 1);
    }
    assert rows[idx[i]] == Parsed(music[i]);
    assert music[i] == p;
  }

  /** Only the rows from `i` on decide which records the load from `i` returns. */
  lemma {:induction false} ScanMusicDependsOnRest(a: seq<Row>, i: nat, b: seq<Row>, j: nat)
    requires 1 <= i <= |a| && 1 <= j <= |b|
    requires a[i..] == b[j..]
    ensures Scan(a, i).music == Scan(b, j).music
    decreases |a| - i
  {
    if i < |a| {
      assert a[i] == a[i..][0] == b[j..][0] == b[j];
      assert a[i + 1..] == a[i..][1..] == b[j..][1..] == b[j + 1..];
      ScanMusicDependsOnRest(a, i + 1, b, j + 1);
    }
  }

  /** Removing a row with a bad number from the rows still to be read leaves the records unchanged. */
  lemma {:induction false} ScanSkipsInvalid(rows: seq<Row>, row: nat, k: nat)
    requires 1 <= row <= k < |rows|
    requires rows[k].InvalidNumber?
    ensures Scan(rows, row).music == Scan(rows[..k] + rows[k + 1..], row).music
    decreases k - row
  {
    var rest := rows[..k] + rows[k + 1..];
    assert |rest| == |rows| - 1;
    if row == k {
      assert rows[k + 1..] == rest[k..];
      ScanMusicDependsOnRest(rows, k + 1, rest, k);
      var later := Scan(rows, k + 1);
      assert [] + later.music == later.music;
    } else {
      assert rest[row] == rows[row];
      ScanSkipsInvalid(rows, row + 1, k);
    }
  }

  /** `ParseRows` reads each line on its own. */
  lemma ParseRowsOfParts(lines: seq<string>, k: nat)
    requires k < |lines|
    ensures ParseRows(lines[..k] + lines[k + 1..]) == ParseRows(lines)[..k] + ParseRows(lines)[k + 1..]
  {
    MapSeqRemove(ParseRow, lines, k);
  }

  /** Data lines with eight fields each read as rows that do not end the load. */
  lemma NoCutBefore(lines: seq<string>, k: nat)
    requires k <= |lines|
    requires forall j :: 1 <= j < k ==> |Split(lines[j], Tab)| == ItemsInRow
    ensures forall j :: 1 <= j < k ==> !ParseRows(lines)[j].WrongShape?
  {
    forall j | 1 <= j < k
      ensures !ParseRows(lines)[j].WrongShape?
    {
      ParseRowsAt(lines, j);
      ParseRowSpec(lines[j]);
    }
  }

  /**
   * A data line with eight fields and a number that does not parse is skipped
   * and the load goes on: the file loads the same records without it.
   */
  lemma InvalidLineIsSkipped(lines: seq<string>, k: nat)
    requires 1 <= k < |lines|
    requires |Split(lines[k], Tab)| == ItemsInRow
    requires exists c :: 4 <= c < ItemsInRow && ParseInt32(Split(lines[k], Tab)[c]).None?
    ensures Loaded(Some(lines)).music == Loaded(Some(lines[..k] + lines[k + 1..])).music
  {
    ParseRowsAt(lines, k);
    ParseRowSpec(lines[k]);
    ScanSkipsInvalid(ParseRows(lines), 1, k);
    ParseRowsOfParts(lines, k);
  }

  /** Such a line has its row number reported, unless an earlier line cut the load short. */
  lemma InvalidLineIsReported(lines: seq<string>, k: nat)
    requires 1 <= k < |lines|
    requires |Split(lines[k], Tab)| == ItemsInRow
    requires exists c :: 4 <= c < ItemsInRow && ParseInt32(Split(lines[k], Tab)[c]).None?
    requires forall j :: 1 <= j < k ==> |Split(lines[j], Tab)| == ItemsInRow
    ensures k in Loaded(Some(lines)).skipped
  {
    var rows := ParseRows(lines);
    ParseRowsAt(lines, k);
    ParseRowSpec(lines[k]);
    NoCutBefore(lines, k);
    var e := FirstMisshapen(rows, 1);
    assert k < e;
    ScanExactly(rows, 1);
    assert IsInvalid(rows[k]);
  }

  /** Two row sequences that agree up to a row with a wrong field count load the same. */
  lemma {:induction false} ScanStopsAtMisshapen(a: seq<Row>, b: seq<Row>, row: nat, k: nat)
    requires 1 <= row <= k < |a| && k < |b|
    requires a[k].WrongShape?
    requires forall j :: row <= j <= k ==> a[j] == b[j]
    ensures Scan(a, row) == Scan(b, row)
    decreases k - row
  {
    if row < k {
      ScanStopsAtMisshapen(a, b, row + 1, k);
    }
  }

  /**
   * A data line without eight tab-separated fields ends the load: whatever
   * follows it is never read, and, when it is the first such line, the load
   * reports it with its field count.
   */
  lemma MisshapenLineEndsLoad(lines: seq<string>, k: nat, rest: seq<string>)
    requires 1 <= k < |lines|
    requires |Split(lines[k], Tab)| != ItemsInRow
    ensures Loaded(Some(lines)) == Loaded(Some(lines[..k + 1] + rest))
    ensures (forall j :: 1 <= j < k ==> |Split(lines[j], Tab)| == ItemsInRow) ==>
              Loaded(Some(lines)).ending == ShapeMismatch(k, |Split(lines[k], Tab)|)
  {
    var other := lines[..k + 1] + rest;
    var a, b := ParseRows(lines), ParseRows(other);
    forall j | 1 <= j <= k
      ensures a[j] == b[j] == ParseRow(lines[j])
    {
      ParseRowsAt(lines, j);
      ParseRowsAt(other, j);
      assert other[j] == lines[j];
    }
    ParseRowSpec(lines[k]);
    ScanStopsAtMisshapen(a, b, 1, k);
    if forall j :: 1 <= j < k ==> |Split(lines[j], Tab)| == ItemsInRow {
      NoCutBefore(lines, k);
      assert FirstMisshapen(a, 1) == k;
      ScanExactly(a, 1);
    }
  }

  /** A text that `ReadLine` returns whole: it holds no line break. */
  predicate OnOneLine(s: string)
  {
    '\n' !in s && '\r' !in s
  }

  /** A text column that can be written into a data line: no tab, no line break. */
  predicate PlainField(s: string)
  {
    Tab !in s && OnOneLine(s)
  }

  /** A record whose text columns can be written as one data line. */
  predicate Writable(p: PlaylistInfo)
  {
    PlainField(p.name) && PlainField(p.artist) && PlainField(p.album) && PlainField(p.genre)
  }

  /** The eight columns of a record as a data line holds them. */
  function Columns(p: PlaylistInfo): seq<string>
  {
    [p.name, p.artist, p.album, p.genre,
     IntToString(p.size as int), IntToString(p.time as int),
     IntToString(p.year as int), IntToString(p.plays as int)]
  }

  /** A record as a tab-separated data line. */
  function FormatRow(p: PlaylistInfo): string
  {
    Join(Columns(p), Tab)
  }

  /** Records written one per line after a header. */
  function FormatFile(header: string, music: seq<PlaylistInfo>): (lines: seq<string>)
    ensures |lines| == |music| + 1
  {
    [header] + seq(|music|, i requires 0 <= i < |music| => FormatRow(music[i]))
  }

  /** A rendered number holds neither a tab nor a line break. */
  lemma NumberIsPlain(n: int)
    ensures PlainField(IntToString(n))
  {
    var s := IntToString(n);
    if n >= 0 {
      assert IsDigit(NatToString(n)[0]);
    }
    assert forall i :: 0 <= i < |s| ==> s[i] == '-' || IsDigit(s[i]);
  }

  /** Every line of a written file is a single line, so reading the file gives these lines back. */
  lemma FormattedLinesAreLines(header: string, music: seq<PlaylistInfo>)
    requires OnOneLine(header)
    requires forall i :: 0 <= i < |music| ==> Writable(music[i])
    ensures forall k :: 0 <= k < |FormatFile(header, music)| ==> OnOneLine(FormatFile(header, music)[k])
  {
    var lines := FormatFile(header, music);
    forall k | 1 <= k < |lines|
      ensures OnOneLine(lines[k])
    {
      var p := music[k - 1];
      assert lines[k] == FormatRow(p);
      NumberIsPlain(p.size as int);
      NumberIsPlain(p.time as int);
      NumberIsPlain(p.year as int);
      NumberIsPlain(p.plays as int);
      var columns := Columns(p);
      assert forall i :: 0 <= i < |columns| ==> PlainField(columns[i]);
      JoinAvoids(columns, Tab, '\n');
      JoinAvoids(columns, Tab, '\r');
    }
  }

  /** A written line reads back as the record it was written from. */
  lemma ParseFormatRow(p: PlaylistInfo)
    requires Writable(p)
    ensures ParseRow(FormatRow(p)) == Parsed(p)
  {
    var columns := Columns(p);
    assert Split(FormatRow(p), Tab) == columns by {
      NumberIsPlain(p.size as int);
      NumberIsPlain(p.time as int);
      NumberIsPlain(p.year as int);
      NumberIsPlain(p.plays as int);
      assert forall i :: 0 <= i < |columns| ==> Tab !in columns[i];
      SplitJoin(columns, Tab);
    }
    assert Holds(columns, p) by {
      ParseIntToString(p.size);
      ParseIntToString(p.time);
      ParseIntToString(p.year);
      ParseIntToString(p.plays);
    }
    ParseRowSpec(FormatRow(p));
  }

  lemma {:induction false} ScanOfParsed(rows: seq<Row>, row: nat, music: seq<PlaylistInfo>)
    requires 1 <= row <= |rows|
    requires |music| == |rows| - row
    requires forall i :: 0 <= i < |music| ==> rows[row + i] == Parsed(music[i])
    ensures Scan(rows, row) == Load(music, [], EndOfStream)
    decreases |music|
  {
    if music != [] {
      ScanOfParsed(rows, row + 1, music[1..]);
      assert [music[0]] + music[1..] == music;
    }
  }

  lemma FormattedRowAt(header: string, music: seq<PlaylistInfo>, i: nat)
    requires i < |music| && Writable(music[i])
    ensures ParseRows(FormatFile(header, music))[1 + i] == Parsed(music[i])
  {
    var lines := FormatFile(header, music);
    assert lines[1 + i] == FormatRow(music[i]);
    ParseRowsAt(lines, 1 + i);
    ParseFormatRow(music[i]);
  }

  /**
   * Records written one per line after a one-line header load back exactly,
   * with nothing skipped.
   */
  lemma LoadFormatted(header: string, music: seq<PlaylistInfo>)
    requires OnOneLine(header)
    requires forall i :: 0 <= i < |music| ==> Writable(music[i])
    ensures Loaded(Some(FormatFile(header, music))) == Load(music, [], EndOfStream)
  {
    var rows := ParseRows(FormatFile(header, music));
    forall i | 0 <= i < |music|
      ensures rows[1 + i] == Parsed(music[i])
    {
      FormattedRowAt(header, music, i);
    }
    ScanOfParsed(rows, 1, music);
  }
}
