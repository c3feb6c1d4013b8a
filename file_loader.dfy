/**
 * `FileLoader.LoadList`: turns the lines of a tab-separated playlist file into
 * records. The first line is a header and is never looked at. A data line
 * whose tab-split field count is not eight raises an exception that the
 * method's outer handler catches, so loading stops there and the records built
 * so far are returned. A line with eight fields whose size, time, year or
 * plays column does not parse is skipped and loading goes on. A file that
 * cannot be opened gives no records.
 *
 * The file is given as its sequence of lines (`None` when it cannot be opened).
 * The result carries, besides the records, the row numbers of the skipped
 * lines and how the load ended: these are what the method reports on the
 * console ("ERROR! Invalid input file format." per skipped row, "ERROR! No file
 * found." when the load is cut short or the file is missing).
 */
module FileLoader {
  import opened Wrappers
  import opened Sequences
  import opened Strings
  import opened Int32Text
  import opened Playlist

  const ItemsInRow: nat := 8
  const Tab: char := '\t'

  /** What one data line turns into. */
  datatype Row = Parsed(info: PlaylistInfo) | InvalidNumber | WrongShape(count: nat)

  /** `p` holds the eight `values` of a line: text columns verbatim, numeric columns parsed. */
  predicate Holds(values: seq<string>, p: PlaylistInfo)
  {
    && |values| == ItemsInRow
    && p.name == values[0] && p.artist == values[1] && p.album == values[2] && p.genre == values[3]
    && ParseInt32(values[4]) == Some(p.size)
    && ParseInt32(values[5]) == Some(p.time)
    && ParseInt32(values[6]) == Some(p.year)
    && ParseInt32(values[7]) == Some(p.plays)
  }

  /**
   * The inner `try` block of the load loop: the record built from eight values,
   * or `None` where one of the four `Int32.Parse` calls throws.
   */
  function ParseFields(values: seq<string>): Option<PlaylistInfo>
    requires |values| == ItemsInRow
  {
    var size, time, year, plays :=
      ParseInt32(values[4]), ParseInt32(values[5]), ParseInt32(values[6]), ParseInt32(values[7]);
    if size.Some? && time.Some? && year.Some? && plays.Some? then
      Some(PlaylistInfo(values[0], values[1], values[2], values[3],
                        size.value, time.value, year.value, plays.value))
    else
      None
  }

  /**
   * The record built from eight values is the one record they hold, and there
   * is none exactly when one of the four numeric fields fails to parse.
   */
  lemma ParseFieldsSpec(values: seq<string>)
    requires |values| == ItemsInRow
    ensures ParseFields(values).Some? ==> Holds(values, ParseFields(values).value)
    ensures forall p :: Holds(values, p) ==> ParseFields(values) == Some(p)
    ensures ParseFields(values).None? <==>
              exists k :: 4 <= k < ItemsInRow && ParseInt32(values[k]).None?
  {
    if ParseInt32(values[4]).None? {
      assert 4 < ItemsInRow;
    } else if ParseInt32(values[5]).None? {
      assert 5 < ItemsInRow;
    } else if ParseInt32(values[6]).None? {
      assert 6 < ItemsInRow;
    } else if ParseInt32(values[7]).None? {
      assert 7 < ItemsInRow;
    } else {
      forall k | 4 <= k < ItemsInRow ensures ParseInt32(values[k]).Some? {
        assert k == 4 || k == 5 || k == 6 || k == 7;
      }
    }
  }

  /** One pass of the load loop's body over a data line. */
  function ParseRow(line: string): Row
  {
    var values := Split(line, Tab);
    if |values| != ItemsInRow then WrongShape(|values|)
    else
      match ParseFields(values)
      case Some(p) => Parsed(p)
      case None => InvalidNumber
  }

  /**
   * A line is cut short when it does not have eight tab-separated fields, is
   * dropped when it has eight but a numeric one does not parse, and otherwise
   * gives the one record its fields hold.
   */
  lemma ParseRowSpec(line: string)
    ensures ParseRow(line).WrongShape? <==> |Split(line, Tab)| != ItemsInRow
    ensures ParseRow(line).WrongShape? ==> ParseRow(line).count == |Split(line, Tab)|
    ensures ParseRow(line).InvalidNumber? <==>
              |Split(line, Tab)| == ItemsInRow &&
              exists k :: 4 <= k < ItemsInRow && ParseInt32(Split(line, Tab)[k]).None?
    ensures ParseRow(line).Parsed? ==> Holds(Split(line, Tab), ParseRow(line).info)
    ensures forall p :: Holds(Split(line, Tab), p) ==> ParseRow(line) == Parsed(p)
  {
    var values := Split(line, Tab);
    if |values| == ItemsInRow {
      ParseFieldsSpec(values);
    }
  }

  /** Every line read as a row; entry 0, the header's, is never consulted. */
  function ParseRows(lines: seq<string>): (rows: seq<Row>)
    ensures |rows| == |lines|
  {
    MapSeq(ParseRow, lines)
  }

  lemma ParseRowsAt(lines: seq<string>, i: nat)
    requires i < |lines|
    ensures ParseRows(lines)[i] == ParseRow(lines[i])
  {
    MapSeqAt(ParseRow, lines, i);
  }

  /** How a load ended. */
  datatype Ending =
    | EndOfStream                          // every data line was read
    | ShapeMismatch(row: nat, count: nat)  // data row `row` had `count` fields, not eight
    | FileNotFound                         // the file could not be opened

  /** Outcome of a load: the records in file order, the row numbers skipped for a bad number, the ending. */
  datatype Load = Load(music: seq<PlaylistInfo>, skipped: seq<nat>, ending: Ending)
  {
    /** This outcome, with the records and skips of earlier rows in front. */
    function PrecededBy(music': seq<PlaylistInfo>, skipped': seq<nat>): Load
    {
      Load(music' + music, skipped' + skipped, ending)
    }
  }

  /** Records put in front in two steps, or in one. */
  lemma PrecededByTwice(l: Load, m1: seq<PlaylistInfo>, s1: seq<nat>, m2: seq<PlaylistInfo>, s2: seq<nat>)
    ensures l.PrecededBy(m2, s2).PrecededBy(m1, s1) == l.PrecededBy(m1 + m2, s1 + s2)
  {
    assert m1 + (m2 + l.music) == (m1 + m2) + l.music;
    assert s1 + (s2 + l.skipped) == (s1 + s2) + l.skipped;
  }

  /** Number of entries of `s` from index `from` on. */
  function Remaining<T>(s: seq<T>, from: nat): nat
  {
    if from <= |s| then |s| - from else 0
  }

  /**
   * The load loop from data row `row` on. Index `k` of `rows` is line `k` of the
   * file, and, the header being line 0, data row `k` as the loop's
   * `currentLine` counts them.
   */
  function Scan(rows: seq<Row>, row: nat): (l: Load)
    requires row >= 1
    ensures l.ending.EndOfStream? || l.ending.ShapeMismatch?
    ensures l.ending.EndOfStream? ==> |l.music| + |l.skipped| == Remaining(rows, row)
    ensures l.ending.ShapeMismatch? ==>
              && row <= l.ending.row < |rows|
              && rows[l.ending.row] == WrongShape(l.ending.count)
              && |l.music| + |l.skipped| == l.ending.row - row
    ensures forall k :: 0 <= k < |l.skipped| ==>
              row <= l.skipped[k] < |rows| && rows[l.skipped[k]] == InvalidNumber
    decreases |rows| - row
  {
    if row >= |rows| then Load([], [], EndOfStream)
    else
      match rows[row]
      case WrongShape(n) => Load([], [], ShapeMismatch(row, n))
      case InvalidNumber => Scan(rows, row + 1).PrecededBy([], [row])
      case Parsed(p) => Scan(rows, row + 1).PrecededBy([p], [])
  }

  /** One turn of the load loop: how the outcome still to come depends on the next row. */
  lemma ScanStep(rows: seq<Row>, row: nat, music: seq<PlaylistInfo>, skipped: seq<nat>)
    requires 1 <= row < |rows|
    ensures rows[row].WrongShape? ==>
              Scan(rows, row).PrecededBy(music, skipped)
              == Load(music, skipped, ShapeMismatch(row, rows[row].count))
    ensures rows[row].InvalidNumber? ==>
              Scan(rows, row).PrecededBy(music, skipped)
              == Scan(rows, row + 1).PrecededBy(music, skipped + [row])
    ensures rows[row].Parsed? ==>
              Scan(rows, row).PrecededBy(music, skipped)
              == Scan(rows, row + 1).PrecededBy(music + [rows[row].info], skipped)
  {
    match rows[row]
    case WrongShape(n) =>
      assert music + [] == music && skipped + [] == skipped;
    case InvalidNumber =>
      PrecededByTwice(Scan(rows, row + 1), music, skipped, [], [row]);
      assert music + [] == music;
    case Parsed(p) =>
      PrecededByTwice(Scan(rows, row + 1), music, skipped, [p], []);
      assert skipped + [] == skipped;
  }

  /**
   * The load loop as it runs: `music` and `skipped` are what the rows before
   * `row` contributed, and the result is what the method returns.
   */
  function Run(rows: seq<Row>, row: nat, music: seq<PlaylistInfo>, skipped: seq<nat>): Load
    decreases |rows| - row
  {
    if row >= |rows| then Load(music, skipped, EndOfStream)
    else
      match rows[row]
      case WrongShape(n) => Load(music, skipped, ShapeMismatch(row, n))
      case InvalidNumber => Run(rows, row + 1, music, skipped + [row])
      case Parsed(p) => Run(rows, row + 1, music + [p], skipped)
  }

  /** The running loop and the recursive description agree. */
  lemma {:induction false} RunIsScan(rows: seq<Row>, row: nat, music: seq<PlaylistInfo>, skipped: seq<nat>)
    requires row >= 1
    ensures Run(rows, row, music, skipped) == Scan(rows, row).PrecededBy(music, skipped)
    decreases |rows| - row
  {
    if row >= |rows| {
      assert music + [] == music && skipped + [] == skipped;
    } else {
      ScanStep(rows, row, music, skipped);
      match rows[row]
      case WrongShape(n) =>
      case InvalidNumber => RunIsScan(rows, row + 1, music, skipped + [row]);
      case Parsed(p) => RunIsScan(rows, row + 1, music + [p], skipped);
    }
  }

  /** What `LoadList` returns and reports for a file. */
  function Loaded(file: Option<seq<string>>): (l: Load)
    ensures l.ending.FileNotFound? <==> file.None?
    ensures file.None? ==> l.music == [] && l.skipped == []
    ensures file.Some? ==> |l.music| + |l.skipped| <= Remaining(file.value, 1)
    ensures file.Some? && l.ending.EndOfStream? ==>
              |l.music| == Remaining(file.value, 1) - |l.skipped|
  {
    match file
    case None => Load([], [], FileNotFound)
    case Some(lines) => Scan(ParseRows(lines), 1)
  }

  /** `FileLoader.LoadList`, with the stream replaced by the file's lines. */
  method LoadList(file: Option<seq<string>>) returns (result: Load)
    ensures result == Loaded(file)
  {
    var music: seq<PlaylistInfo> := [];
    var skipped: seq<nat> := [];
    if file.None? {
      return Load(music, skipped, FileNotFound);
    }
    var lines := file.value;
    ghost var rows := ParseRows(lines);
    ghost var whole := Run(rows, 1, [], []);
    assert whole == Loaded(file) by {
      RunIsScan(rows, 1, [], []);
      var l := Scan(rows, 1);
      assert [] + l.music == l.music && [] + l.skipped == l.skipped;
    }
    // lines[0], the header, is read and dropped
    var currentLine := 0;
    while currentLine + 1 < |lines|
      invariant currentLine == 0 || currentLine < |lines|
      invariant Run(rows, currentLine + 1, music, skipped) == whole
      decreases |lines| - currentLine
    {
      currentLine := currentLine + 1;
      ParseRowsAt(lines, currentLine);
      var values := Split(lines[currentLine], Tab);
      if |values| != ItemsInRow {
        assert rows[currentLine] == WrongShape(|values|);
        // the exception raised here ends the whole load
        return Load(music, skipped, ShapeMismatch(currentLine, |values|));
      }
      var parsed := ParseFields(values);
      if parsed.Some? {
        assert rows[currentLine] == Parsed(parsed.value);
        assert Run(rows, currentLine, music, skipped) == Run(rows, currentLine + 1, music + [parsed.value], skipped);
        music := music + [parsed.value];
      } else {
        assert rows[currentLine] == InvalidNumber;
        assert Run(rows, currentLine, music, skipped) == Run(rows, currentLine + 1, music, skipped + [currentLine]);
        skipped := skipped + [currentLine];
      }
    }
    return Load(music, skipped, EndOfStream);
  }
}
