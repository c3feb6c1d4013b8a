# Music Playlist Analyzer, modelled in Dafny

Music Playlist Analyzer reads a playlist exported as a tab-separated text file.
The file has a header line, then one data line per song. Each data line has eight
columns: name, artist, album, genre, size, time, year and plays. The program
writes a plain-text report that answers seven fixed questions about the songs.

This project models the two parts of `Program.cs` that do the work:

- `FileLoader.LoadList` turns the lines of the file into `PlaylistInfo` records
  (module `FileLoader`, in `file_loader.dfy`). It is modelled as a method with
  the source's loop. The method is proved equal to the function `Loaded`.
  What `LoadList` promises is proved about `Loaded` in module `LoaderProperties`
  (`loader_properties.dfy`):
  - where each record comes from;
  - what a line with a bad number does;
  - what a line with a wrong field count does;
  - the write-then-load round trip.
- `CreateReportOutput.CreateReport` builds the report text (module
  `ReportOutput`, in `report_output.dfy`).
  - Each LINQ query is a `Filter` applied by the function `Where`.
  - The whole text is the function `ReportText`.
  - The method `CreateReport` appends the text piece by piece, with a loop for
    each `foreach`, and is proved to produce `ReportText`.

Supporting modules:

- `Playlist`: the `PlaylistInfo` class (`Program.cs` lines 9-31), as a datatype
  with the same eight fields. The source only ever sets its fields in the
  constructor, so a value type models it. `FileLoader.Holds` says which record a
  data line holds.
- `Strings`: .NET's `String.Split(char)` and a `Join` that undoes it.
- `Int32Text`: the 32-bit integer type. It also holds the part of `Int32.Parse`
  the loader relies on, and `int.ToString()`.
- `Sequences`: a generic map over sequences.
- `Wrappers`: `Option`.

The file is given to `LoadList` as its sequence of lines, or as `None` when it
cannot be opened. Line 0 is the header. Data rows are numbered from 1, the way
the loop's `currentLine` counts them.

The source writes messages to the console. The model turns them into part of the
result, a `Load`, which holds:

- the records;
- the row numbers that printed "ERROR! Invalid input file format.";
- how the load ended: every line read, a row with the wrong field count, or no
  file. The last two print "ERROR! No file found.".

The model follows the code wherever the code's behaviour could be read two ways:

- A data line whose field count is not eight throws inside the `using` block. The
  outer handler of `LoadList` catches it, so the load stops at that line and the
  records read before it are returned. The model does exactly this. It neither
  aborts with no records nor skips just that line.
- The play-count section prints the play counts of the songs with 200 plays or
  more, not their names.
- The heading "Songs that recieved 200 or more plays:" has no line break, so the
  first count is printed on the heading's line. The spelling "recieved" is kept.
- `LoadList` catches every exception itself, so the error branch of `Main` around
  it is never taken. A missing file gives an empty list and the report
  "ERROR! No data found".

## Model

| member | source | states |
|---|---|---|
| Strings.Split | MusicPlaylistAnalyzer/MusicPlaylistAnalyzer/Program.cs:108 | `line.Split('\t')` gives one more field than the line has tabs, and no field holds a tab |
| Strings.JoinSplit | MusicPlaylistAnalyzer/MusicPlaylistAnalyzer/Program.cs:108 | the fields of a split, joined by the separator, give back the line exactly, so nothing is lost or reordered |
| Strings.SplitJoin | MusicPlaylistAnalyzer/MusicPlaylistAnalyzer/Program.cs:108 | splitting a join of tab-free fields gives back those fields |
| Int32Text.IntToString | MusicPlaylistAnalyzer/MusicPlaylistAnalyzer/Program.cs:171 | a rendered number starts with a minus sign exactly when the number is negative, and the rest is the numeral of its magnitude; a number that is not negative renders as digits only |
| Int32Text.NatToString | MusicPlaylistAnalyzer/MusicPlaylistAnalyzer/Program.cs:171 | the decimal numeral is non-empty and all digits, starts with 0 only for zero, and zero renders as "0" alone |
| Int32Text.DigitsOfNat | MusicPlaylistAnalyzer/MusicPlaylistAnalyzer/Program.cs:171 | reading the numeral of a natural number back gives the number |
| Int32Text.LeadingZeroIgnored | MusicPlaylistAnalyzer/MusicPlaylistAnalyzer/Program.cs:121-124 | leading zeros change neither whether a run of digits parses (`ParseMagnitude`) nor the value it gives |
| Int32Text.ParseInt32Accepts | MusicPlaylistAnalyzer/MusicPlaylistAnalyzer/Program.cs:121-124 | `ParseInt32` (`Int32.Parse`), through `ParseMagnitude` on the digits, accepts white space around the number, a leading `+` or `-` and leading zeros. It gives the value of the digits, negated after a minus sign, and throws exactly when that value does not fit 32 bits |
| Int32Text.ParseInt32Shape | MusicPlaylistAnalyzer/MusicPlaylistAnalyzer/Program.cs:121-124 | conversely, `ParseInt32` succeeds only on an optional sign and one or more digits with nothing but white space around them |
| Int32Text.ParseIntToString | MusicPlaylistAnalyzer/MusicPlaylistAnalyzer/Program.cs:121-124 | `Int32.Parse` of the rendering of any 32-bit value gives that value back |
| Int32Text.NoDigitNoNumber | MusicPlaylistAnalyzer/MusicPlaylistAnalyzer/Program.cs:121-124 | a field without a digit, such as an empty field, makes `Int32.Parse` throw |
| Int32Text.TrimStartSuffix | MusicPlaylistAnalyzer/MusicPlaylistAnalyzer/Program.cs:121-124 | skipping leading white space drops white space only, and leaves a suffix of the field that does not start with white space |
| Int32Text.TrimEndPrefix | MusicPlaylistAnalyzer/MusicPlaylistAnalyzer/Program.cs:121-124 | skipping trailing white space drops white space only, and leaves a prefix of the field that does not end with white space |
| FileLoader.ParseFieldsSpec | MusicPlaylistAnalyzer/MusicPlaylistAnalyzer/Program.cs:115-127 | `ParseFields`, the inner `try` block: the record built from eight values takes the four text fields verbatim and parses the four numbers. It is the only record the values hold. No record is built exactly when one of the four numbers fails to parse |
| FileLoader.ParseRowSpec | MusicPlaylistAnalyzer/MusicPlaylistAnalyzer/Program.cs:107-132 | `ParseRow`, one pass of the loop body: a line ends the load exactly when it does not have eight fields, and then carries its field count. It is dropped exactly when it has eight fields and a number does not parse. Otherwise it gives the record its fields hold |
| FileLoader.Scan | MusicPlaylistAnalyzer/MusicPlaylistAnalyzer/Program.cs:101-133 | the loop from a data row on ends at the end of the file or at a row with a wrong field count. Every row before that end gives either a record or a skipped row number. Every skipped row number belongs to a line with a bad number |
| FileLoader.ScanStep | MusicPlaylistAnalyzer/MusicPlaylistAnalyzer/Program.cs:103-133 | one turn of the loop either stops at a wrong field count, adds the row to the skipped rows, or appends the row's record |
| FileLoader.RunIsScan | MusicPlaylistAnalyzer/MusicPlaylistAnalyzer/Program.cs:101-133 | `Run`, the `while` loop with the records and skipped rows it has gathered so far, gives the same result as the recursive description `Scan` with those in front |
| FileLoader.Loaded | MusicPlaylistAnalyzer/MusicPlaylistAnalyzer/Program.cs:93-143 | a file that cannot be opened gives no records and the "no file" ending, and only such a file does. Records plus skipped rows never outnumber the data lines. When every line was read, the number of records is the number of data lines minus the number of skipped ones |
| FileLoader.LoadList | MusicPlaylistAnalyzer/MusicPlaylistAnalyzer/Program.cs:93-143 | the loop returns exactly `Loaded(file)`: the same records, skipped rows and ending |
| LoaderProperties.FirstMisshapen | MusicPlaylistAnalyzer/MusicPlaylistAnalyzer/Program.cs:110-113 | finds the first row with a wrong field count at or after a point, with none before it |
| LoaderProperties.RowsWhere | MusicPlaylistAnalyzer/MusicPlaylistAnalyzer/Program.cs:103-133 | lists, in increasing order, exactly the rows of a range that pass a test |
| LoaderProperties.Records | MusicPlaylistAnalyzer/MusicPlaylistAnalyzer/Program.cs:125-126 | the records of a range are, one for one and in order, those of its parsed rows |
| LoaderProperties.ScanExactly | MusicPlaylistAnalyzer/MusicPlaylistAnalyzer/Program.cs:101-133 | the load equals its loop-free description: records of the parsed rows before the first row with a wrong field count, the bad-number rows before it, and that row as the ending |
| LoaderProperties.LoadedRecordsComeFromLines | MusicPlaylistAnalyzer/MusicPlaylistAnalyzer/Program.cs:115-126 | every loaded record comes from a data line of its own, with text columns verbatim and numbers parsed, and the records keep the order of their lines |
| LoaderProperties.LoadedKeepsRecordBeforeTheCut | MusicPlaylistAnalyzer/MusicPlaylistAnalyzer/Program.cs:110-126 | a data line that holds a record is loaded when no earlier data line has a wrong field count |
| LoaderProperties.ScanMusicDependsOnRest | MusicPlaylistAnalyzer/MusicPlaylistAnalyzer/Program.cs:103-133 | which records the loop returns depends only on the rows it has still to read |
| LoaderProperties.ScanSkipsInvalid | MusicPlaylistAnalyzer/MusicPlaylistAnalyzer/Program.cs:129-132 | removing a bad-number row from the rows still to be read leaves the records unchanged |
| LoaderProperties.InvalidLineIsSkipped | MusicPlaylistAnalyzer/MusicPlaylistAnalyzer/Program.cs:115-132 | a line with eight fields and a number that does not parse is skipped and loading goes on: the file gives the same records without it |
| LoaderProperties.InvalidLineIsReported | MusicPlaylistAnalyzer/MusicPlaylistAnalyzer/Program.cs:129-132 | such a line's row number is among the reported ones unless an earlier line cut the load short |
| LoaderProperties.ScanStopsAtMisshapen | MusicPlaylistAnalyzer/MusicPlaylistAnalyzer/Program.cs:110-113 | rows after a row with a wrong field count are never read |
| LoaderProperties.MisshapenLineEndsLoad | MusicPlaylistAnalyzer/MusicPlaylistAnalyzer/Program.cs:110-113 | whatever follows a line with a wrong field count does not change the load. When it is the first such line, the load ends there with its row number and field count |
| LoaderProperties.NumberIsPlain | MusicPlaylistAnalyzer/MusicPlaylistAnalyzer/Program.cs:108 | a rendered number contains neither a tab nor a line break |
| LoaderProperties.ParseFormatRow | MusicPlaylistAnalyzer/MusicPlaylistAnalyzer/Program.cs:107-126 | a record written as a tab-separated line, with no tab or line break in its text fields, reads back as that record |
| LoaderProperties.FormattedLinesAreLines | MusicPlaylistAnalyzer/MusicPlaylistAnalyzer/Program.cs:99-107 | every line of a written file, after a header without line breaks, holds no line break, so `ReadLine` returns each of them whole |
| LoaderProperties.LoadFormatted | MusicPlaylistAnalyzer/MusicPlaylistAnalyzer/Program.cs:93-143 | records written one per line after a one-line header load back exactly, with nothing skipped and every line read |
| ReportOutput.Where | MusicPlaylistAnalyzer/MusicPlaylistAnalyzer/Program.cs:168-199 | `Matches` is the `where` clause of a query and `Where` applies it: the result is no longer than the playlist, every result passes the clause, and a record is in the result exactly when it is in the playlist and passes |
| ReportOutput.WhereAppend | MusicPlaylistAnalyzer/MusicPlaylistAnalyzer/Program.cs:168-199 | querying two playlists in a row gives the two results in a row, so the kept records stay in playlist order |
| ReportOutput.WhereCounts | MusicPlaylistAnalyzer/MusicPlaylistAnalyzer/Program.cs:168-199 | a record appears in a query's result as often as in the playlist if it passes the filter, and not at all otherwise |
| ReportOutput.GenreCountExact | MusicPlaylistAnalyzer/MusicPlaylistAnalyzer/Program.cs:174-178 | the number given for a genre is the number of songs of that genre |
| ReportOutput.MaxTime | MusicPlaylistAnalyzer/MusicPlaylistAnalyzer/Program.cs:198 | `music.Max(p => p.Time)` is at least every song's time and is the time of some song |
| ReportOutput.LongestSongsAreTheMaxima | MusicPlaylistAnalyzer/MusicPlaylistAnalyzer/Program.cs:198-202 | `LongestSongs`, the `duration` query, is never empty, and a song is in it exactly when no song has a longer time |
| ReportOutput.NamesOfMatches | MusicPlaylistAnalyzer/MusicPlaylistAnalyzer/Program.cs:180-199 | `select PlaylistInfo.Name` after a `where` lists a name exactly when some record of the playlist passes the clause and has that name |
| ReportOutput.NamesAppend | MusicPlaylistAnalyzer/MusicPlaylistAnalyzer/Program.cs:180-199 | the names of two playlists in a row are the two lists of names in a row |
| ReportOutput.PlayCounts | MusicPlaylistAnalyzer/MusicPlaylistAnalyzer/Program.cs:168-171 | one printed count per record, in order, and each reads back as that record's plays |
| ReportOutput.LinesSnoc | MusicPlaylistAnalyzer/MusicPlaylistAnalyzer/Program.cs:170-171 | one more item of a `foreach` adds one more line at the end |
| ReportOutput.LinesIsJoin | MusicPlaylistAnalyzer/MusicPlaylistAnalyzer/Program.cs:182-183 | a section's items are joined by line breaks with a line break after the last |
| ReportOutput.LinesRoundTrip | MusicPlaylistAnalyzer/MusicPlaylistAnalyzer/Program.cs:182-183 | cut at line breaks, a section gives back its items when none holds a line break |
| ReportOutput.ReportText | MusicPlaylistAnalyzer/MusicPlaylistAnalyzer/Program.cs:150-156 | an empty playlist gives exactly the title and "ERROR! No data found" |
| ReportOutput.AddList | MusicPlaylistAnalyzer/MusicPlaylistAnalyzer/Program.cs:180-203 | a section that lists items keeps the report text before it as a prefix; the section itself (a heading, a line per item, an empty line) is the body |
| ReportOutput.AddCount | MusicPlaylistAnalyzer/MusicPlaylistAnalyzer/Program.cs:174-178 | a section that gives a count keeps the report text before it as a prefix; the section itself (a heading, the number, an empty line) is the body |
| ReportOutput.Sections | MusicPlaylistAnalyzer/MusicPlaylistAnalyzer/Program.cs:174-203 | the sections after the play counts keep the report text before them as a prefix; their shape is the body |
| ReportOutput.FirstItemShared | MusicPlaylistAnalyzer/MusicPlaylistAnalyzer/Program.cs:169-203 | the first item of the first section goes on its heading's line, and stays there in the finished report |
| ReportOutput.PlaysHeadingSharesLine | MusicPlaylistAnalyzer/MusicPlaylistAnalyzer/Program.cs:158-172 | when some song has 200 plays or more, the report starts with the title, the questions, and the play-count heading with the first count on the same line |
| ReportOutput.AppendLines | MusicPlaylistAnalyzer/MusicPlaylistAnalyzer/Program.cs:170-171 | a `foreach` appends each item followed by a line break, in order |
| ReportOutput.CreateReport | MusicPlaylistAnalyzer/MusicPlaylistAnalyzer/Program.cs:148-206 | the text built piece by piece is exactly `ReportText`, and for an empty playlist it is the title and "ERROR! No data found" |

## Left out

- `Main` is not part of this model (lines 35-86). That covers the argument check, creating or emptying the report file, writing the report with `WriteLine` (which adds a final line break), and the exit codes. All of it is file-system and process glue.
- Reading the file with `StreamReader` is not modelled. The loader is given the file as the lines `ReadLine` would return, so line-terminator handling (`\n`, `\r\n`, `\r`) is outside the model.
- An I/O error part-way through reading, after the file was opened, is not modelled. Only a file that cannot be opened at all is (`None`).
- The console messages are not printed. The skipped row numbers and the ending of a `Load` stand for them.
- `Int32.Parse` is modelled for the invariant culture only: white space, an optional `+` or `-`, ASCII digits, and the 32-bit range. Culture-specific sign symbols and trailing NUL characters, which .NET also accepts, are not modelled.
- ReportOutput.Where: the "longer than 85 characters" filter counts Dafny characters (Unicode scalar values). C#'s `string.Length` counts UTF-16 code units, so a name with characters outside the Basic Multilingual Plane can count differently.
- LINQ's deferred execution is not modelled. The queries are evaluated where they are declared. No list is changed in between, so the result is the same.
