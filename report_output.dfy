/**
 * `CreateReportOutput.CreateReport`: the text of the playlist report. An empty
 * playlist gives the title and an error line. Otherwise the report lists the
 * questions it answers, then one section per question: the play counts of the
 * songs played 200 times or more, the number of Alternative and of Hip-Hop/Rap
 * songs, the names of the songs from the album "Welcome to the Fishbowl", from
 * before 1970, with names longer than 85 characters, and the names of the
 * songs whose time is the longest.
 *
 * Each LINQ query of the source is a `Filter` applied by `Where`; the text is
 * `ReportText`, and the method `CreateReport` builds it the way the source
 * does, by appending piece after piece.
 */
module ReportOutput {
  import opened Wrappers
  import opened Strings
  import opened Int32Text
  import opened Playlist

  const Title: string := "Music Playlist Report\n\n"
  const NoData: string := "ERROR! No data found\n"
  const Questions: string :=
    "How many songs received 200 or more plays?\n"
    + "How many songs are in the playlist with the genre \"Alternative\"?\n"
    + "How many songs are in the playlist with the Genre of \"Hip-Hop/Rap\"?\n"
    + "What songs are in the playlist from the album \"Welcome to the Fishbowl?\"\n"
    + "What are the songs in the playlist from before 1970?\n"
    + "What are the song names that are more than 85 characters long?\n"
    + "What is the longest song? (longest in Time)\n"
    + "\n\n\n"
  /** Written without a line break, so the first play count shares its line. */
  const PlaysHeading: string := "Songs that recieved 200 or more plays:"
  const AlternativeHeading: string := "Number of Alternative songs: "
  const RapHeading: string := "Number of Hip-Hop/Rap songs: "
  const FishbowlHeading: string := "Songs from the album Welcome to the Fishbowl:\n"
  const OldSongsHeading: string := "Songs from before 1970:\n"
  const LongNamesHeading: string := "Song names longer than 85 characters:\n"
  const LongestHeading: string := "Longest song:\n"

  const Alternative: string := "Alternative"
  const HipHopRap: string := "Hip-Hop/Rap"
  const Fishbowl: string := "Welcome to the Fishbowl"

  /** The `where` clause of one of the report's queries. */
  datatype Filter =
    | PlaysAtLeast(plays: int)
    | GenreIs(genre: string)
    | AlbumIs(album: string)
    | YearBefore(year: int)
    | NameLongerThan(length: nat)
    | TimeIs(time: int)

  predicate Matches(f: Filter, p: PlaylistInfo)
  {
    match f
    case PlaysAtLeast(n) => p.plays as int >= n
    case GenreIs(g) => p.genre == g
    case AlbumIs(a) => p.album == a
    case YearBefore(y) => p.year as int < y
    case NameLongerThan(n) => |p.name| > n
    case TimeIs(t) => p.time as int == t
  }

  /** The records of `music` that pass `f`, in their order in `music`. */
  function Where(music: seq<PlaylistInfo>, f: Filter): (r: seq<PlaylistInfo>)
    ensures |r| <= |music|
    ensures forall i :: 0 <= i < |r| ==> Matches(f, r[i])
    ensures forall p :: p in r <==> p in music && Matches(f, p)
  {
    if music == [] then []
    else
      var rest := Where(music[1..], f);
      assert music == [music[0]] + music[1..];
      (if Matches(f, music[0]) then [music[0]] else []) + rest
  }

  /** Filtering a concatenation filters each part: the kept records stay in order. */
  lemma {:induction false} WhereAppend(a: seq<PlaylistInfo>, b: seq<PlaylistInfo>, f: Filter)
    ensures Where(a + b, f) == Where(a, f) + Where(b, f)
  {
    if a == [] {
      assert a + b == b;
    } else {
      assert (a + b)[1..] == a[1..] + b;
      WhereAppend(a[1..], b, f);
    }
  }

  /** A record is kept exactly as many times as it occurs in `music` and passes `f`. */
  lemma {:induction false} WhereCounts(music: seq<PlaylistInfo>, f: Filter, p: PlaylistInfo)
    ensures multiset(Where(music, f))[p] == if Matches(f, p) then multiset(music)[p] else 0
  {
    if music != [] {
      var rest := music[1..];
      WhereCounts(rest, f, p);
      assert multiset(music) == multiset{music[0]} + multiset(rest) by {
        assert music == [music[0]] + rest;
      }
      if Matches(f, music[0]) {
        assert multiset(Where(music, f)) == multiset{music[0]} + multiset(Where(rest, f)) by {
          assert Where(music, f) == [music[0]] + Where(rest, f);
        }
      } else {
        assert Where(music, f) == Where(rest, f);
      }
    }
  }

  function Genres(music: seq<PlaylistInfo>): (genres: seq<string>)
    ensures |genres| == |music|
  {
    seq(|music|, i requires 0 <= i < |music| => music[i].genre)
  }

  /** The number the report gives for a genre is the number of songs of that genre. */
  lemma {:induction false} GenreCountExact(music: seq<PlaylistInfo>, genre: string)
    ensures |Where(music, GenreIs(genre))| == multiset(Genres(music))[genre]
  {
    if music != [] {
      GenreCountExact(music[1..], genre);
      assert Genres(music) == [music[0].genre] + Genres(music[1..]);
    }
  }

  /** `music.Max(p => p.Time)`: the longest time, which some record has. */
  function MaxTime(music: seq<PlaylistInfo>): (t: int)
    requires |music| >= 1
    ensures forall i :: 0 <= i < |music| ==> music[i].time as int <= t
    ensures exists i :: 0 <= i < |music| && music[i].time as int == t
  {
    if |music| == 1 then music[0].time as int
    else
      var rest := MaxTime(music[1..]);
      assert forall i :: 1 <= i < |music| ==> music[i] == music[1..][i - 1];
      if music[0].time as int >= rest then music[0].time as int else rest
  }

  /** The records whose time is the longest. */
  function LongestSongs(music: seq<PlaylistInfo>): seq<PlaylistInfo>
    requires |music| >= 1
  {
    Where(music, TimeIs(MaxTime(music)))
  }

  /** At least one song is the longest, and the longest songs are exactly those no song outlasts. */
  lemma LongestSongsAreTheMaxima(music: seq<PlaylistInfo>)
    requires |music| >= 1
    ensures |LongestSongs(music)| >= 1
    ensures forall p :: p in LongestSongs(music) <==>
              p in music && forall q :: q in music ==> q.time <= p.time
  {
    var t := MaxTime(music);
    var i :| 0 <= i < |music| && music[i].time as int == t;
    assert music[i] in LongestSongs(music);
  }

  function Names(music: seq<PlaylistInfo>): (names: seq<string>)
    ensures |names| == |music|
    ensures forall i :: 0 <= i < |music| ==> names[i] == music[i].name
  {
    seq(|music|, i requires 0 <= i < |music| => music[i].name)
  }

  /** The names of two playlists in a row are the two lists of names in a row. */
  lemma NamesAppend(a: seq<PlaylistInfo>, b: seq<PlaylistInfo>)
    ensures Names(a + b) == Names(a) + Names(b)
  {
    assert forall i :: 0 <= i < |a + b| ==> Names(a + b)[i] == (Names(a) + Names(b))[i];
  }

  /** A section of names lists exactly the names of the records that pass its query. */
  lemma NamesOfMatches(music: seq<PlaylistInfo>, f: Filter, n: string)
    ensures n in Names(Where(music, f)) <==> exists p :: p in music && Matches(f, p) && p.name == n
  {
    var kept := Where(music, f);
    if n in Names(kept) {
      var i :| 0 <= i < |kept| && Names(kept)[i] == n;
      assert kept[i] in music && Matches(f, kept[i]);
    }
    if exists p :: p in music && Matches(f, p) && p.name == n {
      var p :| p in music && Matches(f, p) && p.name == n;
      var i :| 0 <= i < |kept| && kept[i] == p;
      assert Names(kept)[i] == n;
    }
  }

  /** The play counts as the report prints them. */
  function PlayCounts(music: seq<PlaylistInfo>): (counts: seq<string>)
    ensures |counts| == |music|
    ensures forall i :: 0 <= i < |music| ==> ParseInt32(counts[i]) == Some(music[i].plays)
  {
    if music == [] then []
    else
      ParseIntToString(music[0].plays);
      [IntToString(music[0].plays as int)] + PlayCounts(music[1..])
  }

  /** Each item on a line of its own: the item, then a line break. */
  function Lines(items: seq<string>): (text: string)
    ensures |text| >= |items|
  {
    if items == [] then "" else items[0] + "\n" + Lines(items[1..])
  }

  /** One more item adds one more line at the end. */
  lemma {:induction false} LinesSnoc(items: seq<string>, item: string)
    ensures Lines(items + [item]) == Lines(items) + item + "\n"
  {
    if items == [] {
      assert [] + [item] == [item];
    } else {
      assert (items + [item])[1..] == items[1..] + [item];
      LinesSnoc(items[1..], item);
    }
  }

  /** The lines are the items joined by line breaks, with a line break after the last. */
  lemma {:induction false} LinesIsJoin(items: seq<string>)
    ensures Lines(items) == Join(items + [""], '\n')
  {
    if items != [] {
      LinesIsJoin(items[1..]);
      var tail := items[1..] + [""];
      assert (items + [""])[1..] == tail;
      assert |items + [""]| > 1;
    }
  }

  /** Cut at its line breaks, a section gives back its items, then the empty rest after the last break. */
  lemma LinesRoundTrip(items: seq<string>)
    requires forall i :: 0 <= i < |items| ==> '\n' !in items[i]
    ensures Split(Lines(items), '\n') == items + [""]
  {
    LinesIsJoin(items);
    SplitJoin(items + [""], '\n');
  }

  /**
   * `text` and then a section that lists items: the heading, a line per item,
   * an empty line. A section only appends to the report.
   */
  function AddList(text: string, heading: string, items: seq<string>): (r: string)
    ensures text <= r
  {
    PrefixOfAppend(text, heading + Lines(items) + "\n");
    assert text + heading + Lines(items) + "\n" == text + (heading + Lines(items) + "\n");
    text + heading + Lines(items) + "\n"
  }

  /**
   * `text` and then a section that gives a number: the heading, the number, an
   * empty line. A section only appends to the report.
   */
  function AddCount(text: string, heading: string, count: int): (r: string)
    ensures text <= r
  {
    PrefixOfAppend(text, heading + IntToString(count) + "\n\n");
    text + (heading + IntToString(count) + "\n\n")
  }

  /** The whole report for `music`. */
  function ReportText(music: seq<PlaylistInfo>): (text: string)
    ensures |music| == 0 ==> text == "Music Playlist Report\n\nERROR! No data found\n"
  {
    if |music| < 1 then Title + NoData
    else Sections(AddList(Title + Questions, PlaysHeading, PlayCounts(Where(music, PlaysAtLeast(200)))), music)
  }

  /**
   * The sections that follow the play counts, appended to `plays`: they keep
   * `plays` in front.
   */
  function Sections(plays: string, music: seq<PlaylistInfo>): (r: string)
    requires |music| >= 1
    ensures plays <= r
  {
    var alternative := AddCount(plays, AlternativeHeading, |Where(music, GenreIs(Alternative))|);
    var rap := AddCount(alternative, RapHeading, |Where(music, GenreIs(HipHopRap))|);
    PrefixGrows(plays, alternative, rap);
    var fishbowl := AddList(rap, FishbowlHeading, Names(Where(music, AlbumIs(Fishbowl))));
    PrefixGrows(plays, rap, fishbowl);
    var oldSongs := AddList(fishbowl, OldSongsHeading, Names(Where(music, YearBefore(1970))));
    PrefixGrows(plays, fishbowl, oldSongs);
    var longNames := AddList(oldSongs, LongNamesHeading, Names(Where(music, NameLongerThan(85))));
    PrefixGrows(plays, oldSongs, longNames);
    var longest := AddList(longNames, LongestHeading, Names(LongestSongs(music)));
    PrefixGrows(plays, longNames, longest);
    longest
  }

  /** The first item of a listed section goes on the heading's own line. */
  lemma AddListFirst(text: string, heading: string, items: seq<string>)
    requires |items| >= 1
    ensures AddList(text, heading, items) == text + heading + items[0] + "\n" + (Lines(items[1..]) + "\n")
  {
  }

  /**
   * The play-count heading ends without a line break: when some song was
   * played 200 times or more, the report goes on with the first such count on
   * the heading's line.
   */
  lemma PlaysHeadingSharesLine(music: seq<PlaylistInfo>)
    requires |Where(music, PlaysAtLeast(200))| >= 1
    ensures StartsWith(ReportText(music),
                       Title + Questions + PlaysHeading + PlayCounts(Where(music, PlaysAtLeast(200)))[0] + "\n")
  {
    var counts := PlayCounts(Where(music, PlaysAtLeast(200)));
    FirstItemShared(Title + Questions, PlaysHeading, counts, music);
  }

  /** The first item of a section stays on its heading's line in the finished report. */
  lemma FirstItemShared(intro: string, heading: string, items: seq<string>, music: seq<PlaylistInfo>)
    requires |items| >= 1 && |music| >= 1
    ensures StartsWith(Sections(AddList(intro, heading, items), music), intro + heading + items[0] + "\n")
  {
    var plays := AddList(intro, heading, items);
    AddListFirst(intro, heading, items);
    PrefixOfAppend(intro + heading + items[0] + "\n", Lines(items[1..]) + "\n");
    PrefixGrows(intro + heading + items[0] + "\n", plays, Sections(plays, music));
  }

  /** `text` begins with `head`. */
  predicate StartsWith(text: string, head: string)
  {
    head <= text
  }

  /** A text is a prefix of itself followed by more. */
  lemma PrefixOfAppend(head: string, rest: string)
    ensures head <= head + rest
  {
    assert (head + rest)[..|head|] == head;
  }

  /** A prefix of a text stays one when the text is extended. */
  lemma PrefixGrows(head: string, text: string, longer: string)
    requires head <= text && text <= longer
    ensures head <= longer
  {
  }

  /** One `foreach` of the source: appends each item and a line break. */
  method AppendLines(output: string, items: seq<string>) returns (r: string)
    ensures r == output + Lines(items)
  {
    r := output;
    var i := 0;
    while i < |items|
      invariant i <= |items|
      invariant r == output + Lines(items[..i])
    {
      LinesSnoc(items[..i], items[i]);
      assert items[..i + 1] == items[..i] + [items[i]];
      r := r + items[i] + "\n";
      i := i + 1;
    }
    assert items[..i] == items;
  }

  /** `CreateReportOutput.CreateReport`. */
  method CreateReport(music: seq<PlaylistInfo>) returns (output: string)
    ensures output == ReportText(music)
    ensures |music| == 0 ==> output == "Music Playlist Report\n\nERROR! No data found\n"
  {
    output := Title;
    if |music| < 1 {
      output := output + NoData;
      return;
    }
    output := output + Questions;

    var playCount := PlayCounts(Where(music, PlaysAtLeast(200)));
    output := output + PlaysHeading;
    output := AppendLines(output, playCount);
    output := output + "\n";

    var alternativeSongs := Where(music, GenreIs(Alternative));
    output := output + (AlternativeHeading + IntToString(|alternativeSongs|) + "\n\n");

    var rapSongs := Where(music, GenreIs(HipHopRap));
    output := output + (RapHeading + IntToString(|rapSongs|) + "\n\n");

    var fishbowl := Names(Where(music, AlbumIs(Fishbowl)));
    output := output + FishbowlHeading;
    output := AppendLines(output, fishbowl);
    output := output + "\n";

    var specificYear := Names(Where(music, YearBefore(1970)));
    output := output + OldSongsHeading;
    output := AppendLines(output, specificYear);
    output := output + "\n";

    var longNames := Names(Where(music, NameLongerThan(85)));
    output := output + LongNamesHeading;
    output := AppendLines(output, longNames);
    output := output + "\n";

    var longestSong := MaxTime(music);
    var duration := Names(Where(music, TimeIs(longestSong)));
    output := output + LongestHeading;
    output := AppendLines(output, duration);
    output := output + "\n";
  }
}
