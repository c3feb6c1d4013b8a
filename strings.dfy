/**
 * The string splitting that the loader relies on: .NET's `String.Split(char)`,
 * which cuts a string at every occurrence of the separator and keeps empty
 * fields, so a string with k separators always yields k + 1 fields.
 */
module Strings {

  /** Number of occurrences of `c` in `s`. */
  function Occurrences(s: string, c: char): nat
  {
    if s == [] then 0 else (if s[0] == c then 1 else 0) + Occurrences(s[1..], c)
  }

  /** `String.Split(sep)`: the maximal separator-free pieces of `s`, in order. */
  function Split(s: string, sep: char): (fields: seq<string>)
    ensures |fields| == Occurrences(s, sep) + 1
    ensures forall i :: 0 <= i < |fields| ==> sep !in fields[i]
  {
    if s == [] then [""]
    else
      var rest := Split(s[1..], sep);
      if s[0] == sep then [""] + rest
      else [[s[0]] + rest[0]] + rest[1..]
  }

  /** `String.Join(sep, fields)`: the fields with one separator between neighbours. */
  function Join(fields: seq<string>, sep: char): string
  {
    if fields == [] then ""
    else if |fields| == 1 then fields[0]
    else fields[0] + [sep] + Join(fields[1..], sep)
  }

  /** A character that is neither the separator nor in any field is not in the join. */
  lemma {:induction false} JoinAvoids(fields: seq<string>, sep: char, c: char)
    requires c != sep
    requires forall i :: 0 <= i < |fields| ==> c !in fields[i]
    ensures c !in Join(fields, sep)
  {
    if |fields| > 1 {
      JoinAvoids(fields[1..], sep, c);
      assert c !in fields[0] + [sep];
    }
  }

  /** Gluing a character onto the first field glues it onto the front of the join. */
  lemma JoinGlue(c: char, fields: seq<string>, sep: char)
    requires |fields| >= 1
    ensures Join([[c] + fields[0]] + fields[1..], sep) == [c] + Join(fields, sep)
  {
    var glued := [[c] + fields[0]] + fields[1..];
    assert glued[0] == [c] + fields[0] && glued[1..] == fields[1..];
    if |fields| > 1 {
      assert [c] + fields[0] + [sep] + Join(fields[1..], sep)
          == [c] + (fields[0] + [sep] + Join(fields[1..], sep));
    }
  }

  /** An empty first field leaves just the separator in front of the join of the rest. */
  lemma JoinEmptyFirst(fields: seq<string>, sep: char)
    requires |fields| >= 1
    ensures Join([""] + fields, sep) == [sep] + Join(fields, sep)
  {
    var padded := [""] + fields;
    assert padded[0] == "" && padded[1..] == fields;
    assert "" + [sep] + Join(fields, sep) == [sep] + Join(fields, sep);
  }

  /** Joining the pieces of a split restores the original string. */
  lemma {:induction false} JoinSplit(s: string, sep: char)
    ensures Join(Split(s, sep), sep) == s
  {
    if s != [] {
      var rest := Split(s[1..], sep);
      JoinSplit(s[1..], sep);
      if s[0] == sep {
        JoinEmptyFirst(rest, sep);
      } else {
        JoinGlue(s[0], rest, sep);
      }
      assert [s[0]] + s[1..] == s;
    }
  }

  /** Splitting `f + t` when `f` holds no separator: `f` is glued onto the first field of `t`. */
  lemma {:induction false} SplitAfterPlainPrefix(f: string, t: string, sep: char)
    requires sep !in f
    ensures Split(f + t, sep) == [f + Split(t, sep)[0]] + Split(t, sep)[1..]
  {
    if f != [] {
      SplitAfterPlainPrefix(f[1..], t, sep);
      assert (f + t)[1..] == f[1..] + t;
      assert [f[0]] + (f[1..] + Split(t, sep)[0]) == f + Split(t, sep)[0];
    } else {
      var fields := Split(t, sep);
      assert f + t == t && f + fields[0] == fields[0];
      assert fields == [fields[0]] + fields[1..];
    }
  }

  /** Splitting a join of separator-free fields gives the fields back. */
  lemma {:induction false} SplitJoin(fields: seq<string>, sep: char)
    requires |fields| >= 1
    requires forall i :: 0 <= i < |fields| ==> sep !in fields[i]
    ensures Split(Join(fields, sep), sep) == fields
  {
    if |fields| == 1 {
      SplitAfterPlainPrefix(fields[0], "", sep);
      assert fields[0] + "" == fields[0];
    } else {
      var tail := Join(fields[1..], sep);
      SplitJoin(fields[1..], sep);
      SplitAfterPlainPrefix(fields[0], [sep] + tail, sep);
      assert fields[0] + [sep] + tail == fields[0] + ([sep] + tail);
      assert ([sep] + tail)[1..] == tail;
      assert Split([sep] + tail, sep) == [""] + fields[1..];
      assert fields[0] + "" == fields[0];
    }
  }
}
