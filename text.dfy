/**
 * Splitting text on a one-character separator, with the semantics of Rust's
 * `str::split` for a single-character pattern: every separator ends a segment,
 * so `k` separators give exactly `k + 1` segments, empty ones included.
 * `Join` is the inverse operation and serves as the reference definition.
 */
module Text {

  /** The number of occurrences of `c` in `s`. */
  function Count(s: string, c: char): (n: nat)
    ensures n <= |s|
    ensures n == 0 <==> c !in s
  {
    if |s| == 0 then 0 else (if s[0] == c then 1 else 0) + Count(s[1..], c)
  }

  /** The segments of `s` between occurrences of `sep`, in order. */
  function Split(s: string, sep: char): (r: seq<string>)
    ensures |r| == Count(s, sep) + 1
    ensures forall i :: 0 <= i < |r| ==> sep !in r[i]
    decreases |s|
  {
    if |s| == 0 then [[]]
    else
      var rest := Split(s[1..], sep);
      if s[0] == sep then [[]] + rest
      else [[s[0]] + rest[0]] + rest[1..]
  }

  /** The segments laid end to end with one `sep` between neighbours. */
  function Join(rows: seq<string>, sep: char): string
  {
    if |rows| == 0 then []
    else if |rows| == 1 then rows[0]
    else rows[0] + [sep] + Join(rows[1..], sep)
  }

  /** Joining the segments of a split gives back the original text. */
  lemma {:induction false} JoinSplit(s: string, sep: char)
    ensures Join(Split(s, sep), sep) == s
    decreases |s|
  {
    if |s| > 0 {
      var rest := Split(s[1..], sep);
      JoinSplit(s[1..], sep);
      assert s == [s[0]] + s[1..];
      if s[0] == sep {
        var r := [[]] + rest;
        assert Split(s, sep) == r;
        assert r[1..] == rest;
        assert Join(r, sep) == [] + [sep] + Join(rest, sep);
      } else {
        var r := [[s[0]] + rest[0]] + rest[1..];
        assert Split(s, sep) == r;
        if |rest| == 1 {
          assert Join(r, sep) == [s[0]] + rest[0];
        } else {
          var tail := Join(rest[1..], sep);
          assert r[1..] == rest[1..];
          assert Join(rest, sep) == rest[0] + [sep] + tail;
          assert Join(r, sep) == [s[0]] + (rest[0] + [sep] + tail);
        }
      }
    }
  }

  /** A text with no separator is a single segment. */
  lemma {:induction false} SplitNoSeparator(w: string, sep: char)
    requires sep !in w
    ensures Split(w, sep) == [w]
    decreases |w|
  {
    if |w| > 0 {
      SplitNoSeparator(w[1..], sep);
      assert [w[0]] + w[1..] == w;
    }
  }

  /** A separator right after a separator-free prefix closes the first segment. */
  lemma {:induction false} SplitAfterSegment(w: string, t: string, sep: char)
    requires sep !in w
    ensures Split(w + [sep] + t, sep) == [w] + Split(t, sep)
    decreases |w|
  {
    var s := w + [sep] + t;
    if |w| == 0 {
      assert s[1..] == t;
    } else {
      assert s[1..] == w[1..] + [sep] + t;
      SplitAfterSegment(w[1..], t, sep);
      assert [w[0]] + w[1..] == w;
    }
  }

  /** Splitting the join of separator-free segments gives the segments back. */
  lemma {:induction false} SplitJoin(rows: seq<string>, sep: char)
    requires |rows| >= 1
    requires forall i :: 0 <= i < |rows| ==> sep !in rows[i]
    ensures Split(Join(rows, sep), sep) == rows
    decreases |rows|
  {
    if |rows| == 1 {
      SplitNoSeparator(rows[0], sep);
    } else {
      SplitJoin(rows[1..], sep);
      SplitAfterSegment(rows[0], Join(rows[1..], sep), sep);
      assert [rows[0]] + rows[1..] == rows;
    }
  }

  /** Appending a segment to a non-empty list extends the joined text by `sep` and that segment. */
  lemma {:induction false} JoinSnoc(rows: seq<string>, w: string, sep: char)
    requires |rows| >= 1
    ensures Join(rows + [w], sep) == Join(rows, sep) + [sep] + w
    decreases |rows|
  {
    if |rows| > 1 {
      assert (rows + [w])[1..] == rows[1..] + [w];
      JoinSnoc(rows[1..], w, sep);
    }
  }

  /** With two or more segments, the last one follows a separator at the end of the join. */
  lemma JoinLast(rows: seq<string>, sep: char)
    requires |rows| >= 2
    ensures var s, t := Join(rows, sep), rows[|rows| - 1];
      |t| < |s| && s[|s| - |t|..] == t && s[|s| - |t| - 1] == sep
  {
    var p, t := rows[..|rows| - 1], rows[|rows| - 1];
    assert rows == p + [t];
    JoinSnoc(p, t, sep);
    var s := Join(p, sep) + [sep] + t;
    assert s[|s| - |t|..] == t;
    assert s[|Join(p, sep)|] == sep;
  }

  /** The text after the last separator is the last segment. */
  lemma SplitLastSegment(p: string, w: string, sep: char)
    requires sep !in w
    ensures Split(p + [sep] + w, sep) == Split(p, sep) + [w]
  {
    var rows := Split(p, sep) + [w];
    JoinSnoc(Split(p, sep), w, sep);
    JoinSplit(p, sep);
    SplitJoin(rows, sep);
  }

  /**
   * The last segment is the suffix of `s` that follows the last separator,
   * or all of `s` when it has none.
   */
  lemma LastSegmentIsSuffix(s: string, sep: char)
    ensures var r := Split(s, sep); var t := r[|r| - 1];
      && |t| <= |s|
      && s[|s| - |t|..] == t
      && (if sep in s then s[|s| - |t| - 1] == sep else t == s)
  {
    var r := Split(s, sep);
    JoinSplit(s, sep);
    if |r| == 1 {
      assert s == Join(r, sep) == r[0];
    } else {
      JoinLast(r, sep);
    }
  }

  /** A text ending in the separator has an empty last segment. */
  lemma TrailingSeparator(s: string, sep: char)
    requires |s| > 0 && s[|s| - 1] == sep
    ensures var r := Split(s, sep); |r| >= 2 && r[|r| - 1] == [] && r[..|r| - 1] == Split(s[..|s| - 1], sep)
  {
    assert s == s[..|s| - 1] + [sep] + [];
    SplitLastSegment(s[..|s| - 1], [], sep);
  }

  /** Apart from the separators, the joined text holds exactly the characters of the segments. */
  lemma {:induction false} InJoin(rows: seq<string>, sep: char, c: char)
    requires c != sep
    ensures c in Join(rows, sep) <==> exists i :: 0 <= i < |rows| && c in rows[i]
    decreases |rows|
  {
    if |rows| > 1 {
      InJoin(rows[1..], sep, c);
      assert forall i :: 1 <= i < |rows| ==> rows[i] == rows[1..][i - 1];
    }
  }

  /**
   * Within the joined text, segment `i` sits between the join of the segments
   * before it and the join of those after it.
   */
  lemma {:induction false} JoinAround(rows: seq<string>, i: nat, sep: char)
    requires i < |rows|
    ensures Join(rows, sep) ==
      (if i == 0 then [] else Join(rows[..i], sep) + [sep])
      + rows[i]
      + (if i + 1 == |rows| then [] else [sep] + Join(rows[i + 1..], sep))
    decreases i
  {
    if i > 0 {
      JoinAround(rows[1..], i - 1, sep);
      assert rows[1..][i - 1] == rows[i];
      assert rows[1..][i..] == rows[i + 1..];
      if i > 1 {
        assert rows[..i][1..] == rows[1..][..i - 1];
      }
    }
  }
}
