/** Python's `str.split(sep)` and `sep.join(parts)` for a one-character
    separator, the two string operations the mover uses on titles and
    patterns, with the round trips between them. */
module Text {

  /** `s.split(sep)`: the runs of characters between separators, in order.
      There is always at least one part, and no part holds the separator. */
  function Split(s: string, sep: char): (parts: seq<string>)
    ensures |parts| >= 1
    ensures forall i :: 0 <= i < |parts| ==> sep !in parts[i]
  {
    if |s| == 0 then [""]
    else
      var rest := Split(s[1..], sep);
      if s[0] == sep then [""] + rest
      else [[s[0]] + rest[0]] + rest[1..]
  }

  /** `sep.join(parts)`. */
  function Join(parts: seq<string>, sep: char): string
  {
    if |parts| == 0 then ""
    else if |parts| == 1 then parts[0]
    else parts[0] + [sep] + Join(parts[1..], sep)
  }

  /** Joining the parts of a split gives back the string. */
  lemma {:induction false} JoinSplit(s: string, sep: char)
    ensures Join(Split(s, sep), sep) == s
  {
    if |s| > 0 {
      var rest := Split(s[1..], sep);
      JoinSplit(s[1..], sep);
      if s[0] == sep {
        assert ([""] + rest)[1..] == rest;
      } else if |rest| == 1 {
        assert Join(rest, sep) == rest[0];
      } else {
        var parts := [[s[0]] + rest[0]] + rest[1..];
        assert parts[1..] == rest[1..];
        assert Join(rest, sep) == rest[0] + [sep] + Join(rest[1..], sep);
        assert s == [s[0]] + s[1..];
      }
    }
  }

  /** A string without the separator splits into itself alone. */
  lemma {:induction false} SplitNoSep(s: string, sep: char)
    requires sep !in s
    ensures Split(s, sep) == [s]
  {
    if |s| > 0 {
      assert sep !in s[1..] by {
        forall k | 0 <= k < |s[1..]| ensures s[1..][k] != sep {
          assert s[1..][k] == s[k + 1];
        }
      }
      SplitNoSep(s[1..], sep);
      assert s == [s[0]] + s[1..];
    }
  }

  /** One step of `Split`: the first character either ends the first part
      or joins it. */
  lemma SplitStep(w: string, sep: char)
    requires |w| > 0
    ensures var r := Split(w[1..], sep);
      Split(w, sep) == if w[0] == sep then [""] + r else [[w[0]] + r[0]] + r[1..]
  {
  }

  /** A separator between `x` and `y` keeps their parts apart. */
  lemma {:induction false} SplitConcat(x: string, y: string, sep: char)
    ensures Split(x + [sep] + y, sep) == Split(x, sep) + Split(y, sep)
  {
    var whole := x + [sep] + y;
    if |x| == 0 {
      assert whole == [sep] + y && whole[1..] == y;
      SplitStep(whole, sep);
    } else {
      assert whole[0] == x[0] && whole[1..] == x[1..] + [sep] + y;
      SplitConcat(x[1..], y, sep);
      SplitStep(whole, sep);
      SplitStep(x, sep);
      if x[0] != sep {
        MergeFirst([x[0]], Split(x[1..], sep), Split(y, sep));
      }
    }
  }

  /** Extending the first part commutes with appending further parts. */
  lemma MergeFirst(h: string, rx: seq<string>, ry: seq<string>)
    requires |rx| >= 1
    ensures [h + (rx + ry)[0]] + (rx + ry)[1..] == ([h + rx[0]] + rx[1..]) + ry
  {
    assert (rx + ry)[0] == rx[0];
    assert (rx + ry)[1..] == rx[1..] + ry;
    assert [h + rx[0]] + (rx[1..] + ry) == ([h + rx[0]] + rx[1..]) + ry;
  }

  /** Splitting the join of separator-free parts gives back the parts. */
  lemma {:induction false} SplitJoin(parts: seq<string>, sep: char)
    requires |parts| >= 1
    requires forall i :: 0 <= i < |parts| ==> sep !in parts[i]
    ensures Split(Join(parts, sep), sep) == parts
  {
    SplitNoSep(parts[0], sep);
    if |parts| > 1 {
      SplitJoin(parts[1..], sep);
      SplitConcat(parts[0], Join(parts[1..], sep), sep);
      assert [parts[0]] + parts[1..] == parts;
    }
  }

  /** A character other than the separator that no part holds is not in the join. */
  lemma {:induction false} JoinAvoids(parts: seq<string>, sep: char, c: char)
    requires c != sep
    requires forall i :: 0 <= i < |parts| ==> c !in parts[i]
    ensures c !in Join(parts, sep)
  {
    if |parts| > 1 {
      JoinAvoids(parts[1..], sep, c);
      assert forall k :: 0 <= k < |parts[0]| ==> parts[0][k] != c;
    }
  }

  /** Appending a character other than the separator extends the last part. */
  lemma {:induction false} JoinExtendLast(parts: seq<string>, sep: char, c: char)
    requires |parts| >= 1
    ensures Join(parts, sep) + [c]
         == Join(parts[..|parts| - 1] + [parts[|parts| - 1] + [c]], sep)
  {
    var n := |parts|;
    var q := parts[..n - 1] + [parts[n - 1] + [c]];
    if n > 1 {
      var tail := parts[1..];
      JoinExtendLast(tail, sep, c);
      assert q[0] == parts[0];
      assert q[1..] == tail[..|tail| - 1] + [tail[|tail| - 1] + [c]];
    }
  }
}
