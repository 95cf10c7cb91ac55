/** The title-pattern validator of move.py: a pattern is accepted when it
    matches `^PRC_admin/(data|list|%)/(\d{2}|%)/(\d{2}|%)/(\d{2}|%)/(\d{3}|%)/(\d{3}|%)$`
    under Python's `re.search`.  The grammar is stated segment by segment over
    `split('/')`, and shown equal to the concatenation the regular expression
    describes. */
module Pattern {
  import opened Text

  const Slash := '/'
  const Prefix := "PRC_admin"
  const Wildcard := "%"

  /** `\d`, restricted to the ASCII digits. */
  predicate IsDigit(c: char) {
    '0' <= c <= '9'
  }

  /** `\d{n}` */
  predicate IsDigits(seg: string, n: nat) {
    |seg| == n && forall k :: 0 <= k < n ==> IsDigit(seg[k])
  }

  /** The alternatives the expression allows for segment `i`, 1 to 6:
      `data`, `list` or `%` first, then three two-digit codes, then two
      three-digit codes, each of which may also be `%`. */
  predicate SegmentOk(i: int, seg: string) {
    1 <= i <= 6 &&
    (seg == Wildcard ||
     (i == 1 && (seg == "data" || seg == "list")) ||
     (2 <= i <= 4 && IsDigits(seg, 2)) ||
     (5 <= i <= 6 && IsDigits(seg, 3)))
  }

  /** The whole string is the prefix and six well-formed segments. */
  predicate WellFormed(s: string) {
    var p := Split(s, Slash);
    |p| == 7 && p[0] == Prefix && forall i :: 1 <= i < 7 ==> SegmentOk(i, p[i])
  }

  /** `re.search` with a leading `^` and a final `$`: without the MULTILINE
      flag `$` matches at the end of the string and also just before a
      newline that ends it. */
  predicate Accepts(s: string) {
    WellFormed(s) || (|s| > 0 && s[|s| - 1] == '\n' && WellFormed(s[..|s| - 1]))
  }

  /** The text the regular expression spells out for the six tokens `t`. */
  function RegexText(t: seq<string>): string
    requires |t| == 6
  {
    Prefix + "/" + t[0] + "/" + t[1] + "/" + t[2] + "/" + t[3] + "/" + t[4] + "/" + t[5]
  }

  /** Reference reading of the expression: `s` is exactly the prefix and six
      tokens, each drawn from its group's alternatives. */
  ghost predicate FullMatch(s: string) {
    exists t :: |t| == 6 && (forall i :: 0 <= i < 6 ==> SegmentOk(i + 1, t[i])) && s == RegexText(t)
  }

  lemma RegexTextIsJoin(t: seq<string>)
    requires |t| == 6
    ensures RegexText(t) == Join([Prefix] + t, Slash)
  {
    var j5 := Join([t[5]], Slash);
    var j4 := Join([t[4], t[5]], Slash);
    var j3 := Join([t[3], t[4], t[5]], Slash);
    var j2 := Join([t[2], t[3], t[4], t[5]], Slash);
    var j1 := Join([t[1], t[2], t[3], t[4], t[5]], Slash);
    var j0 := Join(t, Slash);
    assert j4 == t[4] + "/" + j5 by { assert [t[4], t[5]][1..] == [t[5]]; }
    assert j3 == t[3] + "/" + j4 by { assert [t[3], t[4], t[5]][1..] == [t[4], t[5]]; }
    assert j2 == t[2] + "/" + j3 by { assert [t[2], t[3], t[4], t[5]][1..] == [t[3], t[4], t[5]]; }
    assert j1 == t[1] + "/" + j2 by { assert [t[1], t[2], t[3], t[4], t[5]][1..] == [t[2], t[3], t[4], t[5]]; }
    assert j0 == t[0] + "/" + j1 by { assert t[1..] == [t[1], t[2], t[3], t[4], t[5]]; }
    assert Join([Prefix] + t, Slash) == Prefix + "/" + j0 by { assert ([Prefix] + t)[1..] == t; }
  }

  /** No segment the grammar allows holds a slash or a newline. */
  lemma SegmentChars(i: int, seg: string)
    requires SegmentOk(i, seg)
    ensures '/' !in seg && '\n' !in seg
  {
    if IsDigits(seg, 2) || IsDigits(seg, 3) {
      assert forall k :: 0 <= k < |seg| ==> IsDigit(seg[k]);
    }
  }

  /** The segment-wise grammar and the regular expression accept the same strings. */
  lemma WellFormedIffFullMatch(s: string)
    ensures WellFormed(s) <==> FullMatch(s)
  {
    if WellFormed(s) {
      var p := Split(s, Slash);
      var t := p[1..];
      assert [Prefix] + t == p;
      JoinSplit(s, Slash);
      RegexTextIsJoin(t);
      assert forall i :: 0 <= i < 6 ==> SegmentOk(i + 1, t[i]) by {
        forall i | 0 <= i < 6 ensures SegmentOk(i + 1, t[i]) {
          assert t[i] == p[i + 1];
        }
      }
    }
    if FullMatch(s) {
      var t :| |t| == 6 && (forall i :: 0 <= i < 6 ==> SegmentOk(i + 1, t[i])) && s == RegexText(t);
      var p := [Prefix] + t;
      RegexTextIsJoin(t);
      forall i | 0 <= i < 7 ensures Slash !in p[i] {
        if i > 0 {
          SegmentChars(i, p[i]);
        }
      }
      SplitJoin(p, Slash);
      assert forall i :: 1 <= i < 7 ==> SegmentOk(i, p[i]) by {
        forall i | 1 <= i < 7 ensures SegmentOk(i, p[i]) {
          assert p[i] == t[i - 1];
        }
      }
    }
  }

  /** A well-formed pattern holds no newline. */
  lemma WellFormedNoNewline(s: string)
    requires WellFormed(s)
    ensures '\n' !in s
  {
    var p := Split(s, Slash);
    forall i | 0 <= i < |p| ensures '\n' !in p[i] {
      if i > 0 {
        SegmentChars(i, p[i]);
      }
    }
    JoinAvoids(p, Slash, '\n');
    JoinSplit(s, Slash);
  }

  /** A pattern followed by one newline is accepted exactly when the pattern
      itself is well-formed. */
  lemma AcceptsWithNewline(s: string)
    ensures Accepts(s + "\n") <==> WellFormed(s)
  {
    var s' := s + "\n";
    assert s'[..|s'| - 1] == s;
    assert s'[|s'| - 1] == '\n';
    if WellFormed(s') {
      WellFormedNoNewline(s');
    }
  }

  /** What `split('/')` yields for an accepted pattern: seven parts, the
      prefix first, segments 1 to 5 from the grammar, and segment 6 from the
      grammar too unless the pattern ends in a newline, in which case the
      parts are those of the pattern without it, the newline kept on
      segment 6. */
  lemma AcceptedParts(s: string)
    requires Accepts(s)
    ensures var p := Split(s, Slash);
      |p| == 7 && p[0] == Prefix &&
      (forall i :: 1 <= i < 6 ==> SegmentOk(i, p[i])) &&
      (WellFormed(s) ==> SegmentOk(6, p[6])) &&
      (!WellFormed(s) ==>
         var q := Split(s[..|s| - 1], Slash);
         WellFormed(s[..|s| - 1]) && p == q[..6] + [q[6] + "\n"])
  {
    if !WellFormed(s) {
      var w := s[..|s| - 1];
      assert s == w + ['\n'];
      var q := Split(w, Slash);
      JoinSplit(w, Slash);
      JoinExtendLast(q, Slash, '\n');
      var q' := q[..6] + [q[6] + ['\n']];
      forall i | 0 <= i < 7 ensures Slash !in q'[i] {
        if i == 6 {
          assert forall k :: 0 <= k < |q[6]| ==> q[6][k] != Slash;
        } else {
          assert q'[i] == q[i];
        }
      }
      SplitJoin(q', Slash);
      assert Split(s, Slash) == q';
    }
  }
}
