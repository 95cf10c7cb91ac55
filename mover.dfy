/** The pipeline of `PrcAdminMover.main` in move.py: check the run gate,
    validate both patterns, check that wildcards line up, rewrite every
    title the database returned, write the change log, and issue one move
    per change once the operator confirms.  The database rows, the
    configuration flag, the formatted summary and the operator's answer are
    inputs; the moves are returned as requests. */
module Mover {
  import opened Text
  import opened Pattern

  datatype Option<T> = None | Some(value: T)

  /** One entry of `changes`: the old title and the new one. */
  datatype Change = Change(before: string, after: string)

  /** One call of `page.move(new_title, reason=summary, movetalk=True,
      noredirect=True, movesubpages=False)` on the page `from`. */
  datatype MoveRequest = MoveRequest(from: string, to: string, reason: string,
                                     moveTalk: bool, noRedirect: bool, moveSubpages: bool)

  /** The namespace the titles of the database rows live in. */
  const Namespace := "Template:"

  /** How a run of `main` ends. `RowIndexError` is the `IndexError` raised
      when a row has too few segments for a wildcard position; it stops the
      run before the log is written. The `query` field is the LIKE pattern
      sent to the database, present exactly when the query runs. */
  datatype Outcome =
    | Disabled
    | InvalidSource
    | InvalidDestination
    | WildcardMismatch(position: nat, sourceSegment: string, destinationSegment: string)
    | RowIndexError(query: string, row: nat)
    | Completed(query: string, changes: seq<Change>, log: string, moves: seq<MoveRequest>)

  // ---------------------------------------------------------------------
  // Wildcard consistency

  /** At position `i`, the source is a wildcard exactly when the destination is. */
  predicate AgreeAt(src: seq<string>, dst: seq<string>, i: nat)
    requires i < |src| && i < |dst|
  {
    (src[i] == Wildcard) == (dst[i] == Wildcard)
  }

  predicate WildcardsAgree(src: seq<string>, dst: seq<string>) {
    |src| >= 7 && |dst| >= 7 && forall i :: 1 <= i < 7 ==> AgreeAt(src, dst, i)
  }

  /** The `for i in range(1, 7)` loop: it stops at the first position where
      one side is `%` and the two sides differ, and reports that position. */
  method CheckWildcards(src: seq<string>, dst: seq<string>) returns (ok: bool, position: nat)
    requires |src| >= 7 && |dst| >= 7
    ensures ok <==> WildcardsAgree(src, dst)
    ensures !ok ==> 1 <= position < 7 && !AgreeAt(src, dst, position)
    ensures !ok ==> forall j :: 1 <= j < position ==> AgreeAt(src, dst, j)
  {
    for i := 1 to 7
      invariant forall j :: 1 <= j < i ==> AgreeAt(src, dst, j)
    {
      if (src[i] == Wildcard || dst[i] == Wildcard) && src[i] != dst[i] {
        assert !AgreeAt(src, dst, i);
        return false, i;
      }
    }
    return true, 0;
  }

  // ---------------------------------------------------------------------
  // Rewriting one title

  /** The row has a segment at every position where the source pattern is
      a wildcard, so that `old[i]` does not raise `IndexError`. */
  predicate Fits(src: seq<string>, segs: seq<string>) {
    |src| >= 7 && forall i :: 1 <= i < 7 && src[i] == Wildcard ==> i < |segs|
  }

  /** Segment `i` of the new title: the row's own where the source is a
      wildcard, the destination's otherwise. */
  function NewSegment(src: seq<string>, dst: seq<string>, segs: seq<string>, i: nat): string
    requires 1 <= i < 7 <= |src| && 7 <= |dst|
    requires src[i] == Wildcard ==> i < |segs|
  {
    if src[i] == Wildcard then segs[i] else dst[i]
  }

  /** The segments of the new title: segment 0 of the row, then six rewritten
      segments. Segments of the row beyond the sixth are dropped. */
  function Rewritten(src: seq<string>, dst: seq<string>, segs: seq<string>): seq<string>
    requires Fits(src, segs) && |dst| >= 7 && |segs| >= 1
  {
    [segs[0]] + seq(6, j requires 0 <= j < 6 => NewSegment(src, dst, segs, j + 1))
  }

  /** The new title for `title`: `'/'.join(new)`. */
  function RewriteTitle(src: seq<string>, dst: seq<string>, title: string): string
    requires Fits(src, Split(title, Slash)) && |dst| >= 7
  {
    Join(Rewritten(src, dst, Split(title, Slash)), Slash)
  }

  /** Splitting the new title gives back its segments. */
  lemma NewTitleParts(src: seq<string>, dst: seq<string>, title: string)
    requires Fits(src, Split(title, Slash)) && |dst| >= 7
    requires forall i :: 1 <= i < 7 ==> Slash !in dst[i]
    ensures Split(RewriteTitle(src, dst, title), Slash) == Rewritten(src, dst, Split(title, Slash))
  {
    SplitJoin(Rewritten(src, dst, Split(title, Slash)), Slash);
  }

  /** The inner loop that builds `new` by appending; `None` is the
      `IndexError` of `old[i]`. */
  method RewriteRow(src: seq<string>, dst: seq<string>, segs: seq<string>) returns (renamed: Option<seq<string>>)
    requires |src| >= 7 && |dst| >= 7 && |segs| >= 1
    ensures renamed.None? <==> !Fits(src, segs)
    ensures renamed.Some? ==> renamed.value == Rewritten(src, dst, segs)
  {
    var parts := [segs[0]];
    for i := 1 to 7
      invariant |parts| == i && parts[0] == segs[0]
      invariant forall j :: 1 <= j < i && src[j] == Wildcard ==> j < |segs|
      invariant forall j :: 1 <= j < i ==> parts[j] == NewSegment(src, dst, segs, j)
    {
      if src[i] == Wildcard {
        if i >= |segs| {
          return None;
        }
        parts := parts + [segs[i]];
      } else {
        parts := parts + [dst[i]];
      }
    }
    assert forall j :: 0 <= j < 7 ==> parts[j] == Rewritten(src, dst, segs)[j];
    return Some(parts);
  }

  /** Matching `pattern` segment by segment: seven segments, and every
      non-wildcard position of the pattern is met literally. */
  predicate MatchesSegments(parts: seq<string>, pattern: seq<string>) {
    |parts| == 7 && |pattern| >= 7 &&
    forall i :: 1 <= i < 7 ==> pattern[i] == Wildcard || parts[i] == pattern[i]
  }

  /** For a consistent pair, the new title has seven segments, keeps the
      row's segment at every wildcard of the destination and carries the
      destination's own segment everywhere else. */
  lemma NewTitleMatchesDestination(source: string, destination: string, title: string)
    requires WildcardsAgree(Split(source, Slash), Split(destination, Slash))
    requires Fits(Split(source, Slash), Split(title, Slash))
    ensures var src, dst, segs := Split(source, Slash), Split(destination, Slash), Split(title, Slash);
      var n := Split(RewriteTitle(src, dst, title), Slash);
      |n| == 7 && n[0] == segs[0] && MatchesSegments(n, dst) &&
      forall i :: 1 <= i < 7 && dst[i] == Wildcard ==> i < |segs| && n[i] == segs[i]
  {
    var src, dst, segs := Split(source, Slash), Split(destination, Slash), Split(title, Slash);
    var r := Rewritten(src, dst, segs);
    SplitJoin(r, Slash);
    forall i | 1 <= i < 7
      ensures dst[i] == Wildcard ==> i < |segs| && r[i] == segs[i]
      ensures dst[i] != Wildcard ==> r[i] == dst[i]
    {
      assert AgreeAt(src, dst, i);
    }
  }

  /** Rewriting a rewritten title again changes nothing. */
  lemma RewriteIdempotent(source: string, destination: string, title: string)
    requires |Split(destination, Slash)| >= 7
    requires Fits(Split(source, Slash), Split(title, Slash))
    ensures var src, dst := Split(source, Slash), Split(destination, Slash);
      var t := RewriteTitle(src, dst, title);
      Fits(src, Split(t, Slash)) && RewriteTitle(src, dst, t) == t
  {
    var src, dst, segs := Split(source, Slash), Split(destination, Slash), Split(title, Slash);
    var r := Rewritten(src, dst, segs);
    SplitJoin(r, Slash);
    assert Rewritten(src, dst, r) == r by {
      assert forall j :: 0 <= j < 7 ==> Rewritten(src, dst, r)[j] == r[j];
    }
  }

  /** Moving back with the two patterns swapped restores a title that
      matched the source pattern. */
  lemma MoveBackRestores(source: string, destination: string, title: string)
    requires WildcardsAgree(Split(source, Slash), Split(destination, Slash))
    requires MatchesSegments(Split(title, Slash), Split(source, Slash))
    ensures var src, dst := Split(source, Slash), Split(destination, Slash);
      var t := RewriteTitle(src, dst, title);
      Fits(dst, Split(t, Slash)) && RewriteTitle(dst, src, t) == title
  {
    var src, dst, segs := Split(source, Slash), Split(destination, Slash), Split(title, Slash);
    var r := Rewritten(src, dst, segs);
    SplitJoin(r, Slash);
    forall j | 0 <= j < 7 ensures Rewritten(dst, src, r)[j] == segs[j] {
      if j > 0 {
        assert AgreeAt(src, dst, j);
      }
    }
    assert Rewritten(dst, src, r) == segs;
    JoinSplit(title, Slash);
  }

  // ---------------------------------------------------------------------
  // The list of changes

  datatype Built = Built(changes: seq<Change>) | ShortRow(row: nat)

  /** The loop over the query result: one change per row, in row order, the
      old title being the row itself; or the first row that raises
      `IndexError`. */
  method BuildChanges(src: seq<string>, dst: seq<string>, rows: seq<string>) returns (b: Built)
    requires |src| >= 7 && |dst| >= 7
    ensures b.Built? ==> |b.changes| == |rows|
    ensures b.Built? ==> forall k :: 0 <= k < |rows| ==>
      Fits(src, Split(rows[k], Slash)) && b.changes[k] == Change(rows[k], RewriteTitle(src, dst, rows[k]))
    ensures b.ShortRow? ==> b.row < |rows| && !Fits(src, Split(rows[b.row], Slash))
    ensures b.ShortRow? ==> forall k :: 0 <= k < b.row ==> Fits(src, Split(rows[k], Slash))
  {
    var changes: seq<Change> := [];
    for k := 0 to |rows|
      invariant |changes| == k
      invariant forall j :: 0 <= j < k ==>
        Fits(src, Split(rows[j], Slash)) && changes[j] == Change(rows[j], RewriteTitle(src, dst, rows[j]))
    {
      var segs := Split(rows[k], Slash);
      var renamed := RewriteRow(src, dst, segs);
      if renamed.None? {
        return ShortRow(k);
      }
      JoinSplit(rows[k], Slash);
      changes := changes + [Change(Join(segs, Slash), Join(renamed.value, Slash))];
    }
    return Built(changes);
  }

  // ---------------------------------------------------------------------
  // The change log

  /** A line of `changes.csv` without its newline. */
  function Line(c: Change): string {
    c.before + "," + c.after
  }

  function Lines(cs: seq<Change>): seq<string> {
    seq(|cs|, k requires 0 <= k < |cs| => Line(cs[k]))
  }

  /** The text of `changes.csv`: `'%s,%s\n' % change` for each change. */
  function CsvLog(cs: seq<Change>): string {
    if |cs| == 0 then "" else Line(cs[0]) + "\n" + CsvLog(cs[1..])
  }

  lemma {:induction false} CsvLogAppend(cs: seq<Change>, c: Change)
    ensures CsvLog(cs + [c]) == CsvLog(cs) + Line(c) + "\n"
  {
    if |cs| > 0 {
      assert (cs + [c])[1..] == cs[1..] + [c];
      CsvLogAppend(cs[1..], c);
    } else {
      assert [c][1..] == [];
    }
  }

  /** The write loop over `changes`. */
  method WriteLog(changes: seq<Change>) returns (log: string)
    ensures log == CsvLog(changes)
  {
    log := "";
    for k := 0 to |changes|
      invariant log == CsvLog(changes[..k])
    {
      CsvLogAppend(changes[..k], changes[k]);
      assert changes[..k + 1] == changes[..k] + [changes[k]];
      log := log + Line(changes[k]) + "\n";
    }
    assert changes[..|changes|] == changes;
  }

  /** When no title holds a newline, the log splits into exactly one line
      per change, in order, followed by the empty rest after the final newline. */
  lemma {:induction false} LogLines(cs: seq<Change>)
    requires forall k :: 0 <= k < |cs| ==> '\n' !in cs[k].before && '\n' !in cs[k].after
    ensures Split(CsvLog(cs), '\n') == Lines(cs) + [""]
  {
    if |cs| > 0 {
      LogLines(cs[1..]);
      var line := Line(cs[0]);
      assert '\n' !in line by {
        assert forall k :: 0 <= k < |line| ==> line[k] in cs[0].before || line[k] == ',' || line[k] in cs[0].after;
      }
      SplitNoSep(line, '\n');
      SplitConcat(line, CsvLog(cs[1..]), '\n');
      assert CsvLog(cs) == line + ['\n'] + CsvLog(cs[1..]);
      assert Lines(cs) == [line] + Lines(cs[1..]);
    }
  }

  // ---------------------------------------------------------------------
  // The moves

  function RequestFor(c: Change, summary: string): MoveRequest {
    MoveRequest(Namespace + c.before, Namespace + c.after, summary, true, true, false)
  }

  /** The confirm-gated `enumerate` loop: no move when the operator declines,
      otherwise one per change, in order, between the two titles in the
      template namespace. */
  method IssueMoves(changes: seq<Change>, summary: string, confirm: bool) returns (moves: seq<MoveRequest>)
    ensures !confirm ==> moves == []
    ensures confirm ==> |moves| == |changes|
    ensures confirm ==> forall k :: 0 <= k < |changes| ==>
      moves[k].from == Namespace + changes[k].before && moves[k].to == Namespace + changes[k].after &&
      moves[k].reason == summary && moves[k].moveTalk && moves[k].noRedirect && !moves[k].moveSubpages
  {
    moves := [];
    if confirm {
      for k := 0 to |changes|
        invariant |moves| == k
        invariant forall j :: 0 <= j < k ==> moves[j] == RequestFor(changes[j], summary)
      {
        moves := moves + [RequestFor(changes[k], summary)];
      }
    }
  }

  // ---------------------------------------------------------------------
  // The whole run

  /** `main`: each check stops the run before anything after it happens;
      the query runs only for an enabled run with two accepted, consistent
      patterns; a completed run logs one line per row and moves only on
      confirmation. */
  method Run(enable: bool, source: string, destination: string, rows: seq<string>,
             summary: string, confirm: bool) returns (r: Outcome)
    ensures r == Disabled <==> !enable
    ensures enable ==> (r == InvalidSource <==> !Accepts(source))
    ensures enable && Accepts(source) ==> (r == InvalidDestination <==> !Accepts(destination))
    ensures r.WildcardMismatch? <==>
      enable && Accepts(source) && Accepts(destination) &&
      !WildcardsAgree(Split(source, Slash), Split(destination, Slash))
    ensures (r.RowIndexError? || r.Completed?) <==>
      enable && Accepts(source) && Accepts(destination) &&
      WildcardsAgree(Split(source, Slash), Split(destination, Slash))
    ensures r.WildcardMismatch? ==>
      var src, dst := Split(source, Slash), Split(destination, Slash);
      |src| == 7 && |dst| == 7 && 1 <= r.position < 7 &&
      r.sourceSegment == src[r.position] && r.destinationSegment == dst[r.position] &&
      !AgreeAt(src, dst, r.position) && forall j :: 1 <= j < r.position ==> AgreeAt(src, dst, j)
    ensures r.RowIndexError? ==>
      r.query == source && r.row < |rows| && !Fits(Split(source, Slash), Split(rows[r.row], Slash)) &&
      forall j :: 0 <= j < r.row ==> Fits(Split(source, Slash), Split(rows[j], Slash))
    ensures r.Completed? ==>
      var src, dst := Split(source, Slash), Split(destination, Slash);
      r.query == source && |r.changes| == |rows| &&
      (forall k :: 0 <= k < |rows| ==>
         Fits(src, Split(rows[k], Slash)) && r.changes[k] == Change(rows[k], RewriteTitle(src, dst, rows[k]))) &&
      r.log == CsvLog(r.changes) &&
      (!confirm ==> r.moves == []) &&
      (confirm ==>
         |r.moves| == |r.changes| &&
         forall k :: 0 <= k < |r.changes| ==> r.moves[k] == RequestFor(r.changes[k], summary))
  {
    if !enable {
      return Disabled;
    }
    if !Accepts(source) {
      return InvalidSource;
    }
    if !Accepts(destination) {
      return InvalidDestination;
    }
    var src := Split(source, Slash);
    var dst := Split(destination, Slash);
    AcceptedParts(source);
    AcceptedParts(destination);
    var ok, position := CheckWildcards(src, dst);
    if !ok {
      return WildcardMismatch(position, src[position], dst[position]);
    }
    var built := BuildChanges(src, dst, rows);
    if built.ShortRow? {
      return RowIndexError(source, built.row);
    }
    var log := WriteLog(built.changes);
    var moves := IssueMoves(built.changes, summary, confirm);
    return Completed(source, built.changes, log, moves);
  }

  // ---------------------------------------------------------------------
  // Two concrete pattern pairs

  /** The two patterns that switch the kind segment from `data` to `list`. */
  const DataAll := "PRC_admin/data/%/%/%/%/%"
  const ListAll := "PRC_admin/list/%/%/%/%/%"

  /** The patterns that keep every code and fix the kind segment to `kind`,
      without and with a final newline. */
  lemma KindPatternParts(kind: string)
    requires SegmentOk(1, kind)
    ensures var w := RegexText([kind, "%", "%", "%", "%", "%"]);
      WellFormed(w) && Accepts(w + "\n") &&
      Split(w, Slash) == [Prefix, kind, "%", "%", "%", "%", "%"] &&
      Split(w + "\n", Slash) == [Prefix, kind, "%", "%", "%", "%", "%\n"]
  {
    var p := [Prefix, kind, "%", "%", "%", "%", "%"];
    var w := RegexText(p[1..]);
    RegexTextIsJoin(p[1..]);
    SegmentChars(1, kind);
    SplitJoin(p, Slash);
    NewlineParts(w, p);
    assert "%" + "\n" == "%\n";
    var p' := p[..6] + ["%" + "\n"];
    assert forall i :: 0 <= i < 7 ==> p'[i] == [Prefix, kind, "%", "%", "%", "%", "%\n"][i];
  }

  lemma DataListParts()
    ensures Split(DataAll, Slash) == [Prefix, "data", "%", "%", "%", "%", "%"]
    ensures Split(ListAll, Slash) == [Prefix, "list", "%", "%", "%", "%", "%"]
    ensures Split(DataAll + "\n", Slash) == [Prefix, "data", "%", "%", "%", "%", "%\n"]
    ensures Split(ListAll + "\n", Slash) == [Prefix, "list", "%", "%", "%", "%", "%\n"]
    ensures WellFormed(DataAll) && WellFormed(ListAll)
    ensures Accepts(DataAll + "\n") && Accepts(ListAll + "\n")
  {
    assert DataAll == RegexText(["data", "%", "%", "%", "%", "%"]);
    assert ListAll == RegexText(["list", "%", "%", "%", "%", "%"]);
    KindPatternParts("data");
    KindPatternParts("list");
  }

  /** The rewrite for the kind switch, on the split patterns. */
  lemma KindSwitch(src: seq<string>, dst: seq<string>, segs: seq<string>)
    requires src == [Prefix, "data", "%", "%", "%", "%", "%"]
    requires dst == [Prefix, "list", "%", "%", "%", "%", "%"]
    requires |segs| >= 7
    ensures WildcardsAgree(src, dst) && Fits(src, segs)
    ensures Rewritten(src, dst, segs) == [segs[0], "list"] + segs[2..7]
  {
    assert AgreeAt(src, dst, 1);
  }

  /** Moving every `data` template to `list`: both patterns pass, and each
      title changes segment 1 to `list`, keeps segments 0 and 2 to 6, and
      drops any further segment. */
  lemma DataToList(title: string)
    requires |Split(title, Slash)| >= 7
    ensures var src, dst, segs := Split(DataAll, Slash), Split(ListAll, Slash), Split(title, Slash);
      Accepts(DataAll) && Accepts(ListAll) && WildcardsAgree(src, dst) && Fits(src, segs) &&
      Split(RewriteTitle(src, dst, title), Slash) == [segs[0], "list"] + segs[2..7]
  {
    DataListParts();
    KindSwitch(Split(DataAll, Slash), Split(ListAll, Slash), Split(title, Slash));
    NewTitleParts(Split(DataAll, Slash), Split(ListAll, Slash), title);
  }

  /** The rewrite for the kind switch when both patterns end in a newline. */
  lemma NewlineSwitch(src: seq<string>, dst: seq<string>, segs: seq<string>)
    requires src == [Prefix, "data", "%", "%", "%", "%", "%\n"]
    requires dst == [Prefix, "list", "%", "%", "%", "%", "%\n"]
    requires |segs| >= 6
    ensures WildcardsAgree(src, dst) && Fits(src, segs)
    ensures Rewritten(src, dst, segs) == [segs[0], "list"] + segs[2..6] + ["%\n"]
    ensures |Rewritten(src, dst, segs)| == 7 && Rewritten(src, dst, segs)[6] == "%\n"
  {
    assert AgreeAt(src, dst, 1);
    assert src[6] != Wildcard;
  }

  /** `$` lets a final newline through: with one after each pattern both are
      accepted, their last segment is `%\n`, which is no wildcard, and every
      new title ends in that literal segment instead of the row's own. */
  lemma NewlineWildcardIsLiteral(title: string)
    requires |Split(title, Slash)| >= 6
    ensures var src, dst := Split(DataAll + "\n", Slash), Split(ListAll + "\n", Slash);
      Accepts(DataAll + "\n") && Accepts(ListAll + "\n") && WildcardsAgree(src, dst) && src[6] == "%\n" &&
      Fits(src, Split(title, Slash)) &&
      var n := Split(RewriteTitle(src, dst, title), Slash);
      |n| == 7 && n[6] == "%\n"
  {
    DataListParts();
    NewlineSwitch(Split(DataAll + "\n", Slash), Split(ListAll + "\n", Slash), Split(title, Slash));
    NewTitleParts(Split(DataAll + "\n", Slash), Split(ListAll + "\n", Slash), title);
  }

  /** The parts of a well-formed pattern followed by a newline. */
  lemma NewlineParts(w: string, q: seq<string>)
    requires WellFormed(w) && Split(w, Slash) == q
    ensures Accepts(w + "\n")
    ensures Split(w + "\n", Slash) == q[..6] + [q[6] + "\n"]
  {
    var s := w + "\n";
    AcceptsWithNewline(w);
    assert s[..|s| - 1] == w;
    if WellFormed(s) {
      WellFormedNoNewline(s);
    }
    AcceptedParts(s);
  }
}
