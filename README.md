# PRC admin mover — a Dafny model

The mover is a one-shot wiki maintenance script. It takes a source and a
destination title pattern of the form `PRC_admin/<kind>/<aa>/<bb>/<cc>/<ddd>/<eee>`,
where any segment may be the wildcard `%`. It checks both patterns and checks
that their wildcards line up. It then fetches the template titles that match
the source pattern and computes each title's new name: a wildcard segment
keeps the title's own value, and any other segment takes the destination's.
It writes the list of renames to `changes.csv`. After the operator confirms,
it moves every page.

This project models the body of `PrcAdminMover.main` (move.py) in three modules:

- `Text` (text.dfy): Python's `str.split` and `str.join` for a one-character
  separator, with the two round trips between them.
- `Pattern` (pattern.dfy): the validator. `WellFormed` states the pattern
  grammar segment by segment over `split('/')`. `FullMatch` reads the regular
  expression directly, as the prefix followed by six tokens. The two are proved
  equal. `Accepts` is what `re.search` does with that expression: the final `$`
  also matches just before a newline that ends the string.
- `Mover` (mover.dfy): the run itself.
  - `CheckWildcards` is the early-return consistency loop.
  - `RewriteRow` is the loop that builds the new segments by appending.
  - `BuildChanges` is the loop over the query rows.
  - `WriteLog` is the CSV write loop.
  - `IssueMoves` is the confirm-gated move loop.
  - `Run` is `main` as a whole, returning an `Outcome`.

Each loop is specified against a function: `Rewritten`, `RewriteTitle` or
`CsvLog`. The properties are proved as lemmas about those functions.

The model follows the code as written in these places:

- **A trailing newline is accepted.** The code validates with `re.search` and
  `$`, so a pattern that ends in one newline is accepted. `split('/')` then
  leaves the newline on segment 6. So `%\n` passes validation, but the
  consistency check and the rewrite treat it as a literal segment, not a
  wildcard. `Mover.NewlineWildcardIsLiteral` shows where this leads: every new
  title then ends in the segment `%\n`.
- **Short rows raise an error.** A database row with too few segments raises
  `IndexError` on `old[i]`. The source reads `old[i]` only where the source
  pattern has a wildcard. The model has the same condition (`Fits`). The run
  then ends with `RowIndexError`, before any log line is written and before
  any move is made.
- **Extra segments are dropped.** Segments of a row beyond the sixth do not
  appear in the new title.
- **The query uses the module-level `args`.** The query reads `args.source`,
  not `self.args.source`. When move.py runs as a script these are the same
  object, and the model uses the source pattern as given.

## Model

| member | source | states |
|---|---|---|
| `Text.Split` | move.py:51-52 | `split('/')` yields at least one part, and no part contains the separator |
| `Text.JoinSplit` | move.py:71-79 | `'/'.join(title.split('/'))` gives back the title, so each change's old title is the database row itself |
| `Text.SplitJoin` | move.py:79-80 | splitting the join of separator-free parts gives back exactly those parts |
| `Text.SplitConcat` | move.py:83-85 | a separator between two strings keeps their parts apart; splitting the concatenation gives the parts of the first string followed by the parts of the second |
| `Pattern.WellFormedIffFullMatch` | move.py:44 | the segment-wise grammar accepts exactly the strings that are `PRC_admin/` followed by six slash-separated tokens, each from its group's alternatives (`data`/`list`/`%`, then two-digit codes or `%` three times, then three-digit codes or `%` twice) |
| `Pattern.AcceptsWithNewline` | move.py:44-50 | a pattern followed by one newline is accepted if and only if the pattern without it is well-formed |
| `Pattern.WellFormedNoNewline` | move.py:44 | a well-formed pattern contains no newline |
| `Pattern.AcceptedParts` | move.py:44-52 | an accepted pattern splits into exactly 7 parts, with `PRC_admin` first and segments 1 to 5 from the grammar; segment 6 is from the grammar too unless the pattern ended in a newline, in which case the parts are those of the pattern without the newline, and the newline stays on segment 6 |
| `Mover.CheckWildcards` | move.py:53-56 | accepts if and only if, at every position 1 to 6, the source is `%` exactly when the destination is; on rejection it reports the first position where this fails |
| `Mover.RewriteRow` | move.py:72-77 | fails (IndexError) exactly when some wildcard position of the source is beyond the row's segments; otherwise the result is segment 0 of the row, then the row's segment where the source is `%` and the destination's segment elsewhere, seven segments in all |
| `Mover.NewTitleParts` | move.py:79-80 | splitting the joined new title gives back the rewritten segments |
| `Mover.NewTitleMatchesDestination` | move.py:53-56 | for a consistent pair, the new title has 7 segments and keeps segment 0; it matches the destination pattern segment by segment; at every wildcard of the destination it keeps the row's own segment |
| `Mover.RewriteIdempotent` | move.py:69-81 | rewriting a new title again with the same patterns gives the same title |
| `Mover.MoveBackRestores` | move.py:51-81 | for a consistent pair and a seven-segment title that matches the source pattern, rewriting the new title with the patterns swapped gives back the original title |
| `Mover.BuildChanges` | move.py:69-81 | either one change per row, in row order, each pairing the row with its rewritten title; or the first row that raises IndexError, every earlier row having fitted |
| `Mover.CsvLogAppend` | move.py:83-85 | appending a change to the list appends its `old,new\n` line to the log |
| `Mover.WriteLog` | move.py:82-85 | the written text is the concatenation, in order, of `old + "," + new + "\n"` for each change |
| `Mover.LogLines` | move.py:82-85 | when no title contains a newline, the log splits on newlines into exactly one `old,new` line per change, in order, followed by the empty string after the final newline |
| `Mover.IssueMoves` | move.py:89-97 | no request when the operator declines; otherwise one request per change, in order, from `Template:` + old to `Template:` + new, with the summary as reason, moving the talk page, leaving no redirect and not moving subpages |
| `Mover.Run` | move.py:36-101 | a disabled run does nothing; an invalid source, then an invalid destination, then a wildcard mismatch (with its first position and both segments) each stop the run; the query runs exactly for an enabled run with two accepted, consistent patterns; a completed run has one change per row in order, logs them, and moves them only on confirmation |
| `Mover.KindPatternParts` | move.py:44-52 | the pattern with kind `data` or `list` and wildcards elsewhere is well-formed and splits as expected, and the same holds with a final newline added |
| `Mover.DataToList` | move.py:44-81 | moving `PRC_admin/data/%/%/%/%/%` to `PRC_admin/list/%/%/%/%/%`: both patterns pass and agree, and every title of at least seven segments gets segment 1 `list`, keeps segment 0 and segments 2 to 6, and loses any further segment |
| `Mover.NewlineWildcardIsLiteral` | move.py:44-77 | the same two patterns, each followed by a newline, are both accepted and consistent; their last segment is `%\n`, and every new title has `%\n` as its seventh segment instead of the row's own |

## Left out

- Site creation, login, reading and JSON-parsing the configuration page, and `page.move` (move.py:23-34, 95-97) are calls into the pywikibot library. The configuration's `enable` flag is a boolean input, and the moves are returned as `MoveRequest` values.
- The database connection and the SQL query (move.py:58-68) are left out. The rows are an arbitrary input sequence of titles. The `LIKE` semantics are not modelled: there, `_` in `PRC_admin` matches any character and `%` can span `/`. So the model does not assume that a row matches the source pattern.
- Decoding rows from bytes (move.py:71) is left out; rows arrive as strings.
- Opening and writing `changes.csv`, the `print` calls and all logging (move.py:26-30, 82-88, 96) are left out. Only the text written to the file is modelled, by `CsvLog`.
- `pywikibot.input_yn` (move.py:89) is the boolean input `confirm`.
- Formatting the summary from the configuration's template (move.py:87) is a library call on an external string. The formatted summary is an input.
- Argument parsing, environment variables and logger levels (move.py:11, 16, 104-116) are left out. config.sample.py only reads database credentials from a file, so it is left out too.
- A failure raised by one `page.move` call stops the remaining moves. The model returns the full list of requests and does not model a partial run.
- Errors the script does not handle (a missing configuration key, a failing database) are left out. The only unhandled error modelled is the row `IndexError`.
- Pattern.IsDigit: Python's `\d` accepts every Unicode decimal digit. The model accepts only the ASCII digits `0`-`9`, so patterns with other decimal digits are rejected where the source would accept them.
