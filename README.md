# vhdl_to_dot in Dafny

This project models the core of `doc/vhdl_to_dot.py` from realtimestagram. That script reads
the output of the GHDL VHDL analyser and recovers one entity from it: the entity's name and
its input and output ports. It then writes the entity as a Graphviz `digraph`. The model has
three parts:

- **Extraction.** `Extraction.ParseEntities` models the line loop of `parse_entities_from_vhdl`.
  It is an imperative `for` loop over the lines of the trace and carries the current entity
  and the pending port. It is proved equal to a fold, `Extraction.Extract`, over a one-line
  step function. The three regular expressions are modelled as extractors in `Patterns`. Each
  extractor is proved to be equivalent to a reference form that spells out what the
  leftmost-greedy match captures.
- **Data model.** `Entities` holds `Port`, `Entity` and the `ports[token]` lookup. The lookup
  fails on any key other than `in` and `out`.
- **Rendering.** `Dot.DotGraph` models class `dot_graph`. It has an immutable `entity` field and
  a `Render` method that builds the line list with two `for` loops and joins it with newlines.

The modules, in dependency order:

- `Wrappers`: the Option and Result types.
- `Text`:
  - Python's `\s` and `str.upper()` for ASCII letters;
  - the newline-free stretch a `.*` can cover;
  - `split("\n")` and `"\n".join`, with their round trips;
  - `str()` of an integer.
- `Patterns`: the three regular expressions.
- `Entities`: the data model.
- `Extraction`: the loop.
- `Records`: trace records built from declarations, and the round trips through the scanner.
- `Dot`: the renderer.
- `EndToEnd`: an entity the scan extracts renders line by line.

## Where the code behaves other than one might expect

The model follows the code in each of these cases.

- **The pending port survives an entity line.** An entity line replaces the entity, but the
  pending port is kept (lines 49-52). A mode record that comes after a new entity but before any
  new signal record therefore attaches the old port to the new entity. A natural reading of
  "start a new entity" would clear the port as well; the code does not.
- **The scan can fail.** A mode token other than exactly `in` or `out` raises `KeyError` at line
  59, and nothing in the script catches it, so the whole run stops. A reader could easily take
  the scan for total; it is not. The model returns `Err(KeyError(token))` and stops.
- **A mode record needs leading whitespace.** The mode pattern is `\s+mode:\s+(.*)` and is
  applied with `re.match`, so the line must start with whitespace. A line such as `mode: in`
  at column 0 is ignored.
- **Which entity is rendered.** `__repr__` reads the module-global `entity` on lines 76, 81 and
  85, and `self.entity` everywhere else. The model uses `self.entity` throughout. Run as a
  program, the script binds the global at line 117 and passes that same object to `dot_graph`
  (lines 94 and 119), so the two agree. Imported into other code, the source can raise
  `NameError` or mix two entities; "## Left out" says what the model leaves out there.

## Model

| member | source | states |
|---|---|---|
| Text.IsSpace | doc/vhdl_to_dot.py:44 | space, tab, newline and carriage return are `\s`; no `\s` character is a letter, a digit or the colon of `mode:` |
| Text.UpperChar | doc/vhdl_to_dot.py:15 | the result is never a lower-case ASCII letter; it is the character itself, or the lower-case letter's capital (32 code points down) |
| Text.LeadingSpace | doc/vhdl_to_dot.py:44 | the length of the maximal run of `\s` characters a line starts with |
| Text.ToUpper | doc/vhdl_to_dot.py:15 | same length; every character upper-cased pointwise |
| Text.ToUpperIdempotent | doc/vhdl_to_dot.py:15 | an upper-cased string is upper-case, so upper-casing twice is upper-casing once |
| Text.Segment | doc/vhdl_to_dot.py:42-44 | the longest newline-free prefix, which is what `.*` can run over |
| Text.LastIndexOf | doc/vhdl_to_dot.py:42-43 | None exactly when the char is absent; otherwise its last position |
| Text.Find | doc/vhdl_to_dot.py:42-43 | None iff the key occurs nowhere; otherwise a position where it occurs and before which it occurs nowhere (the first occurrence) |
| Text.SplitLines | doc/vhdl_to_dot.py:48 | at least one piece, and no piece holds a newline |
| Text.JoinSplit | doc/vhdl_to_dot.py:48 | joining the pieces of a split gives back the text |
| Text.JoinLines | doc/vhdl_to_dot.py:90 | the first line opens the text; joined newline-free lines hold exactly one newline fewer than there are lines |
| Text.SplitJoin | doc/vhdl_to_dot.py:90 | splitting a join of newline-free lines gives back the lines |
| Text.NatToString | doc/vhdl_to_dot.py:78 | nonempty, all digits, and it starts with `0` only when it is `0` for `n = 0` (value: Text.NatToStringDenotes) |
| Text.IntToString | doc/vhdl_to_dot.py:78 | nonempty, and it starts with a minus sign iff `i < 0` (value: Text.IntToStringDenotes) |
| Text.NatToStringDenotes | doc/vhdl_to_dot.py:78 | `str(n)` is nonempty digits, starts with `0` only as `0` itself, and denotes `n` |
| Text.IntToStringDenotes | doc/vhdl_to_dot.py:78 | `str(i)` has a minus sign iff `i < 0`, then nonempty digits of `abs(i)` with no leading zero |
| Patterns.QuotedCapture | doc/vhdl_to_dot.py:42-43 | a capture lies on one line and holds no quote (its meaning: Patterns.QuotedCaptureMeaning) |
| Patterns.EntityName | doc/vhdl_to_dot.py:42 | a captured entity name lies on one line and holds no quote (its meaning: Patterns.EntityNameMeaning) |
| Patterns.SignalName | doc/vhdl_to_dot.py:43 | a captured signal name lies on one line and holds no quote (its meaning: Patterns.SignalNameMeaning) |
| Patterns.ModeCapture | doc/vhdl_to_dot.py:44 | a token lies on one line and does not start with `\s`, since the gap before it is maximal (its meaning: Patterns.ModeCaptureMeaning) |
| Patterns.ModeToken | doc/vhdl_to_dot.py:44 | the same for the mode pattern's token (its meaning: Patterns.ModeCaptureMeaning) |
| Patterns.QuotedCaptureMeaning | doc/vhdl_to_dot.py:42-43 | the capture is `z` iff the line is KEY then `'z'`, with `z` and the rest free of quotes, all on one line (greedy match) |
| Patterns.QuotedCaptureSound | doc/vhdl_to_dot.py:42-43 | a capture always comes from a split of the line matching the pattern |
| Patterns.QuotedCaptureComplete | doc/vhdl_to_dot.py:42-43 | a line with any split matching the pattern yields a capture |
| Patterns.ModeCaptureMeaning | doc/vhdl_to_dot.py:44 | the token is `z` iff the line is `\s+mode:\s+` then `z`, with `z` the whole rest of the line after a maximal gap |
| Patterns.ModeCaptureComplete | doc/vhdl_to_dot.py:44 | any line matching the mode pattern yields a token |
| Patterns.EntityNameMeaning | doc/vhdl_to_dot.py:42 | the entity pattern captures `z` iff the greedy reference form holds for `entity_declaration` |
| Patterns.SignalNameMeaning | doc/vhdl_to_dot.py:43 | the signal pattern captures `z` iff the greedy reference form holds for `interface_signal_declaration` |
| Patterns.QuotedCaptureOfRecord | doc/vhdl_to_dot.py:42-43 | a one-line record ending in a quoted name yields that name exactly when the key occurs before it |
| Entities.Direction.Other | doc/vhdl_to_dot.py:16 | a key and its other are distinct and together are both keys of the `ports` dictionary |
| Entities.NewEntity | doc/vhdl_to_dot.py:14-16 | the name is the given name upper-cased, character by character (hence upper-case); both port lists are empty |
| Entities.DirectionOf | doc/vhdl_to_dot.py:59 | the lookup succeeds with In iff the key is `in`, with Out iff it is `out` |
| Entities.Attach | doc/vhdl_to_dot.py:59 | the port goes at the end of the named list, `ports[d]` (read through Entities.Entity.PortsOf); the name and the other list are unchanged |
| Extraction.Step | doc/vhdl_to_dot.py:49-59 | only a signal line that is not an entity line changes the pending port; an upper-case entity name stays upper-case; a failure carries the line's mode token, which is neither `in` nor `out` |
| Extraction.Run | doc/vhdl_to_dot.py:48-59 | scanning keeps entity names upper-case, and a failure's key is never `in` or `out` |
| Extraction.Extract | doc/vhdl_to_dot.py:46-61 | a returned entity has an upper-case name; a failure's key is neither `in` nor `out`; no lines give None |
| Extraction.ParseEntities | doc/vhdl_to_dot.py:46-61 | the loop's result equals the fold of the one-line step over the split text |
| Extraction.EntityRecordStartsFresh | doc/vhdl_to_dot.py:49-52 | an entity line gives a fresh entity with the upper-cased name and no ports, keeps the pending port, and takes priority over the other patterns |
| Extraction.SignalRecordReplacesPort | doc/vhdl_to_dot.py:53-56 | a signal line that is not an entity line replaces the pending port and leaves the entity alone |
| Extraction.UnmatchedLineIgnored | doc/vhdl_to_dot.py:48-59 | a line that no pattern matches changes nothing |
| Extraction.OrphanModeRecordIgnored | doc/vhdl_to_dot.py:57-58 | a mode line without both a pending port and an entity changes nothing |
| Extraction.ModeRecordAppends | doc/vhdl_to_dot.py:57-59 | a valid mode line appends the pending port to exactly one list, keeps the other list and the name, and does not consume the port |
| Extraction.StepFailsExactly | doc/vhdl_to_dot.py:57-59 | a step fails iff the line is a mode line with an entity and a port present and a token other than `in`/`out`; the error carries that token |
| Extraction.RunAppend | doc/vhdl_to_dot.py:48 | scanning `a + b` is scanning `a`, then `b` from the resulting state, with an error ending the scan |
| Extraction.RunKeepsError | doc/vhdl_to_dot.py:59 | once a prefix fails, the whole scan fails with the same error |
| Extraction.NoEntityRecordKeepsNone | doc/vhdl_to_dot.py:46-59 | without an entity line the scan never fails and never has an entity |
| Extraction.NoEntityRecordNoResult | doc/vhdl_to_dot.py:46-61 | a trace without entity lines gives None |
| Extraction.EntityPersists | doc/vhdl_to_dot.py:57-59 | after an entity line, later non-entity lines keep its name and only extend its lists |
| Extraction.LastEntityWins | doc/vhdl_to_dot.py:49-52 | the last entity line restarts the result: what follows it works on a fresh entity of that name |
| Extraction.ModeRecordsReusePort | doc/vhdl_to_dot.py:57-59 | consecutive mode lines all reuse one pending port, adding one copy of it per line |
| Records.EntityRecordRecognised | doc/vhdl_to_dot.py:42 | an entity record yields its quoted name |
| Records.SignalRecordRecognised | doc/vhdl_to_dot.py:42-43 | a signal record is not an entity record and yields its quoted name |
| Records.ModeLineRecognised | doc/vhdl_to_dot.py:44 | a mode record is only a mode record and yields its whole token |
| Records.ModeRecordRecognised | doc/vhdl_to_dot.py:57-59 | the mode record of a direction yields its token, which looks up that direction |
| Records.DeclStep | doc/vhdl_to_dot.py:53-59 | a signal record followed by a mode record appends that port under its direction and leaves it pending |
| Records.DeclarationsRecovered | doc/vhdl_to_dot.py:46-59 | an entity record followed by declarations yields exactly the declared inputs and outputs in order, with the last port pending |
| Records.DeclaredAppend | doc/vhdl_to_dot.py:59 | the ports declared with a direction distribute over concatenation |
| Records.DeclaredTagged | doc/vhdl_to_dot.py:59 | ports tagged with one direction are all of that direction and none of the other |
| Records.EntityTraceRecovered | doc/vhdl_to_dot.py:46-61 | the trace of an entity with plain upper-case names scans back to that entity |
| Records.TraceTextRecovered | doc/vhdl_to_dot.py:48-61 | the same holds for the trace joined into one text and split again |
| Records.EntityThenSignal | doc/vhdl_to_dot.py:49-56 | an entity record then a signal record give a fresh entity with no ports and that port pending |
| Records.UnknownDirectionFails | doc/vhdl_to_dot.py:57-59 | a declaration with a token other than `in`/`out` makes the scan fail with that token |
| Dot.Max | doc/vhdl_to_dot.py:76 | `max` is an upper bound equal to one of its arguments |
| Dot.Height | doc/vhdl_to_dot.py:76-78 | the height is at least -1, is -1 iff there are no ports, and is one less than the longer list |
| Dot.EntityNode | doc/vhdl_to_dot.py:78 | the box line starts with the indented entity name and keeps to one line when the name does |
| Dot.PortNode | doc/vhdl_to_dot.py:82 | a port's node line starts with its indented name and keeps to one line when the name does |
| Dot.InEdge | doc/vhdl_to_dot.py:83 | an input edge starts at the port and keeps to one line when both names do |
| Dot.OutEdge | doc/vhdl_to_dot.py:87 | an output edge starts at the entity box and keeps to one line when both names do |
| Dot.GraphLines | doc/vhdl_to_dot.py:70-89 | six fixed lines plus two per port (layout: Dot.GraphShape, Dot.GraphInputsAt, Dot.GraphOutputsAt) |
| Dot.InputLines | doc/vhdl_to_dot.py:81-83 | two lines per input |
| Dot.OutputLines | doc/vhdl_to_dot.py:85-87 | two lines per output |
| Dot.DotGraph.constructor | doc/vhdl_to_dot.py:65-66 | the graph holds the given entity |
| Dot.DotGraph.Render | doc/vhdl_to_dot.py:68-90 | the text is the graph's lines joined with newlines |
| Dot.InputLinesAt | doc/vhdl_to_dot.py:81-83 | the k-th input gives its node line, then its edge into the entity |
| Dot.OutputLinesAt | doc/vhdl_to_dot.py:85-87 | the k-th output gives its node line, then its edge out of the entity |
| Dot.GraphShape | doc/vhdl_to_dot.py:70-89 | 6 + 2(inputs + outputs) lines; first the header `digraph NAME {` (Dot.Header, line 70), then the three attribute lines and the entity box; last the closing brace |
| Dot.GraphInputsAt | doc/vhdl_to_dot.py:81-83 | input k is at lines 5+2k and 6+2k, right after the box and in order |
| Dot.GraphOutputsAt | doc/vhdl_to_dot.py:85-87 | output k is at lines 5+2·inputs+2k and 6+2·inputs+2k, after every input line |
| Dot.PortlessGraph | doc/vhdl_to_dot.py:70-89 | an entity without ports is six lines whose box has height -1 |
| Dot.IntToStringNoNewline | doc/vhdl_to_dot.py:78 | a written integer holds no newline |
| Dot.GraphLinesOneLine | doc/vhdl_to_dot.py:70-89 | with newline-free names, no graph line holds a newline |
| Dot.RenderedLines | doc/vhdl_to_dot.py:90 | with newline-free names, splitting the rendered text gives back exactly the graph's lines |
| EndToEnd.ToUpperOneLine | doc/vhdl_to_dot.py:15 | upper-casing a newline-free name keeps it newline-free |
| EndToEnd.StepOneLine | doc/vhdl_to_dot.py:49-59 | a successful pass of the loop body keeps every carried name, entity and pending port, free of newlines |
| EndToEnd.RunOneLine | doc/vhdl_to_dot.py:48-59 | the whole loop keeps that invariant from a state that holds it |
| EndToEnd.ExtractedRendersLineByLine | doc/vhdl_to_dot.py:46-90 | an entity the scan returns has newline-free names, and its rendered text splits back into exactly its graph's lines |

## Left out

- Running the analyser (lines 36-40): the `ghdl | egrep | egrep -v` pipeline, the subprocess and
  the byte decoding are outside the model. `Extraction.ParseEntities` takes the decoded output as
  its argument, so the egrep filtering is not modelled either.
- `Entity.src` and the `filepath` argument: `filepath` is only stored into `Entity.src` (line 51,
  set at line 17), and `src` is never read by the modelled code, so both are left out.
- `Entity.print` (lines 19-24), `Port.__repr__` (lines 31-32), `entity_to_dot` (lines 92 on)
  and the command-line block are I/O around the core and are left out.
- `deepcopy(port)` (line 59): ports are values here, so the copy is the port itself. Both the
  entity and its port lists are modelled as values that the loop reassigns. The source's in-place
  `+=` on the lists has no alias the loop could observe, so nothing is lost.
- Text.ToUpper: only ASCII letters are upper-cased. Python's full Unicode `str.upper()`, which may
  change the length of a string (`ß` becomes `SS`), is not modelled.
- Text.IsSpace: the set is `str.isspace()` for a `str` pattern, written out as a table. The
  Unicode database is not consulted.
- Dot.DotGraph.Render: it reads only `self.entity` and has no error path. The source reads the
  module-global `entity` at lines 76, 81 and 85, and that global is bound only at line 117,
  inside the `if __name__ == '__main__':` block (line 46 binds a local of
  `parse_entities_from_vhdl`). When the module is imported and the caller has not bound
  `vhdl_to_dot.entity`, `__repr__` raises `NameError` at line 76; the model does not have that
  failure. When the caller binds a different entity, the source takes the box height (line 76)
  and both port loops (lines 81 and 85) from that other entity, but the names on lines 70 and 78
  and the edge targets from `self.entity`; the model renders `self.entity` alone.
- The regular expressions are modelled one by one as extractors with proved meanings. A general
  regular-expression engine is not part of the model.
