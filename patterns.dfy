/** The three regular expressions that recognise trace records
    (doc/vhdl_to_dot.py:42-44), each applied with Python's `re.match`,
    which anchors a match at the start of the line but not at its end.

    Each is written as an extractor returning the first capture group, and is
    proved against a reference form that spells out the strings the
    expression matches and the capture that its leftmost, greedy
    backtracking settles on. */
module Patterns {
  import opened Wrappers
  import opened Text

  const EntityKey: string := "entity_declaration"
  const SignalKey: string := "interface_signal_declaration"
  const ModeKey: string := "mode:"

  /** `entity_name_rgx`: the name in an entity-declaration record. */
  function EntityName(line: string): (r: Option<string>)
    ensures r.Some? ==> NoNewline(r.value) && '\'' !in r.value
  {
    QuotedCapture(line, EntityKey)
  }

  /** `intf_signal_rgx`: the name in an interface-signal-declaration record. */
  function SignalName(line: string): (r: Option<string>)
    ensures r.Some? ==> NoNewline(r.value) && '\'' !in r.value
  {
    QuotedCapture(line, SignalKey)
  }

  /** `intf_dir_rgx`: the direction token of a mode record. */
  function ModeToken(line: string): (r: Option<string>)
    ensures r.Some? ==> NoNewline(r.value) && (|r.value| > 0 ==> !IsSpace(r.value[0]))
  {
    ModeCapture(line)
  }

  /** `.*KEY.*'(.*)'`. As `.` does not match a newline, everything happens in
      the line's segment. The greedy `.*` groups put the capture between the
      last two single quotes of the segment; the match succeeds exactly when
      the key occurs before the first of those two quotes. */
  function QuotedCapture(line: string, key: string): (r: Option<string>)
    ensures r.Some? ==> NoNewline(r.value) && '\'' !in r.value
  {
    var seg := Segment(line);
    match LastIndexOf(seg, '\'')
    case None => None
    case Some(close) =>
      match LastIndexOf(seg[..close], '\'')
      case None => None
      case Some(open) =>
        if Find(seg[..open], key).Some? then
          NotInSlice(seg, '\n', open + 1, close);
          assert seg[..close][open + 1..] == seg[open + 1..close];
          Some(seg[open + 1..close])
        else None
  }

  /** A split of `line` into the parts `.*`, KEY, `.*`, `'`, `(.*)`, `'` and
      the text after the match. */
  ghost predicate QuotedForm(line: string, key: string, x: string, y: string, z: string, rest: string) {
    line == x + key + y + "'" + z + "'" + rest && NoNewline(x) && NoNewline(y) && NoNewline(z)
  }

  /** The split that leftmost, greedy matching picks: the capture holds no
      quote, and no quote follows it before the end of the line. */
  ghost predicate GreedyQuoted(line: string, key: string, z: string) {
    exists x, y, rest :: QuotedForm(line, key, x, y, z, rest) && '\'' !in z && '\'' !in Segment(rest)
  }

  /** The quoted match expressed by positions: `key` at `i`, the opening
      quote at `a`, the closing one at `b`, and no newline up to `b`. */
  ghost predicate QuotedAt(line: string, key: string, i: nat, a: nat, b: nat) {
    i + |key| <= a < b < |line| && line[i..i + |key|] == key
    && line[a] == '\'' && line[b] == '\'' && NoNewline(line[..b + 1])
  }

  /** The positions leftmost, greedy matching picks: no quote inside the
      capture, none after it on the line. */
  ghost predicate GreedyAt(line: string, a: nat, b: nat)
    requires a < b < |line|
  {
    '\'' !in line[a + 1..b] && '\'' !in Segment(line[b + 1..])
  }

  /** Cutting a line at the match's boundaries gives back the line. */
  lemma CutsJoin(s: string, i: nat, j: nat, k: nat, l: nat)
    requires i <= j <= k < l < |s| && s[k] == '\'' && s[l] == '\''
    ensures s == s[..i] + s[i..j] + s[j..k] + "'" + s[k + 1..l] + "'" + s[l + 1..]
  {
    assert s[..j] == s[..i] + s[i..j];
    assert s[..k] == s[..j] + s[j..k];
    assert s[..k + 1] == s[..k] + "'";
    assert s[..l] == s[..k + 1] + s[k + 1..l];
    assert s[..l + 1] == s[..l] + "'";
    assert s == s[..l + 1] + s[l + 1..];
  }

  /** Where the parts of a quoted split sit in the line. */
  lemma QuotedParts(line: string, key: string, x: string, y: string, z: string, rest: string)
    requires NoNewline(key) && QuotedForm(line, key, x, y, z, rest)
    ensures var a := |x| + |key| + |y|;
      var b := a + 1 + |z|;
      QuotedAt(line, key, |x|, a, b) && line[a + 1..b] == z && line[b + 1..] == rest
  {
    var a := |x| + |key| + |y|;
    var b := a + 1 + |z|;
    var head := x + key + y + "'" + z + "'";
    assert line == head + rest;
    assert line[..b + 1] == head;
    forall i | 0 <= i < |head| ensures head[i] != '\n' {
      if i < |x| { assert head[i] == x[i]; }
      else if i < |x| + |key| { assert head[i] == key[i - |x|]; }
      else if i < a { assert head[i] == y[i - |x| - |key|]; }
      else if a < i < b { assert head[i] == z[i - a - 1]; }
    }
  }

  /** The split that the positions describe. */
  lemma FormAt(line: string, key: string, i: nat, a: nat, b: nat)
    requires QuotedAt(line, key, i, a, b)
    ensures QuotedForm(line, key, line[..i], line[i + |key|..a], line[a + 1..b], line[b + 1..])
  {
    CutsJoin(line, i, i + |key|, a, b);
    var head := line[..b + 1];
    NotInSlice(head, '\n', 0, i);
    assert head[0..i] == line[..i];
    NotInSlice(head, '\n', i + |key|, a);
    assert head[i + |key|..a] == line[i + |key|..a];
    NotInSlice(head, '\n', a + 1, b);
    assert head[a + 1..b] == line[a + 1..b];
  }

  /** The positions a successful match stands on. */
  lemma QuotedCapturePositions(line: string, key: string) returns (i: nat, a: nat, b: nat)
    requires QuotedCapture(line, key).Some?
    ensures QuotedAt(line, key, i, a, b) && GreedyAt(line, a, b)
    ensures QuotedCapture(line, key) == Some(line[a + 1..b])
  {
    var seg := Segment(line);
    b := LastIndexOf(seg, '\'').value;
    a := LastIndexOf(seg[..b], '\'').value;
    i := Find(seg[..a], key).value;
    SegmentQuotes(line, a, b);
    SliceOfPrefix(line, seg, a, i, i + |key|);
  }

  /** Two quotes found in a newline-free prefix of `line` sit at the same
      places in `line`, with the same text between them. */
  lemma PrefixQuotes(line: string, seg: string, a: nat, b: nat)
    requires seg <= line && NoNewline(seg) && a < b < |seg| && seg[b] == '\''
    requires seg[..b][a] == '\'' && '\'' !in seg[..b][a + 1..]
    ensures line[a] == '\'' && line[b] == '\'' && NoNewline(line[..b + 1])
    ensures seg[a + 1..b] == line[a + 1..b] && '\'' !in line[a + 1..b]
  {
    SliceWithin(line, seg, 0, b + 1);
    NotInSlice(seg, '\n', 0, b + 1);
    SliceOfPrefix(line, seg, b, a + 1, b);
    SliceWithin(line, seg, a + 1, b);
  }

  /** Two quotes of the segment, the later one its last quote and the earlier
      one the last quote before it, are the same two quotes of the line. */
  lemma SegmentQuotes(line: string, a: nat, b: nat)
    requires b < |Segment(line)| && Segment(line)[b] == '\'' && '\'' !in Segment(line)[b + 1..]
    requires a < b && Segment(line)[..b][a] == '\'' && '\'' !in Segment(line)[..b][a + 1..]
    ensures line[a] == '\'' && line[b] == '\'' && NoNewline(line[..b + 1])
    ensures GreedyAt(line, a, b) && Segment(line)[a + 1..b] == line[a + 1..b]
  {
    PrefixQuotes(line, Segment(line), a, b);
    SegmentDrop(line, b + 1);
  }

  /** The capture, once the two quotes and the key are found. */
  lemma QuotedCaptureFound(line: string, key: string, a: nat, b: nat)
    requires LastIndexOf(Segment(line), '\'') == Some(b)
    requires LastIndexOf(Segment(line)[..b], '\'') == Some(a)
    requires Find(Segment(line)[..a], key).Some?
    ensures QuotedCapture(line, key) == Some(Segment(line)[a + 1..b])
  {
  }

  /** The closing quote of greedy positions is the segment's last quote. */
  lemma CloseQuoteAt(line: string, key: string, i: nat, a: nat, b: nat)
    requires QuotedAt(line, key, i, a, b) && GreedyAt(line, a, b)
    ensures b < |Segment(line)| && LastIndexOf(Segment(line), '\'') == Some(b)
  {
    SegmentCovers(line, line[..b + 1]);
    var seg := Segment(line);
    SegmentDrop(line, b + 1);
    SliceWithin(line, seg, b, b + 1);
    LastIndexOfAt(seg, '\'', b);
  }

  /** The opening quote of greedy positions is the last quote before the
      closing one, and the text between them is the same in the segment. */
  lemma OpenQuoteAt(line: string, key: string, i: nat, a: nat, b: nat)
    requires QuotedAt(line, key, i, a, b) && GreedyAt(line, a, b)
    ensures b < |Segment(line)| && LastIndexOf(Segment(line)[..b], '\'') == Some(a)
    ensures Segment(line)[a + 1..b] == line[a + 1..b]
  {
    SegmentCovers(line, line[..b + 1]);
    var seg := Segment(line);
    PrefixSlices(line, seg, a, b);
    LastIndexOfAt(seg[..b], '\'', a);
  }

  /** Inside a prefix `t` of `line`, the opening quote and the text after it
      up to `b` read the same in `t[..b]` as in the line. */
  lemma PrefixSlices(line: string, t: string, a: nat, b: nat)
    requires t <= line && a < b < |t|
    ensures t[..b][a] == line[a] && t[..b][a + 1..] == line[a + 1..b]
    ensures t[a + 1..b] == line[a + 1..b]
  {
    SliceOfPrefix(line, t, b, a + 1, b);
    SliceWithin(line, t, a, a + 1);
    SliceWithin(line, t, a + 1, b);
  }

  /** Positions of the greedy kind fix the capture. */
  lemma QuotedCaptureAt(line: string, key: string, i: nat, a: nat, b: nat)
    requires QuotedAt(line, key, i, a, b) && GreedyAt(line, a, b)
    ensures QuotedCapture(line, key) == Some(line[a + 1..b])
  {
    CloseQuoteAt(line, key, i, a, b);
    OpenQuoteAt(line, key, i, a, b);
    SegmentCovers(line, line[..b + 1]);
    FindInPrefix(line, Segment(line), a, key, i);
    QuotedCaptureFound(line, key, a, b);
  }

  /** Any positions of a match make it succeed. */
  lemma QuotedCaptureSomeAt(line: string, key: string, i: nat, a: nat, b: nat)
    requires QuotedAt(line, key, i, a, b)
    ensures QuotedCapture(line, key).Some?
  {
    SegmentCovers(line, line[..b + 1]);
    var seg := Segment(line);
    LastIndexOfAtLeast(seg, '\'', b);
    var close := LastIndexOf(seg, '\'').value;
    LastIndexOfAtLeast(seg[..close], '\'', a);
    var open := LastIndexOf(seg[..close], '\'').value;
    FindInPrefix(line, seg, open, key, i);
  }

  /** The match found by positions is the greedy split. */
  lemma GreedyQuotedAt(line: string, key: string, i: nat, a: nat, b: nat)
    requires QuotedAt(line, key, i, a, b) && GreedyAt(line, a, b)
    ensures GreedyQuoted(line, key, line[a + 1..b])
  {
    FormAt(line, key, i, a, b);
    var x, y, z, rest := line[..i], line[i + |key|..a], line[a + 1..b], line[b + 1..];
    assert QuotedForm(line, key, x, y, z, rest);
    assert '\'' !in z && '\'' !in Segment(rest);
  }

  lemma QuotedCaptureSound(line: string, key: string)
    requires QuotedCapture(line, key).Some?
    ensures GreedyQuoted(line, key, QuotedCapture(line, key).value)
  {
    var i, a, b := QuotedCapturePositions(line, key);
    GreedyQuotedAt(line, key, i, a, b);
  }


  /** A line of the matched form matches, whatever follows the capture. */
  lemma QuotedCaptureComplete(line: string, key: string, x: string, y: string, z: string, rest: string)
    requires NoNewline(key) && QuotedForm(line, key, x, y, z, rest)
    ensures QuotedCapture(line, key).Some?
  {
    QuotedParts(line, key, x, y, z, rest);
    QuotedCaptureSomeAt(line, key, |x|, |x| + |key| + |y|, |x| + |key| + |y| + 1 + |z|);
  }

  /** Conversely, the greedy split determines the capture. */
  lemma QuotedCaptureGreedy(line: string, key: string, x: string, y: string, z: string, rest: string)
    requires NoNewline(key) && QuotedForm(line, key, x, y, z, rest)
    requires '\'' !in z && '\'' !in Segment(rest)
    ensures QuotedCapture(line, key) == Some(z)
  {
    var a := |x| + |key| + |y|;
    var b := a + 1 + |z|;
    QuotedParts(line, key, x, y, z, rest);
    assert line[a + 1..b] == z && line[b + 1..] == rest;
    assert GreedyAt(line, a, b);
    QuotedCaptureAt(line, key, |x|, a, b);
  }

  /** The capture of `.*KEY.*'(.*)'` is exactly the text the greedy split puts
      between the quotes. */
  lemma QuotedCaptureMeaning(line: string, key: string, z: string)
    requires NoNewline(key)
    ensures QuotedCapture(line, key) == Some(z) <==> GreedyQuoted(line, key, z)
  {
    if QuotedCapture(line, key) == Some(z) {
      QuotedCaptureSound(line, key);
    }
    if GreedyQuoted(line, key, z) {
      var x, y, rest :| QuotedForm(line, key, x, y, z, rest) && '\'' !in z && '\'' !in Segment(rest);
      QuotedCaptureGreedy(line, key, x, y, z, rest);
    }
  }

  /** `\s+mode:\s+(.*)`: a run of whitespace, the text `mode:`, a run of
      whitespace (`\s` takes newlines too), then the rest of that line. Each
      `\s+` is greedy and what follows each run is not whitespace, so the
      match never has to backtrack. */
  function ModeCapture(line: string): (r: Option<string>)
    ensures r.Some? ==> NoNewline(r.value) && (|r.value| > 0 ==> !IsSpace(r.value[0]))
  {
    var lead := LeadingSpace(line);
    if lead == 0 || !(ModeKey <= line[lead..]) then None
    else
      var after := line[lead + |ModeKey|..];
      var gap := LeadingSpace(after);
      if gap == 0 then None
      else
        var z := Segment(after[gap..]);
        assert |z| > 0 ==> z[0] == after[gap..][0];
        Some(z)
  }

  /** A split of `line` into the parts `\s+`, `mode:`, `\s+`, `(.*)` and the
      text after the match. */
  ghost predicate ModeForm(line: string, w1: string, w2: string, z: string, rest: string) {
    line == w1 + ModeKey + w2 + z + rest
    && |w1| > 0 && AllSpace(w1) && |w2| > 0 && AllSpace(w2) && NoNewline(z)
  }

  /** The split greedy matching picks: the second run takes all the
      whitespace there is, and the capture runs to the end of the line. */
  ghost predicate GreedyMode(line: string, z: string) {
    exists w1, w2, rest :: ModeForm(line, w1, w2, z, rest)
      && (|z + rest| > 0 ==> !IsSpace((z + rest)[0]))
      && (|rest| > 0 ==> rest[0] == '\n')
  }

  /** The mode match expressed by positions: `k` leading whitespace
      characters, `mode:`, then `g` whitespace characters. */
  ghost predicate ModeAt(line: string, k: nat, g: nat) {
    0 < k && 0 < g && k + |ModeKey| + g <= |line|
    && AllSpace(line[..k]) && line[k..k + |ModeKey|] == ModeKey
    && AllSpace(line[k + |ModeKey|..k + |ModeKey| + g])
  }

  /** The second run of whitespace cannot be extended. */
  ghost predicate GapMaximal(line: string, k: nat, g: nat) {
    var e := k + |ModeKey| + g;
    e < |line| ==> !IsSpace(line[e])
  }

  lemma ModeKeyNotSpace(line: string, k: nat)
    requires k + |ModeKey| <= |line| && line[k..k + |ModeKey|] == ModeKey
    ensures !IsSpace(line[k])
  {
    assert line[k] == line[k..k + |ModeKey|][0] == 'm';
  }

  /** The positions a successful mode match stands on. */
  lemma ModeCapturePositions(line: string) returns (k: nat, g: nat)
    requires ModeCapture(line).Some?
    ensures ModeAt(line, k, g) && GapMaximal(line, k, g)
    ensures ModeCapture(line) == Some(Segment(line[k + |ModeKey| + g..]))
  {
    k := LeadingSpace(line);
    var after := line[k + |ModeKey|..];
    g := LeadingSpace(after);
    assert line[k..][..|ModeKey|] == line[k..k + |ModeKey|];
    assert after[..g] == line[k + |ModeKey|..k + |ModeKey| + g];
    assert after[g..] == line[k + |ModeKey| + g..];
    if k + |ModeKey| + g < |line| {
      assert after[g] == line[k + |ModeKey| + g];
    }
  }

  /** Positions with a maximal gap fix the capture. */
  lemma ModeCaptureAt(line: string, k: nat, g: nat)
    requires ModeAt(line, k, g) && GapMaximal(line, k, g)
    ensures ModeCapture(line) == Some(Segment(line[k + |ModeKey| + g..]))
  {
    ModeKeyNotSpace(line, k);
    LeadingSpaceIs(line, k);
    assert line[k..][..|ModeKey|] == line[k..k + |ModeKey|];
    var after := line[k + |ModeKey|..];
    assert after[..g] == line[k + |ModeKey|..k + |ModeKey| + g];
    if g < |after| {
      assert after[g] == line[k + |ModeKey| + g];
    }
    LeadingSpaceIs(after, g);
    assert after[g..] == line[k + |ModeKey| + g..];
  }

  lemma ModeCaptureIs(line: string, k: nat, g: nat, z: string)
    requires ModeAt(line, k, g) && GapMaximal(line, k, g)
    requires Segment(line[k + |ModeKey| + g..]) == z
    ensures ModeCapture(line) == Some(z)
  {
    ModeCaptureAt(line, k, g);
  }

  /** Any positions of a mode match make it succeed. */
  lemma ModeCaptureSomeAt(line: string, k: nat, g: nat)
    requires ModeAt(line, k, g)
    ensures ModeCapture(line).Some?
  {
    ModeKeyNotSpace(line, k);
    LeadingSpaceIs(line, k);
    assert line[k..][..|ModeKey|] == line[k..k + |ModeKey|];
    var after := line[k + |ModeKey|..];
    assert after[..g] == line[k + |ModeKey|..k + |ModeKey| + g];
    LeadingSpaceAtLeast(after, g);
  }

  /** Where the parts of a mode split sit in the line. */
  lemma ModeParts(line: string, w1: string, w2: string, z: string, rest: string)
    requires ModeForm(line, w1, w2, z, rest)
    ensures ModeAt(line, |w1|, |w2|) && line[|w1| + |ModeKey| + |w2|..] == z + rest
  {
    var k, e := |w1|, |w1| + |ModeKey| + |w2|;
    assert line == w1 + ModeKey + w2 + (z + rest);
    assert line[..k] == w1;
    assert line[k..k + |ModeKey|] == ModeKey;
    assert line[k + |ModeKey|..e] == w2;
  }

  /** Cutting a line at mode positions gives back the line. */
  lemma ModeCuts(line: string, k: nat, e: nat)
    requires k + |ModeKey| <= e <= |line| && line[k..k + |ModeKey|] == ModeKey
    ensures line == line[..k] + ModeKey + line[k + |ModeKey|..e] + line[e..]
  {
    assert line[..k + |ModeKey|] == line[..k] + ModeKey;
    assert line[..e] == line[..k + |ModeKey|] + line[k + |ModeKey|..e];
    assert line == line[..e] + line[e..];
  }

  /** A line cut after its first segment: the segment, then a rest that is
      empty or starts with the newline. */
  lemma SegmentSplit(r: string) returns (rest: string)
    ensures r == Segment(r) + rest && (|rest| > 0 ==> rest[0] == '\n')
  {
    rest := r[|Segment(r)|..];
    assert |rest| > 0 ==> rest[0] == r[|Segment(r)|];
  }

  /** The greedy split exists once its parts are at hand. */
  lemma GreedyModeIntro(line: string, w1: string, w2: string, z: string, rest: string)
    requires ModeForm(line, w1, w2, z, rest)
    requires (|z + rest| > 0 ==> !IsSpace((z + rest)[0])) && (|rest| > 0 ==> rest[0] == '\n')
    ensures GreedyMode(line, z)
  {
  }

  /** The split that mode positions with a maximal gap describe. */
  lemma ModeFormAt(line: string, k: nat, g: nat)
    requires ModeAt(line, k, g) && GapMaximal(line, k, g)
    ensures GreedyMode(line, Segment(line[k + |ModeKey| + g..]))
  {
    var e := k + |ModeKey| + g;
    var r := line[e..];
    var z := Segment(r);
    var rest := SegmentSplit(r);
    var w1, w2 := line[..k], line[k + |ModeKey|..e];
    ModeCuts(line, k, e);
    assert ModeForm(line, w1, w2, z, rest);
    assert |r| > 0 ==> r[0] == line[e];
    GreedyModeIntro(line, w1, w2, z, rest);
  }


  /** A line of the mode form matches, whatever follows the capture. */
  lemma ModeCaptureComplete(line: string, w1: string, w2: string, z: string, rest: string)
    requires ModeForm(line, w1, w2, z, rest)
    ensures ModeCapture(line).Some?
  {
    ModeParts(line, w1, w2, z, rest);
    ModeCaptureSomeAt(line, |w1|, |w2|);
  }

  /** Conversely, the greedy split determines the capture. */
  lemma ModeCaptureGreedy(line: string, w1: string, w2: string, z: string, rest: string)
    requires ModeForm(line, w1, w2, z, rest)
    requires |z + rest| > 0 ==> !IsSpace((z + rest)[0])
    requires |rest| > 0 ==> rest[0] == '\n'
    ensures ModeCapture(line) == Some(z)
  {
    ModeParts(line, w1, w2, z, rest);
    var k, g := |w1|, |w2|;
    assert ModeAt(line, k, g) && line[k + |ModeKey| + g..] == z + rest;
    GapBeforeCapture(line, k, g, z + rest);
    SegmentOfPrefix(z, rest);
    assert Segment(line[k + |ModeKey| + g..]) == z;
    ModeCaptureIs(line, k, g, z);
  }

  /** The gap is maximal when what follows it does not start with
      whitespace. */
  lemma GapBeforeCapture(line: string, k: nat, g: nat, r: string)
    requires k + |ModeKey| + g <= |line| && line[k + |ModeKey| + g..] == r
    requires |r| > 0 ==> !IsSpace(r[0])
    ensures GapMaximal(line, k, g)
  {
    var e := k + |ModeKey| + g;
    if e < |line| {
      assert line[e] == r[0];
    }
  }

  /** The capture of `\s+mode:\s+(.*)` is exactly the text the greedy split
      leaves for the group. */
  lemma ModeCaptureMeaning(line: string, z: string)
    ensures ModeCapture(line) == Some(z) <==> GreedyMode(line, z)
  {
    if ModeCapture(line) == Some(z) {
      var k, g := ModeCapturePositions(line);
      ModeFormAt(line, k, g);
    }
    if GreedyMode(line, z) {
      var w1, w2, rest :| ModeForm(line, w1, w2, z, rest)
        && (|z + rest| > 0 ==> !IsSpace((z + rest)[0]))
        && (|rest| > 0 ==> rest[0] == '\n');
      ModeCaptureGreedy(line, w1, w2, z, rest);
    }
  }

  lemma KeysHaveNoNewline()
    ensures NoNewline(EntityKey) && NoNewline(SignalKey)
  {
  }

  /** The name an entity-declaration record yields is the greedy capture. */
  lemma EntityNameMeaning(line: string, z: string)
    ensures EntityName(line) == Some(z) <==> GreedyQuoted(line, EntityKey, z)
  {
    KeysHaveNoNewline();
    QuotedCaptureMeaning(line, EntityKey, z);
  }

  /** The name an interface-signal-declaration record yields is the greedy capture. */
  lemma SignalNameMeaning(line: string, z: string)
    ensures SignalName(line) == Some(z) <==> GreedyQuoted(line, SignalKey, z)
  {
    KeysHaveNoNewline();
    QuotedCaptureMeaning(line, SignalKey, z);
  }

  /** A record whose quoted text ends the line: it matches exactly when the
      text before the quotes holds the key. */
  lemma QuotedCaptureOfRecord(line: string, key: string, pre: string, z: string)
    requires line == pre + "'" + z + "'"
    requires NoNewline(pre) && NoNewline(z) && '\'' !in z
    ensures QuotedCapture(line, key) == if Find(pre, key).Some? then Some(z) else None
  {
    RecordParts(line, pre, z);
    QuotedCaptureOfLine(line, key, |pre|);
  }

  /** A newline-free line that ends in a quote, with one more quote at `a`
      and none between: the capture is what lies between the two. */
  lemma QuotedCaptureOfLine(line: string, key: string, a: nat)
    requires NoNewline(line) && a < |line| - 1 && line[a] == '\'' && line[|line| - 1] == '\''
    requires '\'' !in line[..|line| - 1][a + 1..]
    ensures QuotedCapture(line, key)
      == if Find(line[..a], key).Some? then Some(line[a + 1..|line| - 1]) else None
  {
    var b := |line| - 1;
    SegmentWhole(line);
    assert line[b + 1..] == [];
    LastIndexOfAt(line, '\'', b);
    assert line[..b][a] == '\'';
    LastIndexOfAt(line[..b], '\'', a);
    if Find(line[..a], key).Some? {
      QuotedCaptureFound(line, key, a, b);
    } else {
      QuotedCaptureMissing(line, key, a, b);
    }
  }

  /** The two quotes are found but the key does not precede them. */
  lemma QuotedCaptureMissing(line: string, key: string, a: nat, b: nat)
    requires LastIndexOf(Segment(line), '\'') == Some(b)
    requires LastIndexOf(Segment(line)[..b], '\'') == Some(a)
    requires Find(Segment(line)[..a], key).None?
    ensures QuotedCapture(line, key).None?
  {
  }

  /** Where the parts of a quoted record sit. */
  lemma RecordParts(line: string, pre: string, z: string)
    requires line == pre + "'" + z + "'"
    requires NoNewline(pre) && NoNewline(z)
    ensures var a, b := |pre|, |pre| + 1 + |z|;
      b == |line| - 1 && line[a] == '\'' && line[b] == '\''
      && line[..b][a + 1..] == z && line[..a] == pre && line[a + 1..b] == z
      && NoNewline(line)
  {
    var a, b := |pre|, |pre| + 1 + |z|;
    assert line[..a] == pre && line[a + 1..b] == z;
    forall i | 0 <= i < |line| ensures line[i] != '\n' {
      if i < a { assert line[i] == pre[i]; }
      else if a < i < b { assert line[i] == z[i - a - 1]; }
    }
  }
}
