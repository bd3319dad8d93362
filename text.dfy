/** The string operations the trace scanner and the graph renderer rely on,
    with the meaning of each stated as a contract. */
module Text {
  import opened Wrappers

  /** Python's `\s` in a `str` pattern: exactly the characters for which
      `str.isspace()` holds. */
  predicate IsSpace(c: char)
    ensures c == ' ' || c == '\t' || c == '\n' || c == '\r' ==> IsSpace(c)
    ensures IsSpace(c) ==> !('0' <= c <= '9') && !('a' <= c <= 'z') && !('A' <= c <= 'Z') && c != ':'
  {
    var n := c as int;
    (9 <= n <= 13) || (28 <= n <= 32) || n == 0x85 || n == 0xA0 || n == 0x1680
    || (0x2000 <= n <= 0x200A) || n == 0x2028 || n == 0x2029 || n == 0x202F
    || n == 0x205F || n == 0x3000
  }

  predicate AllSpace(s: string) {
    forall i :: 0 <= i < |s| ==> IsSpace(s[i])
  }

  predicate NoNewline(s: string) {
    '\n' !in s
  }

  /** The length of the run of whitespace that `s` starts with. */
  function LeadingSpace(s: string): (n: nat)
    ensures n <= |s| && AllSpace(s[..n]) && (n < |s| ==> !IsSpace(s[n]))
  {
    if |s| == 0 || !IsSpace(s[0]) then 0
    else
      var n := LeadingSpace(s[1..]);
      assert s[..n + 1] == [s[0]] + s[1..][..n];
      n + 1
  }

  /** A whitespace prefix not followed by whitespace is the whole run. */
  lemma LeadingSpaceIs(s: string, n: nat)
    requires n <= |s| && AllSpace(s[..n]) && (n < |s| ==> !IsSpace(s[n]))
    ensures LeadingSpace(s) == n
  {
    var m := LeadingSpace(s);
    forall j | 0 <= j < n ensures IsSpace(s[j]) { assert s[..n][j] == s[j]; }
    forall j | 0 <= j < m ensures IsSpace(s[j]) { assert s[..m][j] == s[j]; }
  }

  /** A whitespace prefix lies inside the leading run. */
  lemma LeadingSpaceAtLeast(s: string, n: nat)
    requires n <= |s| && AllSpace(s[..n])
    ensures LeadingSpace(s) >= n
  {
    var m := LeadingSpace(s);
    forall j | 0 <= j < n ensures IsSpace(s[j]) { assert s[..n][j] == s[j]; }
  }

  /** The upper-case form of one character (ASCII letters only): never a
      lower-case letter, and either `c` itself or `c` moved to upper case. */
  function UpperChar(c: char): (u: char)
    ensures !('a' <= u <= 'z')
    ensures u == c || ('a' <= c <= 'z' && u as int == c as int - 32)
  {
    if 'a' <= c <= 'z' then (c as int - 'a' as int + 'A' as int) as char else c
  }

  /** `str.upper()`, restricted to ASCII letters. */
  function ToUpper(s: string): (r: string)
    ensures |r| == |s|
    ensures forall i :: 0 <= i < |s| ==> r[i] == UpperChar(s[i])
  {
    if |s| == 0 then [] else [UpperChar(s[0])] + ToUpper(s[1..])
  }

  /** A string that upper-casing leaves as it is. */
  predicate IsUpperCase(s: string) {
    ToUpper(s) == s
  }

  lemma ToUpperIdempotent(s: string)
    ensures IsUpperCase(ToUpper(s))
  {
    var u := ToUpper(s);
    assert forall i :: 0 <= i < |u| ==> UpperChar(u[i]) == u[i];
  }

  /** The longest prefix of `s` that holds no newline: the stretch of a line
      that the regular-expression wildcard `.` can run over. */
  function Segment(s: string): (r: string)
    ensures r <= s && NoNewline(r)
    ensures |r| < |s| ==> s[|r|] == '\n'
  {
    if |s| == 0 || s[0] == '\n' then [] else [s[0]] + Segment(s[1..])
  }

  /** A newline-free prefix of `s` is a prefix of its segment. */
  lemma {:induction false} SegmentCovers(s: string, u: string)
    requires u <= s && NoNewline(u)
    ensures u <= Segment(s)
  {
    if |u| > 0 {
      assert u[0] in u;
      assert u[1..] <= s[1..];
      assert '\n' !in u[1..] by {
        forall i | 0 <= i < |u| - 1 ensures u[1..][i] != '\n' {
          assert u[1..][i] == u[i + 1];
        }
      }
      SegmentCovers(s[1..], u[1..]);
    }
  }

  /** The segment of a newline-free text followed by a newline is that text. */
  lemma {:induction false} SegmentOfLine(u: string, rest: string)
    requires NoNewline(u)
    ensures Segment(u + "\n" + rest) == u
  {
    if |u| > 0 {
      assert u[0] in u;
      assert (u + "\n" + rest)[1..] == u[1..] + "\n" + rest;
      assert '\n' !in u[1..] by {
        forall i | 0 <= i < |u| - 1 ensures u[1..][i] != '\n' {
          assert u[1..][i] == u[i + 1];
        }
      }
      SegmentOfLine(u[1..], rest);
    }
  }

  /** The segment of a newline-free text followed by nothing or by a
      newline is that text. */
  lemma SegmentOfPrefix(u: string, rest: string)
    requires NoNewline(u) && (|rest| > 0 ==> rest[0] == '\n')
    ensures Segment(u + rest) == u
  {
    if |rest| == 0 {
      assert u + rest == u;
      SegmentCovers(u, u);
    } else {
      assert u + rest == u + "\n" + rest[1..];
      SegmentOfLine(u, rest[1..]);
    }
  }

  /** A string with no newline is its own segment. */
  lemma SegmentWhole(s: string)
    requires NoNewline(s)
    ensures Segment(s) == s
  {
    SegmentCovers(s, s);
  }

  /** Dropping a part of the segment drops the same part of the string. */
  lemma {:induction false} SegmentDrop(s: string, k: nat)
    requires k <= |Segment(s)|
    ensures Segment(s[k..]) == Segment(s)[k..]
  {
    if k > 0 {
      assert s[k..] == s[1..][k - 1..];
      SegmentDrop(s[1..], k - 1);
    }
  }

  /** The position of the last occurrence of `c` in `s`. */
  function LastIndexOf(s: string, c: char): (r: Option<nat>)
    ensures r.None? <==> c !in s
    ensures r.Some? ==> r.value < |s| && s[r.value] == c && c !in s[r.value + 1..]
  {
    if |s| == 0 then None
    else if s[|s| - 1] == c then Some(|s| - 1)
    else
      assert s == s[..|s| - 1] + [s[|s| - 1]];
      var r := LastIndexOf(s[..|s| - 1], c);
      if r.Some? then
        assert s[r.value + 1..] == s[..|s| - 1][r.value + 1..] + [s[|s| - 1]];
        r
      else r
  }

  /** Any position holding `c` with no `c` after it is the last occurrence. */
  lemma LastIndexOfAt(s: string, c: char, i: nat)
    requires i < |s| && s[i] == c && c !in s[i + 1..]
    ensures LastIndexOf(s, c) == Some(i)
  {
    assert c in s;
    var r := LastIndexOf(s, c).value;
    forall j | i < j < |s| ensures s[j] != c {
      assert s[j] == s[i + 1..][j - i - 1];
    }
    forall j | r < j < |s| ensures s[j] != c {
      assert s[j] == s[r + 1..][j - r - 1];
    }
  }

  /** Every occurrence of `c` lies at or before the last one. */
  lemma LastIndexOfAtLeast(s: string, c: char, j: nat)
    requires j < |s| && s[j] == c
    ensures LastIndexOf(s, c).Some? && LastIndexOf(s, c).value >= j
  {
    assert c in s;
    var r := LastIndexOf(s, c).value;
    forall i | r < i < |s| ensures s[i] != c {
      assert s[i] == s[r + 1..][i - r - 1];
    }
  }

  /** A slice of a string without `c` has no `c` either. */
  lemma NotInSlice(s: string, c: char, i: nat, j: nat)
    requires i <= j <= |s| && c !in s
    ensures c !in s[i..j]
  {
    forall k | 0 <= k < j - i ensures s[i..j][k] != c {
      assert s[i..j][k] == s[i + k];
    }
  }

  /** A slice that lies inside a prefix is the same slice of the whole. */
  lemma SliceOfPrefix(s: string, t: string, n: nat, i: nat, j: nat)
    requires t <= s && i <= j <= n <= |t|
    ensures t[..n][i..j] == s[i..j]
  {
    assert t == s[..|t|];
  }

  lemma SliceWithin(s: string, t: string, i: nat, j: nat)
    requires t <= s && i <= j <= |t|
    ensures t[i..j] == s[i..j]
  {
    assert t == s[..|t|];
  }

  predicate OccursAt(s: string, p: string, i: nat) {
    i + |p| <= |s| && s[i..i + |p|] == p
  }

  /** The first position at which `p` occurs in `s`. */
  function Find(s: string, p: string): (r: Option<nat>)
    ensures r.Some? ==> OccursAt(s, p, r.value)
    ensures r.Some? ==> forall j: nat :: j < r.value ==> !OccursAt(s, p, j)
    ensures r.None? ==> forall i: nat :: !OccursAt(s, p, i)
    decreases |s|
  {
    if p <= s then Some(0)
    else if |s| == 0 then None
    else
      ShiftOccurrence(s, p);
      match Find(s[1..], p)
      case Some(i) =>
        assert s[1..][i..i + |p|] == s[i + 1..i + 1 + |p|];
        Some(i + 1)
      case None =>
        None
  }

  /** An occurrence past the first position is an occurrence in the tail. */
  lemma ShiftOccurrence(s: string, p: string)
    requires |s| > 0 && !(p <= s)
    ensures !OccursAt(s, p, 0)
    ensures forall i: nat :: i > 0 && OccursAt(s, p, i) ==> OccursAt(s[1..], p, i - 1)
  {
    forall i: nat | i > 0 && OccursAt(s, p, i) ensures OccursAt(s[1..], p, i - 1) {
      assert s[1..][i - 1..i - 1 + |p|] == s[i..i + |p|];
    }
  }

  /** An occurrence is found. */
  lemma FindAt(s: string, p: string, i: nat)
    requires OccursAt(s, p, i)
    ensures Find(s, p).Some?
  {
  }

  /** An occurrence inside a prefix of a prefix of `s` is found there. */
  lemma FindInPrefix(s: string, t: string, n: nat, p: string, i: nat)
    requires t <= s && i + |p| <= n <= |t| && s[i..i + |p|] == p
    ensures Find(t[..n], p).Some?
  {
    SliceOfPrefix(s, t, n, i, i + |p|);
    FindAt(t[..n], p, i);
  }

  /** A pattern holding a character that `s` lacks occurs nowhere in `s`. */
  lemma NotFoundByChar(s: string, p: string, j: nat)
    requires j < |p| && p[j] !in s
    ensures Find(s, p).None?
  {
    forall i: nat ensures !OccursAt(s, p, i) {
      if i + |p| <= |s| {
        assert s[i..i + |p|][j] == s[i + j];
      }
    }
  }

  /** Lines none of which holds a newline. */
  predicate AllOneLine(lines: seq<string>) {
    forall k :: 0 <= k < |lines| ==> NoNewline(lines[k])
  }

  /** Python's `text.split("\n")`: never empty, one piece more than there are
      newlines, and no piece holds a newline. */
  function SplitLines(s: string): (r: seq<string>)
    ensures |r| >= 1
    ensures AllOneLine(r)
    decreases |s|
  {
    var head := Segment(s);
    if |head| == |s| then [s] else [head] + SplitLines(s[|head| + 1..])
  }

  /** Python's `"\n".join(lines)`. */
  function JoinLines(lines: seq<string>): (r: string)
    ensures |lines| >= 1 ==> lines[0] <= r
    ensures AllOneLine(lines) ==>
      multiset(r)['\n'] == if |lines| == 0 then 0 else |lines| - 1
  {
    if |lines| == 0 then ""
    else if |lines| == 1 then lines[0]
    else
      assert forall k :: 0 <= k < |lines| - 1 ==> lines[1..][k] == lines[k + 1];
      lines[0] + "\n" + JoinLines(lines[1..])
  }

  lemma {:induction false} JoinSplit(s: string)
    ensures JoinLines(SplitLines(s)) == s
    decreases |s|
  {
    var head := Segment(s);
    if |head| < |s| {
      var rest := s[|head| + 1..];
      assert SplitLines(s) == [head] + SplitLines(rest);
      JoinSplit(rest);
      JoinCons(head, SplitLines(rest));
      CutAtSegment(s);
    }
  }

  /** A text whose segment stops short of its end is the segment, a
      newline and the rest. */
  lemma CutAtSegment(s: string)
    requires |Segment(s)| < |s|
    ensures s == Segment(s) + "\n" + s[|Segment(s)| + 1..]
  {
    var n := |Segment(s)|;
    assert s[..n] == Segment(s);
    assert s == s[..n] + [s[n]] + s[n + 1..];
  }

  /** Joining a first line onto at least one more line puts a newline between. */
  lemma JoinCons(head: string, t: seq<string>)
    requires |t| >= 1
    ensures JoinLines([head] + t) == head + "\n" + JoinLines(t)
  {
    assert ([head] + t)[0] == head;
    assert ([head] + t)[1..] == t;
  }

  lemma {:induction false} SplitJoin(lines: seq<string>)
    requires |lines| >= 1
    requires AllOneLine(lines)
    ensures SplitLines(JoinLines(lines)) == lines
    decreases |lines|
  {
    AllOneLineTail(lines);
    if |lines| == 1 {
      SplitJoinOne(lines);
    } else {
      SplitJoin(lines[1..]);
      SplitJoinCons(lines);
    }
  }

  lemma AllOneLineTail(lines: seq<string>)
    requires |lines| >= 1 && AllOneLine(lines)
    ensures NoNewline(lines[0]) && AllOneLine(lines[1..])
  {
    assert forall k :: 0 <= k < |lines[1..]| ==> lines[1..][k] == lines[k + 1];
  }

  lemma SplitJoinOne(lines: seq<string>)
    requires |lines| == 1 && NoNewline(lines[0])
    ensures SplitLines(JoinLines(lines)) == lines
  {
    SegmentWhole(lines[0]);
  }

  /** One more line in front keeps the round trip. */
  lemma SplitJoinCons(lines: seq<string>)
    requires |lines| >= 2 && NoNewline(lines[0])
    requires SplitLines(JoinLines(lines[1..])) == lines[1..]
    ensures SplitLines(JoinLines(lines)) == lines
  {
    var t := lines[1..];
    assert lines == [lines[0]] + t;
    JoinCons(lines[0], t);
    SplitAtLine(lines[0], JoinLines(t));
  }

  /** Splitting text that starts with a whole line peels that line off. */
  lemma SplitAtLine(u: string, rest: string)
    requires NoNewline(u)
    ensures SplitLines(u + "\n" + rest) == [u] + SplitLines(rest)
  {
    var s := u + "\n" + rest;
    SegmentOfLine(u, rest);
    assert s[|u| + 1..] == rest;
  }

  /** The decimal digit `d`. */
  function DigitChar(d: nat): (c: char)
    requires d < 10
    ensures '0' <= c <= '9' && c as int - '0' as int == d
  {
    (d + '0' as int) as char
  }

  predicate AllDigits(s: string) {
    forall i :: 0 <= i < |s| ==> '0' <= s[i] <= '9'
  }

  /** The number a string of decimal digits denotes. */
  function DigitsValue(s: string): nat
    requires AllDigits(s)
  {
    if |s| == 0 then 0
    else DigitsValue(s[..|s| - 1]) * 10 + (s[|s| - 1] as int - '0' as int)
  }

  /** Python's `str(n)` for a natural number: decimal digits, the first
      of them zero only when it is the only one. */
  function NatToString(n: nat): (s: string)
    ensures |s| >= 1 && AllDigits(s)
    ensures s[0] == '0' ==> n == 0 && |s| == 1
    decreases n
  {
    if n < 10 then [DigitChar(n)]
    else
      var s := NatToString(n / 10) + [DigitChar(n % 10)];
      assert s[0] == NatToString(n / 10)[0];
      s
  }

  /** Python's `str(i)`: a minus sign for negative numbers, then the digits. */
  function IntToString(i: int): (s: string)
    ensures |s| >= 1 && (s[0] == '-' <==> i < 0)
  {
    if i < 0 then "-" + NatToString(-i) else NatToString(i)
  }

  /** `NatToString` writes `n` with no leading zero, and reading the digits back
      gives `n`. */
  lemma {:induction false} NatToStringDenotes(n: nat)
    ensures var s := NatToString(n);
      |s| >= 1 && AllDigits(s) && DigitsValue(s) == n
      && (s[0] == '0' ==> n == 0 && |s| == 1)
    decreases n
  {
    if n >= 10 {
      NatToStringDenotes(n / 10);
      var s := NatToString(n);
      assert s[..|s| - 1] == NatToString(n / 10);
    }
  }

  lemma IntToStringDenotes(i: int)
    ensures var s := IntToString(i);
      |s| >= 1 && (s[0] == '-' <==> i < 0)
      && var digits := if i < 0 then s[1..] else s;
         |digits| >= 1 && AllDigits(digits) && (digits[0] == '0' ==> |digits| == 1)
         && DigitsValue(digits) == if i < 0 then -i else i
  {
    if i < 0 {
      NatToStringDenotes(-i);
      assert IntToString(i)[1..] == NatToString(-i);
    } else {
      NatToStringDenotes(i);
    }
  }
}
