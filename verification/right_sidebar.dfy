/**
 * The outline of the right sidebar: the content is split into lines, and
 * each line matching the regular expression `^(#{1,6})\s+(.+)$` gives a
 * heading whose level is the number of '#' and whose text is the second
 * group, trimmed. `.` matches any character but a line terminator, and
 * `$` (no multiline flag) only matches at the end of the line.
 */
module RightSidebar {
  import opened Wrappers
  import opened Text

  datatype Heading = Heading(level: nat, text: string)

  predicate IsHash(c: char) {
    c == '#'
  }

  /** The number of '#' the line starts with. */
  function HashRun(line: string): (n: nat)
    ensures n <= |line|
    ensures forall i :: 0 <= i < n ==> line[i] == '#'
    ensures n == |line| || line[n] != '#'
  {
    LeadingRun(line, IsHash)
  }

  predicate NoLineTerminator(s: string) {
    forall i :: 0 <= i < |s| ==> !IsLineTerminator(s[i])
  }

  /**
   * The regular expression matches `line` with `line[..r]` as the first
   * group, `line[r..j]` matched by `\s+` and `line[j..]` as the second group.
   */
  ghost predicate MatchesAt(line: string, r: int, j: int) {
    && 1 <= r <= 6 && r < j < |line|
    && (forall i :: 0 <= i < r ==> line[i] == '#')
    && (forall i :: r <= i < j ==> IsSpace(line[i]))
    && (forall i :: j <= i < |line| ==> !IsLineTerminator(line[i]))
  }

  /**
   * Where the second group starts once the '#' run `line[..r]` is taken: the
   * greedy `\s+` takes the whole whitespace run after it, and when that run
   * goes to the end of the line it gives its last character back to `.+`.
   */
  function TextStart(line: string, r: nat): (j: int)
    requires r <= |line|
    ensures r <= j || (r == |line| && j == r - 1)
    ensures j < |line| || (line == [] && j == -1)
    ensures forall i :: r <= i < j ==> IsSpace(line[i])
    // the run stops at the first non-whitespace character, or gives back the last one
    ensures r <= j < |line| && IsSpace(line[j]) ==> j == |line| - 1
  {
    var run := LeadingRun(line[r..], IsSpace);
    assert forall i :: r <= i < r + run ==> line[i] == line[r..][i - r];
    if r + run < |line| then r + run else |line| - 1
  }

  /** Whether `line` matches `^(#{1,6})\s+(.+)$`. */
  predicate IsHeadingLine(line: string) {
    var r := HashRun(line);
    1 <= r <= 6 && r < TextStart(line, r) && NoLineTerminator(line[TextStart(line, r)..])
  }

  /** `line.match(/^(#{1,6})\s+(.+)$/)` turned into a heading: the level is the '#' count and the text the trimmed second group. */
  function MatchHeading(line: string): (h: Option<Heading>)
    ensures h.Some? <==> IsHeadingLine(line)
    ensures h.Some? ==> 1 <= h.value.level <= 6 && h.value.level == HashRun(line)
  {
    if IsHeadingLine(line) then
      var r := HashRun(line);
      Some(Heading(r, Trim(line[TextStart(line, r)..])))
    else
      None
  }

  /** Trimming from where the second group starts is trimming the whole rest of the line. */
  lemma TrimFromTextStart(line: string, r: nat)
    requires r <= |line| && r <= TextStart(line, r)
    ensures Trim(line[TextStart(line, r)..]) == Trim(line[r..])
  {
    TrimAfterSpaces(line, r, TextStart(line, r));
  }

  /** The heading text is the rest of the line after the '#' run, trimmed. */
  lemma HeadingTextIsTrimmedRest(line: string)
    ensures MatchHeading(line).Some? ==> MatchHeading(line).value.text == Trim(line[HashRun(line)..])
  {
    if MatchHeading(line).Some? {
      TrimFromTextStart(line, HashRun(line));
    }
  }

  /** MatchHeading agrees with the regular expression: it matches exactly when some split does, and then yields that split's heading. */
  lemma MatchHeadingIsRegex(line: string)
    ensures MatchHeading(line).Some? <==> exists r, j :: MatchesAt(line, r, j)
    ensures forall r, j :: MatchesAt(line, r, j) ==> MatchHeading(line) == Some(Heading(r, Trim(line[j..])))
  {
    if IsHeadingLine(line) {
      var r := HashRun(line);
      var j := TextStart(line, r);
      assert MatchesAt(line, r, j) by {
        forall i | j <= i < |line| ensures !IsLineTerminator(line[i]) {
          assert line[i] == line[j..][i - j];
        }
      }
    }
    forall r', j' | MatchesAt(line, r', j') ensures MatchHeading(line) == Some(Heading(r', Trim(line[j'..]))) {
      RegexSplitIsUnique(line, r', j');
    }
  }

  /** Any split the regular expression accepts has the '#' run as its first group and trims to the same text. */
  lemma RegexSplitIsUnique(line: string, r: int, j: int)
    requires MatchesAt(line, r, j)
    ensures MatchHeading(line) == Some(Heading(r, Trim(line[j..])))
  {
    assert !IsHash(line[r]);
    assert HashRun(line) == r;
    var run := LeadingRun(line[r..], IsSpace);
    assert run >= j - r;
    var j' := TextStart(line, r);
    assert j <= j';
    assert NoLineTerminator(line[j'..]) by {
      forall i | 0 <= i < |line[j'..]| ensures !IsLineTerminator(line[j'..][i]) {
        assert line[j'..][i] == line[j' + i];
      }
    }
    TrimAfterSpaces(line, j, j');
  }

  /**
   * Lines that give no heading: not starting with '#', seven or more '#',
   * no whitespace right after the '#' run, nothing after the single
   * whitespace character, or a line terminator (such as a carriage return) at the end.
   */
  lemma NoHeadingCases(line: string)
    ensures line == [] || line[0] != '#' ==> MatchHeading(line) == None
    ensures HashRun(line) >= 7 ==> MatchHeading(line) == None
    ensures HashRun(line) < |line| && !IsSpace(line[HashRun(line)]) ==> MatchHeading(line) == None
    ensures |line| <= HashRun(line) + 1 ==> MatchHeading(line) == None
    ensures line != [] && IsLineTerminator(line[|line| - 1]) ==> MatchHeading(line) == None
  {
    MatchHeadingIsRegex(line);
    if MatchHeading(line).Some? {
      var r, j :| MatchesAt(line, r, j);
      RegexSplitIsUnique(line, r, j);
    }
  }

  /** Two or more whitespace characters after the '#' run and nothing else: a heading with empty text. */
  lemma SpacesOnlyGiveEmptyHeading(line: string)
    requires 1 <= HashRun(line) <= 6 && |line| >= HashRun(line) + 2
    requires forall i :: HashRun(line) <= i < |line| ==> IsSpace(line[i])
    requires !IsLineTerminator(line[|line| - 1])
    ensures MatchHeading(line) == Some(Heading(HashRun(line), []))
  {
    var r := HashRun(line);
    var last := line[|line| - 1..];
    assert Trim(last) == [] by {
      TrimAllSpace(last);
    }
    assert MatchHeading(line) == Some(Heading(r, Trim(last))) by {
      assert MatchesAt(line, r, |line| - 1);
      RegexSplitIsUnique(line, r, |line| - 1);
    }
  }

  /** The values present in a list of options, in order. */
  function Somes<T>(opts: seq<Option<T>>): (vs: seq<T>)
    ensures |vs| <= |opts|
    decreases |opts|
  {
    if opts == [] then []
    else
      Somes(opts[..|opts| - 1]) +
      match opts[|opts| - 1]
      case Some(v) => [v]
      case None => []
  }

  /** The positions of the present values in a list of options, in increasing order. */
  function SomeIndices<T>(opts: seq<Option<T>>): (idx: seq<nat>)
    decreases |opts|
  {
    if opts == [] then []
    else
      SomeIndices(opts[..|opts| - 1]) +
      if opts[|opts| - 1].Some? then [|opts| - 1] else []
  }

  /** Somes keeps exactly the present values, one per position, in order. */
  lemma {:induction false} SomesInOrder<T>(opts: seq<Option<T>>)
    ensures var vs := Somes(opts); var idx := SomeIndices(opts);
      && |idx| == |vs|
      && (forall a, b :: 0 <= a < b < |idx| ==> idx[a] < idx[b])
      && (forall a :: 0 <= a < |idx| ==> idx[a] < |opts| && opts[idx[a]] == Some(vs[a]))
      && (forall i :: 0 <= i < |opts| && opts[i].Some? ==> i in idx)
    decreases |opts|
  {
    if opts != [] {
      var init := opts[..|opts| - 1];
      SomesInOrder(init);
      assert forall i :: 0 <= i < |init| ==> init[i] == opts[i];
    }
  }

  /** What each line gives: a heading or nothing. */
  function LineMatches(lines: seq<string>): (ms: seq<Option<Heading>>)
    ensures |ms| == |lines|
    ensures forall i :: 0 <= i < |lines| ==> ms[i] == MatchHeading(lines[i])
  {
    seq(|lines|, i requires 0 <= i < |lines| => MatchHeading(lines[i]))
  }

  /** The headings of a list of lines, in line order. */
  function HeadingsOf(lines: seq<string>): (hs: seq<Heading>)
    ensures |hs| <= |lines|
    ensures forall k :: 0 <= k < |hs| ==> 1 <= hs[k].level <= 6
  {
    SomesInOrder(LineMatches(lines));
    Somes(LineMatches(lines))
  }

  /** The indices of the lines that are headings. */
  function HeadingLines(lines: seq<string>): seq<nat> {
    SomeIndices(LineMatches(lines))
  }

  /**
   * The headings are those of the heading lines, one per line, in line
   * order, and every heading line gives one.
   */
  lemma HeadingsInLineOrder(lines: seq<string>)
    ensures var hs := HeadingsOf(lines); var idx := HeadingLines(lines);
      && |idx| == |hs| <= |lines|
      && (forall a, b :: 0 <= a < b < |idx| ==> idx[a] < idx[b])
      && (forall a :: 0 <= a < |idx| ==> idx[a] < |lines| && MatchHeading(lines[idx[a]]) == Some(hs[a]))
      && (forall i :: 0 <= i < |lines| && MatchHeading(lines[i]).Some? ==> i in idx)
  {
    SomesInOrder(LineMatches(lines));
  }

  /**
   * `extractHeadings(content)`: split on '\n', then push a heading for
   * every line that matches.
   */
  method ExtractHeadings(content: string) returns (headings: seq<Heading>)
    ensures headings == HeadingsOf(Split(content, '\n'))
  {
    headings := [];
    var lines := Split(content, '\n');
    ghost var matches := LineMatches(lines);
    var i := 0;
    while i < |lines|
      invariant 0 <= i <= |lines|
      invariant headings == Somes(matches[..i])
    {
      var headingMatch := MatchHeading(lines[i]);
      assert matches[..i + 1][..i] == matches[..i];
      assert matches[..i + 1][i] == headingMatch;
      if headingMatch.Some? {
        headings := headings + [headingMatch.value];
      }
      i := i + 1;
    }
    assert matches[..i] == matches;
  }

  /** `noteContent ? extractHeadings(noteContent) : []`: absent or empty content gives no headings. */
  method OutlineOf(noteContent: Option<string>) returns (headings: seq<Heading>)
    ensures noteContent == None || noteContent == Some([]) ==> headings == []
    ensures noteContent.Some? ==> headings == HeadingsOf(Split(noteContent.value, '\n'))
    ensures noteContent.Some? ==> |headings| <= multiset(noteContent.value)['\n'] + 1
  {
    if noteContent.Some? && noteContent.value != [] {
      headings := ExtractHeadings(noteContent.value);
      SplitCount(noteContent.value, '\n');
    } else {
      headings := [];
      if noteContent.Some? {
        assert Split(noteContent.value, '\n') == [[]];
        assert MatchHeading([]) == None;
        var noLines: seq<string> := [];
        assert [[]][..0] == noLines;
        assert multiset(noteContent.value)['\n'] == 0;
      }
    }
  }
}
