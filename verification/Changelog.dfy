/** Promoting the unreleased notes of a changelog, from text to text. */
module Changelog {
  import opened Options
  import opened Texts

  const UNRELEASED_HEADING: string := "## [Unreleased]"
  const RELEASE_HEADING_PREFIX: string := "## ["

  // ------------------------------------------------------------------ characters

  predicate SingleLine(s: string) {
    forall i :: 0 <= i < |s| ==> !IsBreak(s[i])
  }

  // ----------------------------------------------------------------------- lines

  /** Length of the first line and of its terminator; CR LF is one terminator. */
  function LineEnd(s: string): (n: nat)
    ensures n <= |s| && SingleLine(s[..n]) && (n < |s| ==> IsBreak(s[n]))
  {
    if s == "" || IsBreak(s[0]) then 0
    else
      var n := LineEnd(s[1..]);
      assert s[..n + 1] == [s[0]] + s[1..][..n];
      n + 1
  }

  function BreakLength(s: string): (n: nat)
    requires s != ""
    ensures 1 <= n <= 2 && n <= |s|
  {
    if |s| >= 2 && s[0] == '\r' && s[1] == '\n' then 2 else 1
  }

  /** `str.splitlines()` */
  function SplitLines(s: string): (lines: seq<string>)
    ensures forall l :: l in lines ==> SingleLine(l)
    decreases |s|
  {
    if s == "" then []
    else
      var n := LineEnd(s);
      if n == |s| then [s]
      else [s[..n]] + SplitLines(s[n + BreakLength(s[n..])..])
  }

  /** `"\n".join(lines)` */
  function JoinLines(lines: seq<string>): string {
    if lines == [] then ""
    else if |lines| == 1 then lines[0]
    else lines[0] + "\n" + JoinLines(lines[1..])
  }

  function RStrip(s: string): (r: string)
    ensures r <= s && (r != "" ==> !IsSpace(r[|r| - 1]))
  {
    if s != "" && IsSpace(s[|s| - 1]) then RStrip(s[..|s| - 1]) else s
  }

  /** Only space goes, from the end. */
  lemma {:induction false} RStripExact(s: string)
    ensures RStrip(s) <= s && AllOf(IsSpace, s[|RStrip(s)|..])
    ensures RStrip(s) != "" ==> !IsSpace(RStrip(s)[|RStrip(s)| - 1])
  {
    if s != "" && IsSpace(s[|s| - 1]) {
      var front := s[..|s| - 1];
      RStripExact(front);
      assert s == front + [s[|s| - 1]];
      assert s[|RStrip(s)|..] == front[|RStrip(s)|..] + [s[|s| - 1]];
    }
  }

  lemma {:induction false} LineEndBefore(line: string, rest: string)
    requires SingleLine(line) && rest != "" && IsBreak(rest[0])
    ensures LineEnd(line + rest) == |line|
  {
    if line == "" {
      assert line + rest == rest;
    } else {
      LineEndBefore(line[1..], rest);
      assert (line + rest)[1..] == line[1..] + rest;
    }
  }

  /** One terminator ends one line, and a carriage return with its line feed is one. */
  lemma TerminatorEndsLine(line: string, terminator: string, rest: string)
    requires SingleLine(line)
    requires terminator == "\r\n" || (|terminator| == 1 && IsBreak(terminator[0])
                                      && (terminator == "\r" && rest != "" ==> rest[0] != '\n'))
    ensures SplitLines(line + terminator + rest) == [line] + SplitLines(rest)
  {
    hide LineEnd, IsBreak;
    assert IsBreak('\r') by { CarriageReturnBreaks(); }
    var all, tail := line + terminator + rest, terminator + rest;
    assert all == line + tail;
    LineEndBefore(line, tail);
    assert all[|line|..] == tail && all[..|line|] == line;
    assert BreakLength(tail) == |terminator|;
    assert all[|line| + |terminator|..] == rest;
  }

  lemma CarriageReturnBreaks()
    ensures IsBreak('\r')
  {
  }

  // ------------------------------------------------------------------- documents

  datatype Section = Section(version: string, releaseDate: string, notes: string)

  datatype Release = Release(heading: string, body: seq<string>)

  datatype Document = Document(preamble: seq<string>, heading: string, unreleased: seq<string>, releases: seq<Release>)

  predicate IsUnreleased(line: string) {
    UNRELEASED_HEADING <= line
  }

  predicate IsRelease(line: string) {
    RELEASE_HEADING_PREFIX <= line
  }

  /** The index of the first line that satisfies `p`, or the number of lines. */
  function FirstIndex(lines: seq<string>, p: string -> bool): (i: nat)
    ensures i <= |lines| && (i < |lines| ==> p(lines[i]))
    ensures forall k :: 0 <= k < i ==> !p(lines[k])
  {
    if lines == [] || p(lines[0]) then 0 else 1 + FirstIndex(lines[1..], p)
  }

  function ParseReleases(lines: seq<string>): seq<Release>
    decreases |lines|
  {
    if lines == [] then [] else
      var k := FirstIndex(lines[1..], IsRelease);
      [Release(lines[0], lines[1..][..k])] + ParseReleases(lines[1..][k..])
  }

  /** A changelog by sections; `None` without an Unreleased heading. */
  function Parse(lines: seq<string>): Option<Document> {
    var i := FirstIndex(lines, IsUnreleased);
    if i == |lines| then None else
      var rest := lines[i + 1..];
      var k := FirstIndex(rest, IsRelease);
      Some(Document(lines[..i], lines[i], rest[..k], ParseReleases(rest[k..])))
  }

  function RenderReleases(releases: seq<Release>): seq<string> {
    if releases == [] then [] else [releases[0].heading] + releases[0].body + RenderReleases(releases[1..])
  }

  function Render(d: Document): seq<string> {
    d.preamble + [d.heading] + d.unreleased + RenderReleases(d.releases)
  }

  predicate ProperReleases(releases: seq<Release>) {
    forall r :: r in releases ==> IsRelease(r.heading) && forall l :: l in r.body ==> !IsRelease(l)
  }

  predicate Proper(d: Document) {
    && (forall l :: l in d.preamble ==> !IsUnreleased(l)) && IsUnreleased(d.heading)
    && (forall l :: l in d.unreleased ==> !IsRelease(l)) && ProperReleases(d.releases)
  }

  lemma {:induction false} ReleasesRoundTrip(lines: seq<string>)
    requires lines == [] || IsRelease(lines[0])
    ensures RenderReleases(ParseReleases(lines)) == lines && ProperReleases(ParseReleases(lines))
    decreases |lines|
  {
    hide IsRelease, ProperReleases;
    NothingRendered([]);
    hide RenderReleases;
    if lines != [] {
      var rest := lines[1..];
      var k := FirstIndex(rest, IsRelease);
      ReleasesRoundTrip(rest[k..]);
      assert lines == [lines[0]] + rest[..k] + rest[k..] by { HeadAndCut(lines, k); }
      RenderOneMore(Release(lines[0], rest[..k]), ParseReleases(rest[k..]));
    }
  }

  lemma HeadAndCut(lines: seq<string>, k: nat)
    requires lines != [] && k <= |lines| - 1
    ensures lines == [lines[0]] + lines[1..][..k] + lines[1..][k..]
  {
  }

  lemma RenderOneMore(r: Release, releases: seq<Release>)
    requires ProperReleases(releases)
    ensures RenderReleases([r] + releases) == [r.heading] + r.body + RenderReleases(releases)
    ensures IsRelease(r.heading) && (forall l :: l in r.body ==> !IsRelease(l)) ==> ProperReleases([r] + releases)
  {
    assert ([r] + releases)[1..] == releases;
  }

  lemma FirstIndexIs(lines: seq<string>, p: string -> bool, i: nat)
    requires i <= |lines| && (forall k :: 0 <= k < i ==> !p(lines[k])) && (i < |lines| ==> p(lines[i]))
    ensures FirstIndex(lines, p) == i
  {
  }

  lemma ParseOneRelease(r: Release, tail: seq<string>)
    requires forall l :: l in r.body ==> !IsRelease(l)
    requires tail == [] || IsRelease(tail[0])
    ensures ParseReleases([r.heading] + r.body + tail) == [r] + ParseReleases(tail)
  {
    hide IsRelease;
    var lines := [r.heading] + r.body + tail;
    assert lines[1..] == r.body + tail;
    FirstIndexIs(r.body + tail, IsRelease, |r.body|);
    assert (r.body + tail)[..|r.body|] == r.body && (r.body + tail)[|r.body|..] == tail;
  }

  lemma {:induction false} RenderedReleasesParse(releases: seq<Release>)
    requires ProperReleases(releases)
    ensures ParseReleases(RenderReleases(releases)) == releases
    ensures releases != [] ==> RenderReleases(releases) != [] && IsRelease(RenderReleases(releases)[0])
  {
    hide IsRelease, ParseReleases;
    if releases == [] {
      NoReleases();
    } else {
      RenderedReleasesParse(releases[1..]);
      assert releases[0] in releases;
      ParseOneRelease(releases[0], RenderReleases(releases[1..]));
    }
  }

  lemma NoReleases()
    ensures ParseReleases([]) == []
  {
  }

  lemma CutAround(lines: seq<string>, i: nat, k: nat)
    requires i < |lines| && k <= |lines| - i - 1
    ensures lines == lines[..i] + [lines[i]] + lines[i + 1..][..k] + lines[i + 1..][k..]
  {
  }

  lemma ParsedRenders(d: Document, lines: seq<string>)
    requires Parse(lines) == Some(d)
    ensures Proper(d) && Render(d) == lines
  {
    hide IsRelease, IsUnreleased, ParseReleases, RenderReleases, ProperReleases;
    var i := FirstIndex(lines, IsUnreleased);
    var k := FirstIndex(lines[i + 1..], IsRelease);
    hide FirstIndex;
    ReleasesRoundTrip(lines[i + 1..][k..]);
    CutAround(lines, i, k);
  }

  lemma RenderedParses(d: Document)
    requires Proper(d)
    ensures Parse(Render(d)) == Some(d)
  {
    hide IsRelease, IsUnreleased, ParseReleases, RenderReleases, ProperReleases, FirstIndex;
    var lines, tail := Render(d), RenderReleases(d.releases);
    RenderedReleasesParse(d.releases);
    assert d.releases == [] ==> tail == [] by { NothingRendered(d.releases); }
    FirstIndexIs(lines, IsUnreleased, |d.preamble|);
    var rest := lines[|d.preamble| + 1..];
    assert rest == d.unreleased + tail;
    FirstIndexIs(rest, IsRelease, |d.unreleased|);
    assert rest[|d.unreleased|..] == tail && rest[..|d.unreleased|] == d.unreleased;
    assert lines[..|d.preamble|] == d.preamble;
  }

  lemma NothingRendered(releases: seq<Release>)
    ensures releases == [] ==> RenderReleases(releases) == [] && ProperReleases(releases)
  {
  }

  /** Parsing and printing are inverse to each other. */
  lemma ParseRenderInverse(d: Document, lines: seq<string>)
    ensures Parse(lines) == Some(d) <==> Proper(d) && Render(d) == lines
  {
    hide Parse, Render, Proper;
    if Parse(lines) == Some(d) {
      ParsedRenders(d, lines);
    }
    if Proper(d) {
      RenderedParses(d);
    }
  }

  // ------------------------------------------------------------------- promotion

  function ReleaseHeading(s: Section): string {
    "## [" + s.version + "] - " + s.releaseDate
  }

  /** The lines inserted between the Unreleased heading and the next release. */
  function ReleaseLines(s: Section): seq<string> {
    ["", ReleaseHeading(s), ""] + SplitLines(Strip(IsSpace, s.notes)) + [""]
  }

  /** `promote_changelog`; `None` for its `ValueError`. */
  function Promote(content: string, s: Section): Option<string> {
    var lines := SplitLines(content);
    var unreleased := FirstIndex(lines, IsUnreleased);
    if unreleased == |lines| then None else
      var next := unreleased + 1 + FirstIndex(lines[unreleased + 1..], IsRelease);
      Some(RStrip(JoinLines(lines[..unreleased + 1] + ReleaseLines(s) + lines[next..])) + "\n")
  }

  /** The release that a promotion adds, cut further if the notes hold release headings of their own. */
  function NewReleases(s: Section): seq<Release> {
    ParseReleases([ReleaseHeading(s), ""] + SplitLines(Strip(IsSpace, s.notes)) + [""])
  }

  /** The notes arrive as one release exactly when none of their lines looks like a release heading. */
  lemma NewReleaseIsSingle(s: Section)
    ensures NewReleases(s) == [Release(ReleaseHeading(s), [""] + SplitLines(Strip(IsSpace, s.notes)) + [""])]
            <==> forall l :: l in SplitLines(Strip(IsSpace, s.notes)) ==> !IsRelease(l)
  {
    hide SplitLines, Strip, ReleaseHeading;
    assert !IsRelease("");
    hide IsRelease;
    var notes, heading := SplitLines(Strip(IsSpace, s.notes)), ReleaseHeading(s);
    var body := [""] + notes + [""];
    var lines := [heading, ""] + notes + [""];
    assert lines[1..] == body && lines == [heading] + body + [];
    if forall l :: l in notes ==> !IsRelease(l) {
      ParseOneRelease(Release(heading, body), []);
    } else {
      var j :| 0 <= j < |notes| && IsRelease(notes[j]);
      assert body[j + 1] == notes[j];
      assert ParseReleases(lines)[0].body == body[..FirstIndex(body, IsRelease)];
    }
  }

  /** The new section is headed by the version in brackets, a dash and the date. */
  lemma NewReleaseNamed(s: Section)
    ensures NewReleases(s) != [] && NewReleases(s)[0].heading == "## [" + s.version + "] - " + s.releaseDate
  {
    hide SplitLines, Strip;
  }

  /** Without a line that starts with the heading, and only then, there is no place for a release. */
  lemma RefusedWithoutHeading(content: string, s: Section)
    ensures Promote(content, s).None? <==> forall l :: l in SplitLines(content) ==> !("## [Unreleased]" <= l)
  {
    hide SplitLines, RStrip, JoinLines, ReleaseLines;
    var lines := SplitLines(content);
    var i := FirstIndex(lines, IsUnreleased);
    assert Promote(content, s).None? <==> i == |lines|;
    hide FirstIndex, Promote;
    if i < |lines| {
      var l := lines[i];
      assert IsUnreleased(l) && l in SplitLines(content);
      assert "## [Unreleased]" <= l;
      assert Promote(content, s).Some?;
      assert !(forall l :: l in SplitLines(content) ==> !("## [Unreleased]" <= l));
    } else {
      forall l | l in lines ensures !("## [Unreleased]" <= l) {
        var k :| 0 <= k < |lines| && lines[k] == l;
        assert !IsUnreleased(lines[k]);
      }
    }
  }

  lemma SplitSingle(line: string)
    requires line != "" && SingleLine(line)
    ensures SplitLines(line) == [line]
  {
  }

  /** Notes that quote a release heading: they are read back as a release of their own. */
  lemma QuotedHeadingSplits() returns (s: Section)
    ensures NewReleases(s) != [Release(ReleaseHeading(s), [""] + SplitLines(Strip(IsSpace, s.notes)) + [""])]
  {
    s := Section("2", "2024", "## [1]");
    SplitSingle(s.notes);
    assert Strip(IsSpace, s.notes) == s.notes;
    assert s.notes[..4] == RELEASE_HEADING_PREFIX;
    hide SplitLines, Strip, NewReleases, ReleaseHeading, IsSpace;
    assert s.notes in SplitLines(s.notes) && IsRelease(s.notes);
    NewReleaseIsSingle(s);
  }

  // ------------------------------------------------------------- trailing space

  /** Lines without trailing blank lines, the last of the rest without trailing space. */
  function TrimLines(lines: seq<string>): seq<string> {
    if lines == [] then []
    else
      var n := |lines| - 1;
      if RStrip(lines[n]) == "" then TrimLines(lines[..n]) else lines[..n] + [RStrip(lines[n])]
  }

  /** The same on the last section, whose heading is never blank. */
  function TrimRelease(r: Release): Release {
    var body := TrimLines(r.body);
    Release(if body == [] then RStrip(r.heading) else r.heading, body)
  }

  function TrimReleases(releases: seq<Release>): seq<Release> {
    if releases == [] then []
    else
      var n := |releases| - 1;
      releases[..n] + [TrimRelease(releases[n])]
  }

  lemma {:induction false} RStripAppend(a: string, b: string)
    ensures RStrip(a + b) == if RStrip(b) == "" then RStrip(a) else a + RStrip(b)
  {
    if b == "" {
      assert a + b == a;
    } else {
      assert (a + b)[..|a + b| - 1] == a + b[..|b| - 1];
      if IsSpace(b[|b| - 1]) {
        RStripAppend(a, b[..|b| - 1]);
      }
    }
  }

  lemma {:induction false} JoinAppend(lines: seq<string>, last: string)
    requires lines != []
    ensures JoinLines(lines + [last]) == JoinLines(lines) + "\n" + last
  {
    if |lines| > 1 {
      JoinAppend(lines[1..], last);
      assert (lines + [last])[1..] == lines[1..] + [last];
    } else {
      assert (lines + [last])[1..] == [last];
    }
  }

  lemma {:induction false} RStripJoin(lines: seq<string>)
    ensures RStrip(JoinLines(lines)) == JoinLines(TrimLines(lines))
  {
    if |lines| > 1 {
      var n := |lines| - 1;
      var front, last := lines[..n], lines[n];
      assert lines == front + [last];
      JoinAppend(front, last);
      RStripAppend(JoinLines(front) + "\n", last);
      if RStrip(last) == "" {
        RStripAppend(JoinLines(front), "\n");
        RStripJoin(front);
      } else {
        JoinAppend(front, RStrip(last));
      }
    }
  }

  lemma {:induction false} LineEndAt(line: string, rest: string)
    requires SingleLine(line)
    ensures LineEnd(line + "\n" + rest) == |line|
  {
    if line != "" {
      LineEndAt(line[1..], rest);
      assert (line + "\n" + rest)[1..] == line[1..] + "\n" + rest;
    }
  }

  lemma SplitFirst(line: string, rest: string)
    requires SingleLine(line)
    ensures SplitLines(line + "\n" + rest) == [line] + SplitLines(rest)
  {
    var all := line + "\n" + rest;
    LineEndAt(line, rest);
    assert all[|line|..][0] == '\n' && all[|line| + 1..] == rest && all[..|line|] == line;
  }

  lemma {:induction false} SplitJoined(lines: seq<string>)
    requires lines != [] && forall l :: l in lines ==> SingleLine(l)
    ensures SplitLines(JoinLines(lines) + "\n") == lines
  {
    hide SingleLine;
    var first, rest := lines[0], lines[1..];
    assert lines == [first] + rest;
    if rest == [] {
      SplitFirst(first, "");
      assert first + "\n" + "" == first + "\n";
    } else {
      SplitJoined(rest);
      SplitFirst(first, JoinLines(rest) + "\n");
      assert JoinLines(lines) + "\n" == first + "\n" + (JoinLines(rest) + "\n");
    }
  }

  lemma {:induction false} TrimmedSingle(lines: seq<string>)
    requires forall l :: l in lines ==> SingleLine(l)
    ensures forall l :: l in TrimLines(lines) ==> SingleLine(l)
  {
    if lines != [] {
      var n := |lines| - 1;
      assert lines[n] in lines;
      assert SingleLine(RStrip(lines[n]));
      TrimmedSingle(lines[..n]);
    }
  }

  /** What reading back a written changelog gives. */
  lemma WrittenLines(lines: seq<string>)
    requires TrimLines(lines) != [] && forall l :: l in lines ==> SingleLine(l)
    ensures SplitLines(RStrip(JoinLines(lines)) + "\n") == TrimLines(lines)
  {
    RStripJoin(lines);
    TrimmedSingle(lines);
    SplitJoined(TrimLines(lines));
  }

  lemma {:induction false} TrimAppend(a: seq<string>, b: seq<string>)
    ensures TrimLines(a + b) == if TrimLines(b) == [] then TrimLines(a) else a + TrimLines(b)
  {
    if b == [] {
      assert a + b == a;
    } else {
      var n := |b| - 1;
      assert (a + b)[..|a + b| - 1] == a + b[..n];
      TrimAppend(a, b[..n]);
    }
  }

  lemma RenderReleasesAppend(a: seq<Release>, b: seq<Release>)
    ensures RenderReleases(a + b) == RenderReleases(a) + RenderReleases(b)
  {
    if a != [] {
      RenderReleasesAppend(a[1..], b);
      assert (a + b)[1..] == a[1..] + b;
    } else {
      assert a + b == b;
    }
  }

  lemma HeadingSurvives(heading: string)
    requires IsRelease(heading)
    ensures IsRelease(RStrip(heading)) && RStrip(heading) != ""
  {
    var rest := heading[4..];
    assert heading == RELEASE_HEADING_PREFIX + rest;
    RStripAppend(RELEASE_HEADING_PREFIX, rest);
    assert RStrip(RELEASE_HEADING_PREFIX) == RELEASE_HEADING_PREFIX;
  }

  lemma {:induction false} TrimmedBodyPlain(body: seq<string>)
    requires forall l :: l in body ==> !IsRelease(l)
    ensures forall l :: l in TrimLines(body) ==> !IsRelease(l)
  {
    if body != [] {
      var n := |body| - 1;
      TrimmedBodyPlain(body[..n]);
      assert body[n] in body;
      assert RStrip(body[n]) <= body[n];
    }
  }

  lemma TrimOne(line: string)
    ensures TrimLines([line]) == if RStrip(line) == "" then [] else [RStrip(line)]
  {
    assert [line][..0] == [];
  }

  lemma TrimmedLast(last: Release)
    requires ProperReleases([last])
    ensures ProperReleases([TrimRelease(last)])
    ensures TrimLines([last.heading] + last.body) == [TrimRelease(last).heading] + TrimRelease(last).body
  {
    hide IsRelease, RStrip, TrimLines;
    assert last in [last];
    TrimAppend([last.heading], last.body);
    TrimOne(last.heading);
    HeadingSurvives(last.heading);
    TrimmedBodyPlain(last.body);
  }

  lemma RenderAfter(front: seq<Release>, last: Release)
    ensures RenderReleases(front + [last]) == RenderReleases(front) + ([last.heading] + last.body)
  {
    RenderReleasesAppend(front, [last]);
    assert RenderReleases([last]) == [last.heading] + last.body;
  }

  lemma TrimmedReleasesRender(releases: seq<Release>)
    requires releases != [] && ProperReleases(releases)
    ensures ProperReleases(TrimReleases(releases))
    ensures TrimLines(RenderReleases(releases)) == RenderReleases(TrimReleases(releases)) != []
  {
    var n := |releases| - 1;
    var front, last := releases[..n], releases[n];
    assert last in releases;
    assert releases == front + [last] && TrimReleases(releases) == front + [TrimRelease(last)];
    hide IsRelease, RStrip, TrimLines, TrimReleases, RenderReleases, TrimRelease;
    TrimmedLast(last);
    assert TrimRelease(last) in [TrimRelease(last)];
    RenderAfter(front, last);
    RenderAfter(front, TrimRelease(last));
    TrimAppend(RenderReleases(front), [last.heading] + last.body);
  }

  // ----------------------------------------------------------------- main results

  function Promoted(d: Document, s: Section): Document {
    Document(d.preamble, d.heading, [""], TrimReleases(NewReleases(s) + d.releases))
  }

  /** The document that a promotion writes, before trailing space is cut. */
  function Inserted(d: Document, s: Section): seq<string> {
    Render(Document(d.preamble, d.heading, [""], NewReleases(s) + d.releases))
  }

  lemma NewReleasesProper(s: Section)
    ensures ProperReleases(NewReleases(s)) && NewReleases(s) != []
    ensures RenderReleases(NewReleases(s)) == [ReleaseHeading(s), ""] + SplitLines(Strip(IsSpace, s.notes)) + [""]
    ensures ReleaseLines(s) == [""] + RenderReleases(NewReleases(s))
  {
    hide SplitLines, Strip, RenderReleases;
    var lines := [ReleaseHeading(s), ""] + SplitLines(Strip(IsSpace, s.notes)) + [""];
    assert lines[0] == ReleaseHeading(s) && IsRelease(ReleaseHeading(s));
    ReleasesRoundTrip(lines);
  }

  lemma TrimAfter(front: seq<string>, releases: seq<Release>)
    requires releases != [] && ProperReleases(releases)
    ensures ProperReleases(TrimReleases(releases))
    ensures TrimLines(front + RenderReleases(releases)) == front + RenderReleases(TrimReleases(releases))
  {
    hide ProperReleases, TrimReleases, RenderReleases, TrimLines;
    TrimmedReleasesRender(releases);
    TrimAppend(front, RenderReleases(releases));
  }

  lemma PromotedProper(d: Document, s: Section)
    requires Proper(d)
    ensures Proper(Promoted(d, s))
    ensures TrimLines(Inserted(d, s)) == Render(Promoted(d, s))
    ensures Render(Promoted(d, s)) != []
  {
    assert !IsRelease("");
    hide IsRelease, IsUnreleased, NewReleases, TrimReleases, RenderReleases, TrimLines, RStrip;
    NewReleasesProper(s);
    var releases := NewReleases(s) + d.releases;
    assert ProperReleases(releases);
    hide ProperReleases;
    TrimAfter(d.preamble + [d.heading] + [""], releases);
  }

  /** Where `promote_changelog` cuts the old lines. */
  function Cut(lines: seq<string>): (int, int) {
    var i := FirstIndex(lines, IsUnreleased);
    if i == |lines| then (i, i) else (i, i + 1 + FirstIndex(lines[i + 1..], IsRelease))
  }

  lemma ParsedAtCut(lines: seq<string>, d: Document)
    requires Parse(lines) == Some(d)
    ensures var (i, next) := Cut(lines);
            && 0 <= i < next <= |lines| && d.preamble == lines[..i] && d.heading == lines[i]
            && RenderReleases(d.releases) == lines[i + 1..][next - i - 1..]
  {
    hide IsRelease, IsUnreleased, RenderReleases, ProperReleases, ParseReleases, FirstIndex;
    var i := FirstIndex(lines, IsUnreleased);
    var rest := lines[i + 1..];
    ReleasesRoundTrip(rest[FirstIndex(rest, IsRelease)..]);
  }

  /** The lines that a promotion joins are those of the document with the new release put in. */
  lemma PromotedLines(lines: seq<string>, d: Document, s: Section)
    requires Parse(lines) == Some(d)
    ensures var (i, next) := Cut(lines);
            0 <= i < next <= |lines| && lines[..i + 1] + ReleaseLines(s) + lines[next..] == Inserted(d, s)
  {
    hide Parse, Cut, NewReleases, RenderReleases, ReleaseLines, Render;
    ParsedAtCut(lines, d);
    PromotedLinesAt(lines, d, s, Cut(lines).0, Cut(lines).1 - Cut(lines).0 - 1);
  }

  lemma PromotedLinesAt(lines: seq<string>, d: Document, s: Section, i: nat, k: nat)
    requires i < |lines| && k <= |lines| - i - 1
    requires d.preamble == lines[..i] && d.heading == lines[i] && RenderReleases(d.releases) == lines[i + 1..][k..]
    ensures lines[..i + 1] + ReleaseLines(s) + lines[i + 1 + k..]
            == Render(Document(d.preamble, d.heading, [""], NewReleases(s) + d.releases))
  {
    hide NewReleases, RenderReleases, ReleaseLines, ProperReleases;
    NewReleasesProper(s);
    RenderReleasesAppend(NewReleases(s), d.releases);
    TailOf(lines, i, k);
    Regroup(d.preamble, d.heading, RenderReleases(NewReleases(s)), RenderReleases(d.releases));
  }

  lemma TailOf(lines: seq<string>, i: nat, k: nat)
    requires i < |lines| && k <= |lines| - i - 1
    ensures lines[i + 1..][k..] == lines[i + 1 + k..] && lines[..i + 1] == lines[..i] + [lines[i]]
  {
  }

  lemma Regroup(preamble: seq<string>, heading: string, added: seq<string>, tail: seq<string>)
    ensures preamble + [heading] + ([""] + added) + tail == preamble + [heading] + [""] + (added + tail)
  {
  }

  lemma PromotedText(content: string, d: Document, s: Section)
    requires Parse(SplitLines(content)) == Some(d)
    ensures Promote(content, s) == Some(RStrip(JoinLines(Inserted(d, s))) + "\n")
  {
    hide SplitLines, JoinLines, RStrip, Render, ReleaseLines, NewReleases;
    hide IsRelease, IsUnreleased, ParseReleases, FirstIndex;
    PromotedLines(SplitLines(content), d, s);
  }

  lemma InsertedSingle(content: string, d: Document, s: Section)
    requires SingleLine(s.version) && SingleLine(s.releaseDate) && Parse(SplitLines(content)) == Some(d)
    ensures forall l :: l in Inserted(d, s) ==> SingleLine(l)
  {
    hide SplitLines, Render, ReleaseLines, NewReleases, IsRelease, IsUnreleased, ParseReleases, FirstIndex, SingleLine;
    var lines := SplitLines(content);
    PromotedLines(lines, d, s);
    ReleaseLinesSingle(s);
  }

  lemma ReleaseLinesSingle(s: Section)
    requires SingleLine(s.version) && SingleLine(s.releaseDate)
    ensures forall l :: l in ReleaseLines(s) ==> SingleLine(l)
  {
    assert SingleLine(ReleaseHeading(s)) && SingleLine("");
  }

  /**
   * Main result: reading back a promoted changelog gives the same preamble and heading, an empty Unreleased section,
   * the new release and then the old ones in order, apart from trailing space. Without an Unreleased heading, and
   * only then, the promotion is refused.
   */
  lemma PromotionInsertsRelease(content: string, s: Section)
    requires SingleLine(s.version) && SingleLine(s.releaseDate)
    ensures Promote(content, s).None? <==> Parse(SplitLines(content)).None?
    ensures Parse(SplitLines(content)).Some? ==>
              Parse(SplitLines(Promote(content, s).value)) == Some(Promoted(Parse(SplitLines(content)).value, s))
  {
    RefusedTogether(content, s);
    hide Parse, Promote, SplitLines, JoinLines, RStrip, Render, TrimLines, SingleLine, Promoted, NewReleases;
    if Parse(SplitLines(content)).Some? {
      var d := Parse(SplitLines(content)).value;
      ParsedRenders(d, SplitLines(content));
      PromotedText(content, d, s);
      InsertedSingle(content, d, s);
      PromotedProper(d, s);
      WrittenLines(Inserted(d, s));
      RenderedParses(Promoted(d, s));
    }
  }

  lemma RefusedTogether(content: string, s: Section)
    ensures Promote(content, s).None? <==> Parse(SplitLines(content)).None?
  {
    hide SplitLines, FirstIndex;
  }

  function PromoteAll(content: string, sections: seq<Section>): Option<string> {
    if sections == [] then Some(content)
    else
      var n := |sections| - 1;
      var before := PromoteAll(content, sections[..n]);
      if before.None? then None else Promote(before.value, sections[n])
  }

  function NewestFirst(sections: seq<Section>): seq<Release> {
    if sections == [] then [] else NewReleases(sections[|sections| - 1]) + NewestFirst(sections[..|sections| - 1])
  }

  lemma {:induction false} RStripIdempotent(s: string)
    ensures RStrip(RStrip(s)) == RStrip(s)
  {
    if s != "" && IsSpace(s[|s| - 1]) {
      RStripIdempotent(s[..|s| - 1]);
    }
  }

  lemma {:induction false} TrimIdempotent(lines: seq<string>)
    ensures TrimLines(TrimLines(lines)) == TrimLines(lines)
  {
    hide RStrip;
    if lines != [] {
      var n := |lines| - 1;
      RStripIdempotent(lines[n]);
      TrimIdempotent(lines[..n]);
    }
  }

  lemma TrimReleasesOnce(a: seq<Release>, b: seq<Release>)
    ensures TrimReleases(a + TrimReleases(b)) == TrimReleases(a + b)
  {
    hide RStrip, TrimLines;
    if b != [] {
      var n := |b| - 1;
      TrimIdempotent(b[n].body);
      RStripIdempotent(b[n].heading);
      var t := TrimReleases(b);
      assert (a + b)[..|a + b| - 1] == a + b[..n];
      assert (a + t)[..|a + t| - 1] == a + b[..n];
      assert TrimLines([]) == [] by { TrimNothing(); }
    }
  }

  lemma TrimNothing()
    ensures TrimLines([]) == []
  {
  }

  /** After any number of promotions the releases stand newest first, ahead of the old ones, in the old order. */
  lemma {:induction false} PromotionsStack(content: string, sections: seq<Section>)
    requires sections != [] && forall s :: s in sections ==> SingleLine(s.version) && SingleLine(s.releaseDate)
    requires Parse(SplitLines(content)).Some?
    ensures PromoteAll(content, sections).Some?
    ensures var d := Parse(SplitLines(content)).value;
            Parse(SplitLines(PromoteAll(content, sections).value))
            == Some(Document(d.preamble, d.heading, [""], TrimReleases(NewestFirst(sections) + d.releases)))
  {
    hide Parse, Promote, SplitLines, TrimReleases, NewReleases, SingleLine;
    var n := |sections| - 1;
    var d, s := Parse(SplitLines(content)).value, sections[n];
    assert s in sections;
    if n == 0 {
      assert sections[..n] == [];
      PromotionInsertsRelease(content, s);
      assert NewestFirst(sections) == NewReleases(s);
    } else {
      PromotionsStack(content, sections[..n]);
      PromotionInsertsRelease(PromoteAll(content, sections[..n]).value, s);
      var older := NewestFirst(sections[..n]) + d.releases;
      TrimReleasesOnce(NewReleases(s), older);
      assert NewReleases(s) + older == NewestFirst(sections) + d.releases;
    }
  }
}
