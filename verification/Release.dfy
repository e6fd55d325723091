/** `bump.rb`: version numbers and the changelog.  A text is the sequence of its lines. */
module Release {
  import opened Wrappers

  // ----- versions

  type Version = v: seq<nat> | |v| == 3 witness [0, 0, 0]

  function Bumped(v: Version, pos: nat): Version
    requires pos < 3
  {
    seq(3, i requires 0 <= i < 3 => if i < pos then v[i] else if i == pos then v[i] + 1 else 0)
  }

  /** `Version#bump` on the array itself. */
  method Bump(parts: array<nat>, pos: nat)
    requires parts.Length == 3 && pos < 3
    modifies parts
    ensures parts[..] == Bumped(old(parts[..]), pos)
  {
    parts[pos] := parts[pos] + 1;
    for p := pos + 1 to 3
      invariant forall i :: 0 <= i < 3 ==>
        parts[i] == if i < pos then old(parts[i]) else if i == pos then old(parts[i]) + 1 else if i < p then 0 else old(parts[i])
    {
      parts[p] := 0;
    }
  }

  ghost predicate Less(u: Version, v: Version) {
    exists k :: 0 <= k < 3 && u[k] < v[k] && forall i :: 0 <= i < k ==> u[i] == v[i]
  }

  ghost predicate DiffersUpTo(u: Version, v: Version, pos: nat)
    requires pos < 3
  {
    exists k :: 0 <= k <= pos && u[k] != v[k]
  }

  /** A bump gives the least later version that differs at or before the bumped part. */
  lemma BumpIsLeast(v: Version, pos: nat, u: Version)
    requires pos < 3
    ensures Less(v, Bumped(v, pos)) && DiffersUpTo(v, Bumped(v, pos), pos)
    ensures Less(v, u) && DiffersUpTo(v, u, pos) ==> u == Bumped(v, pos) || Less(Bumped(v, pos), u)
  {
    var b := Bumped(v, pos);
    assert b[pos] == v[pos] + 1;
    if Less(v, u) && DiffersUpTo(v, u, pos) {
      var k :| 0 <= k < 3 && v[k] < u[k] && forall i :: 0 <= i < k ==> v[i] == u[i];
      assert k <= pos;
      if k == pos && u[pos] == v[pos] + 1 {
        if n :| pos < n < 3 && u[n] != 0 && forall i :: pos < i < n ==> u[i] == 0 {
          assert b[n] < u[n] && forall i :: 0 <= i < n ==> b[i] == u[i];
        } else {
          assert pos + 1 < 3 ==> u[pos+1] == 0;
          assert pos + 2 < 3 ==> u[pos+2] == 0;
          assert u == b;
        }
      } else {
        assert b[k] < u[k] && forall i :: 0 <= i < k ==> b[i] == u[i];
      }
    }
  }

  // ----- numbers as text

  function DigitChar(d: nat): (c: char)
    requires d < 10
  {
    ['0', '1', '2', '3', '4', '5', '6', '7', '8', '9'][d]
  }

  predicate IsDigit(c: char) {
    '0' <= c <= '9'
  }

  function DigitValue(c: char): nat
    requires IsDigit(c)
  {
    c as int - '0' as int
  }

  function Decimal(n: nat): string {
    if n < 10 then [DigitChar(n)] else Decimal(n / 10) + [DigitChar(n % 10)]
  }

  predicate AllDigits(s: string) {
    forall i :: 0 <= i < |s| ==> IsDigit(s[i])
  }

  /** `to_i`. */
  function Value(s: string): nat
    requires AllDigits(s)
  {
    if s == [] then 0 else 10 * Value(s[..|s|-1]) + DigitValue(s[|s|-1])
  }

  lemma {:induction false} DecimalRoundTrip(n: nat)
    ensures AllDigits(Decimal(n)) && Decimal(n) != [] && Value(Decimal(n)) == n
  {
    var s := Decimal(n);
    if n >= 10 {
      DecimalRoundTrip(n / 10);
      assert s[..|s|-1] == Decimal(n / 10);
    } else {
      assert s[..|s|-1] == [];
    }
  }

  /** Decimal numbers are written as usual: the last digit last, and no zero in front. */
  lemma {:induction false} DecimalIsUsual(n: nat)
    ensures Decimal(n) != [] && (n > 0 ==> Decimal(n)[0] != '0')
    ensures Decimal(n)[|Decimal(n)|-1] == DigitChar(n % 10)
  {
    if n >= 10 {
      DecimalIsUsual(n / 10);
    }
  }

  /** `\d+` takes every digit there is. */
  function Digits(s: string): (k: nat)
    ensures k <= |s| && AllDigits(s[..k]) && (k < |s| ==> !IsDigit(s[k]))
  {
    if s != [] && IsDigit(s[0]) then 1 + Digits(s[1..]) else 0
  }

  lemma {:induction false} DigitsThen(d: string, rest: string)
    requires AllDigits(d) && (rest != [] ==> !IsDigit(rest[0]))
    ensures Digits(d + rest) == |d|
  {
    if d == [] {
      assert d + rest == rest;
    } else {
      assert (d + rest)[1..] == d[1..] + rest;
      DigitsThen(d[1..], rest);
    }
  }

  /** `(\d+)` followed by `mark`: the number and what comes after the mark. */
  function Number(s: string, mark: string): Option<(nat, string)> {
    var k := Digits(s);
    if k > 0 && mark <= s[k..] then Some((Value(s[..k]), s[k+|mark|..])) else None
  }

  lemma ThreeParts(d: string, mark: string, rest: string)
    ensures var s := d + mark + rest;
      s == d + (mark + rest) && s[..|d|] == d && s[|d|..] == mark + rest && s[|d|+|mark|..] == rest
  {
  }

  lemma NumberOfShape(d: string, mark: string, rest: string)
    requires AllDigits(d) && d != [] && (mark + rest != [] ==> !IsDigit((mark + rest)[0]))
    ensures Number(d + mark + rest, mark) == Some((Value(d), rest))
  {
    DigitsThen(d, mark + rest);
    ThreeParts(d, mark, rest);
  }

  /** `(\d+)\.(\d+)\.(\d+)` and what follows. */
  function Triple(s: string): Option<(Version, string)> {
    match Number(s, ".")
    case None => None
    case Some((major, s1)) =>
      match Number(s1, ".")
      case None => None
      case Some((minor, s2)) =>
        match Number(s2, "")
        case None => None
        case Some((patch, s3)) =>
          var v: Version := [major, minor, patch];
          Some((v, s3))
  }

  function ToS(v: Version): string {
    Decimal(v[0]) + "." + (Decimal(v[1]) + "." + Decimal(v[2]))
  }

  predicate Digital(d: string) {
    d != [] && AllDigits(d)
  }

  lemma TripleOfShape(line: string, s1: string, s2: string, a: string, b: string, c: string, rest: string)
    requires Digital(a) && Digital(b) && Digital(c) && (rest != [] ==> !IsDigit(rest[0]))
    requires line == a + "." + s1 && s1 == b + "." + s2 && s2 == c + "" + rest
    ensures Triple(line) == Some(([Value(a), Value(b), Value(c)], rest))
  {
    assert "" + rest == rest;
    NumberOfShape(a, ".", s1);
    NumberOfShape(b, ".", s2);
    NumberOfShape(c, "", rest);
  }

  lemma TripleRead(v: Version, rest: string)
    requires rest != [] ==> !IsDigit(rest[0])
    ensures Triple(ToS(v) + rest) == Some((v, rest))
  {
    var a, b, c := Decimal(v[0]), Decimal(v[1]), Decimal(v[2]);
    DecimalRoundTrip(v[0]);
    DecimalRoundTrip(v[1]);
    DecimalRoundTrip(v[2]);
    Reassociate(a, b, c, ".", rest);
    TripleOfShape(ToS(v) + rest, b + "." + (c + "" + rest), c + "" + rest, a, b, c, rest);
    assert v == [v[0], v[1], v[2]];
  }

  lemma Reassociate(a: string, b: string, c: string, dot: string, rest: string)
    ensures a + dot + (b + dot + c) + rest == a + dot + (b + dot + (c + "" + rest))
  {
  }

  /** `version_from_tag` on the line of the tag. */
  function VersionFromTag(tag: string): Option<Version> {
    if tag == [] || tag[0] != 'v' then None
    else
      match Triple(tag[1..])
      case Some((v, rest)) => if rest == [] then Some(v) else None
      case None => None
  }

  lemma TagRoundTrip(v: Version)
    ensures VersionFromTag("v" + ToS(v)) == Some(v)
  {
    TripleRead(v, []);
    assert ToS(v) + [] == ToS(v);
    assert ("v" + ToS(v))[1..] == ToS(v);
  }

  // ----- the changelog

  /** ` (YYYY-MM-DD)` */
  predicate IsDate(s: string) {
    && |s| == 10 && s[4] == '-' && s[7] == '-'
    && forall i :: 0 <= i < 10 && i != 4 && i != 7 ==> IsDigit(s[i])
  }

  /** A version heading, without its underline. */
  function HeadingVersion(line: string): Option<Version> {
    match Triple(line)
    case None => None
    case Some((v, rest)) =>
      if |rest| == 13 && rest[..2] == " (" && IsDate(rest[2..12]) && rest[12] == ')' then Some(v) else None
  }

  predicate IsHeading(news: seq<string>, i: nat) {
    i + 1 < |news| && HeadingVersion(news[i]).Some? && news[i+1] != [] && news[i+1][0] == '-'
  }

  lemma NumberShape(s: string, mark: string, n: nat, rest: string)
    requires Number(s, mark) == Some((n, rest))
    ensures exists d: string :: Digital(d) && Value(d) == n && s == d + mark + rest
  {
    var k := Digits(s);
    assert s == s[..k] + mark + s[k+|mark|..];
  }

  /** Three numbers with dots between them, and a date in parentheses. */
  ghost predicate HeadingShape(line: string, v: Version, a: string, b: string, c: string, date: string) {
    && Digital(a) && Digital(b) && Digital(c)
    && v == [Value(a), Value(b), Value(c)] && IsDate(date)
    && line == a + "." + (b + "." + (c + "" + (" (" + date + ")")))
  }

  lemma TripleShape(line: string, v: Version, rest: string)
    requires Triple(line) == Some((v, rest))
    ensures exists a: string, b: string, c: string ::
      && Digital(a) && Digital(b) && Digital(c)
      && v == [Value(a), Value(b), Value(c)] && line == a + "." + (b + "." + (c + "" + rest))
  {
    var (major, s1) := Number(line, ".").value;
    var (minor, s2) := Number(s1, ".").value;
    var (patch, s3) := Number(s2, "").value;
    NumberShape(line, ".", major, s1);
    NumberShape(s1, ".", minor, s2);
    NumberShape(s2, "", patch, s3);
    var a: string :| Digital(a) && Value(a) == major && line == a + "." + s1;
    var b: string :| Digital(b) && Value(b) == minor && s1 == b + "." + s2;
    var c: string :| Digital(c) && Value(c) == patch && s2 == c + "" + s3;
    assert line == a + "." + (b + "." + (c + "" + rest));
  }

  lemma ShapeIsRead(line: string, v: Version, a: string, b: string, c: string, date: string)
    requires HeadingShape(line, v, a, b, c, date)
    ensures HeadingVersion(line) == Some(v)
  {
    var end := " (" + date + ")";
    DateInParentheses(date, " (", ")");
    TripleOfShape(line, b + "." + (c + "" + end), c + "" + end, a, b, c, end);
  }

  lemma SplitParentheses(rest: string)
    requires |rest| == 13 && rest[..2] == " (" && rest[12] == ')'
    ensures rest == " (" + rest[2..12] + ")"
  {
    assert rest == rest[..2] + rest[2..12] + rest[12..];
    assert rest[12..] == ")";
  }

  /** What the heading pattern matches. */
  lemma HeadingVersionIff(line: string, v: Version)
    ensures HeadingVersion(line) == Some(v) <==> exists a, b, c, date :: HeadingShape(line, v, a, b, c, date)
  {
    if HeadingVersion(line) == Some(v) {
      var (u, rest) := Triple(line).value;
      TripleShape(line, u, rest);
      SplitParentheses(rest);
      var a: string, b: string, c: string :| Digital(a) && Digital(b) && Digital(c)
        && u == [Value(a), Value(b), Value(c)] && line == a + "." + (b + "." + (c + "" + rest));
      assert HeadingShape(line, v, a, b, c, rest[2..12]);
    }
    if a, b, c, date :| HeadingShape(line, v, a, b, c, date) {
      ShapeIsRead(line, v, a, b, c, date);
    }
  }

  /** Where the first version heading is, or the end of the text. */
  function FirstHeading(news: seq<string>): (k: nat)
    ensures k <= |news|
  {
    FirstHeadingFrom(news, 0)
  }

  function FirstHeadingFrom(news: seq<string>, i: nat): (k: nat)
    requires i <= |news|
    ensures i <= k <= |news| && (k < |news| ==> IsHeading(news, k))
    ensures forall j :: i <= j < k ==> !IsHeading(news, j)
    decreases |news| - i
  {
    if i == |news| || IsHeading(news, i) then i else FirstHeadingFrom(news, i + 1)
  }

  function VersionFromNews(news: seq<string>): Option<Version> {
    var k := FirstHeading(news);
    if k < |news| then HeadingVersion(news[k]) else None
  }

  const NEWS_HEADER: seq<string> := [
    "Development", "-----------", "",
    "### NOTICES", "- None yet", "",
    "### Features", "- None yet", "",
    "### Bug fixes / enhancements", "- None yet", ""]

  function Dashes(n: nat): string {
    seq(n, i => '-')
  }

  function TagHeader(v: Version, date: string): seq<string> {
    var h := ToS(v) + " (" + date + ")";
    [h, Dashes(|h|), ""]
  }

  function Without(lines: seq<string>, line: string): seq<string> {
    if lines == [] then [] else (if lines[0] == line then [] else [lines[0]]) + Without(lines[1..], line)
  }

  /** `split` drops empty lines at the end. */
  function DropTrailingEmpty(lines: seq<string>): seq<string> {
    if lines != [] && lines[|lines|-1] == [] then DropTrailingEmpty(lines[..|lines|-1]) else lines
  }

  function DevelopmentLines(news: seq<string>): seq<string> {
    Without(Without(DropTrailingEmpty(news[..FirstHeading(news)]), "Development"), "-----------")
  }

  predicate Marker(line: string) {
    line == "Development" || line == "-----------"
  }

  function NotMarkers(lines: seq<string>): seq<string> {
    if lines == [] then [] else (if Marker(lines[0]) then [] else [lines[0]]) + NotMarkers(lines[1..])
  }

  lemma {:induction false} WithoutBoth(lines: seq<string>)
    ensures Without(Without(lines, "Development"), "-----------") == NotMarkers(lines)
  {
    if lines != [] {
      WithoutBoth(lines[1..]);
      var rest := Without(lines[1..], "Development");
      if lines[0] == "Development" {
        assert Without(lines, "Development") == rest;
      } else {
        assert Without(lines, "Development") == [lines[0]] + rest;
        SkipLine(rest, lines[0], "-----------");
      }
    }
  }

  lemma {:induction false} DropsTrailingEmpty(lines: seq<string>) returns (m: nat)
    ensures m <= |lines| && DropTrailingEmpty(lines) == lines[..m]
    ensures (forall i :: m <= i < |lines| ==> lines[i] == "") && (m > 0 ==> lines[m-1] != "")
  {
    m := |lines|;
    if lines != [] && lines[|lines|-1] == [] {
      m := DropsTrailingEmpty(lines[..|lines|-1]);
      assert lines[..|lines|-1][..m] == lines[..m];
    } else {
      assert lines[..m] == lines;
    }
  }

  /** The development notes are the lines before the first heading, in order, but for the empty ones
      at the end, the title and its underline. */
  lemma DevelopmentLinesAre(news: seq<string>, k: nat) returns (m: nat)
    requires k <= |news| && (k < |news| ==> IsHeading(news, k)) && forall i :: 0 <= i < k ==> !IsHeading(news, i)
    ensures m <= k && (forall i :: m <= i < k ==> news[i] == "") && (m > 0 ==> news[m-1] != "")
    ensures DevelopmentLines(news) == NotMarkers(news[..m])
  {
    FirstIsFirst(news, k);
    m := DropsTrailingEmpty(news[..k]);
    assert news[..k][..m] == news[..m];
    assert forall i :: 0 <= i < k ==> news[..k][i] == news[i];
    WithoutBoth(news[..m]);
  }

  lemma FirstIsFirst(news: seq<string>, k: nat)
    requires k <= |news| && (k < |news| ==> IsHeading(news, k)) && forall i :: 0 <= i < k ==> !IsHeading(news, i)
    ensures FirstHeading(news) == k
  {
  }

  /** The first version heading and everything after it; one empty line when there is none. */
  function History(news: seq<string>): seq<string> {
    var k := FirstHeading(news);
    if k < |news| then news[k..] else [""]
  }

  datatype Section = Section(name: string, lines: seq<string>)

  predicate IsSpace(c: char) {
    c == ' ' || c == '\t' || c == '\r' || c == '\U{0b}' || c == '\U{0c}'
  }

  predicate Blank(line: string) {
    forall i :: 0 <= i < |line| ==> IsSpace(line[i])
  }

  function Indent(line: string): (k: nat)
    ensures k <= |line|
  {
    if line != [] && IsSpace(line[0]) then 1 + Indent(line[1..]) else 0
  }

  /** An initial `-` becomes `*`. */
  function Bullet(line: string): string {
    var k := Indent(line);
    if k < |line| && line[k] == '-' then line[k := '*'] else line
  }

  lemma {:induction false} IndentIs(line: string)
    ensures var k := Indent(line);
      (forall i :: 0 <= i < k ==> IsSpace(line[i])) && (k < |line| ==> !IsSpace(line[k]))
  {
    if line != [] && IsSpace(line[0]) {
      IndentIs(line[1..]);
      var k := Indent(line[1..]);
      assert forall i :: 0 < i < k + 1 ==> line[i] == line[1..][i-1];
      assert k < |line[1..]| ==> line[1..][k] == line[k+1];
    }
  }

  /** A note keeps its text: only a dash that is its first character after the indent becomes a star. */
  lemma BulletKeepsText(line: string, k: nat)
    requires k <= |line| && (forall i :: 0 <= i < k ==> IsSpace(line[i])) && (k < |line| ==> !IsSpace(line[k]))
    ensures |Bullet(line)| == |line|
    ensures forall i :: 0 <= i < |line| ==> Bullet(line)[i] == if i == k && line[i] == '-' then '*' else line[i]
  {
    IndentIs(line);
  }

  /** `line[4..-1]`: nil for a bare `###`. */
  function Title(line: string): Option<string> {
    if |line| < 4 then None else Some(line[4..])
  }

  function Current(name: Option<string>, lines: seq<string>): seq<Section> {
    if name.Some? then [Section(name.value, lines)] else []
  }

  function SectionsFrom(lines: seq<string>, name: Option<string>, collected: seq<string>): seq<Section>
    decreases |lines|
  {
    if lines == [] then Current(name, collected)
    else if "###" <= lines[0] then Current(name, collected) + SectionsFrom(lines[1..], Title(lines[0]), [])
    else if lines[0] != "- None yet" then SectionsFrom(lines[1..], name, collected + [Bullet(lines[0])])
    else SectionsFrom(lines[1..], name, collected)
  }

  /** `news_sections` as the source loops. */
  method NewsSections(lines: seq<string>) returns (sections: seq<Section>)
    ensures sections == SectionsFrom(lines, None, [])
  {
    sections := [];
    var collected: seq<string> := [];
    var name: Option<string> := None;
    for i := 0 to |lines|
      invariant SectionsFrom(lines, None, []) == sections + SectionsFrom(lines[i..], name, collected)
    {
      assert lines[i..][0] == lines[i] && lines[i..][1..] == lines[i+1..];
      if "###" <= lines[i] {
        if name.Some? {
          sections := sections + [Section(name.value, collected)];
        }
        collected := [];
        name := Title(lines[i]);
      } else if lines[i] != "- None yet" {
        collected := collected + [Bullet(lines[i])];
      }
    }
    if name.Some? {
      sections := sections + [Section(name.value, collected)];
    }
  }

  /** A bare `###` opens no section: what follows up to the next heading is dropped. */
  lemma {:induction false} UntitledIsDropped(lines: seq<string>, rest: seq<string>, collected: seq<string>)
    requires (forall l :: l in lines ==> !("###" <= l)) && (rest == [] || "###" <= rest[0])
    ensures SectionsFrom(lines + rest, None, collected) == SectionsFrom(rest, None, [])
    decreases |lines|
  {
    if lines == [] {
      assert lines + rest == rest;
    } else {
      assert (lines + rest)[1..] == lines[1..] + rest;
      assert lines[0] in lines && forall l :: l in lines[1..] ==> l in lines;
      UntitledIsDropped(lines[1..], rest, if lines[0] != "- None yet" then collected + [Bullet(lines[0])] else collected);
    }
  }

  lemma BareHeading(lines: seq<string>, rest: seq<string>, name: Option<string>, collected: seq<string>)
    requires (forall l :: l in lines ==> !("###" <= l)) && (rest == [] || "###" <= rest[0])
    ensures SectionsFrom(["###"] + lines + rest, name, collected) == Current(name, collected) + SectionsFrom(rest, None, [])
  {
    assert ["###"] + lines + rest == ["###"] + (lines + rest);
    assert (["###"] + (lines + rest))[1..] == lines + rest;
    UntitledIsDropped(lines, rest, []);
  }

  predicate Worthwhile(s: Section) {
    exists l :: l in s.lines && !Blank(l)
  }

  /** A section counts when some line of it has a character that is no whitespace. */
  lemma WorthwhileIff(s: Section)
    ensures Worthwhile(s) <==> exists l, i :: l in s.lines && 0 <= i < |l| && l[i] !in " \t\r\U{0b}\U{0c}"
  {
    var blanks := " \t\r\U{0b}\U{0c}";
    assert blanks[0] == ' ' && blanks[1] == '\t' && blanks[2] == '\r' && blanks[3] == '\U{0b}' && blanks[4] == '\U{0c}';
    assert forall c: char :: c in blanks <==> IsSpace(c);
    if Worthwhile(s) {
      var l :| l in s.lines && !Blank(l);
      var i :| 0 <= i < |l| && !IsSpace(l[i]);
    }
  }

  /** The sections that have something in them, written out. */
  function WrittenOut(sections: seq<Section>): seq<string> {
    if sections == [] then []
    else (if Worthwhile(sections[0]) then ["### " + sections[0].name] + sections[0].lines else []) + WrittenOut(sections[1..])
  }

  function CleanDevelopment(news: seq<string>): seq<string> {
    WrittenOut(SectionsFrom(DevelopmentLines(news), None, [])) + [""] + History(news)
  }

  function UpdatedNews(news: seq<string>, next: Version, date: string): seq<string> {
    NEWS_HEADER + TagHeader(next, date) + CleanDevelopment(news)
  }

  // ----- what a release does to the changelog

  lemma HeaderHasNoHeading(news: seq<string>)
    requires NEWS_HEADER <= news
    ensures forall i :: 0 <= i < |NEWS_HEADER| ==> !IsHeading(news, i)
  {
    forall i | 0 <= i < |NEWS_HEADER| ensures HeadingVersion(NEWS_HEADER[i]).None? {
      var l := NEWS_HEADER[i];
      assert l == [] || !IsDigit(l[0]);
      assert Digits(l) == 0;
    }
    assert forall i :: 0 <= i < |NEWS_HEADER| ==> news[i] == NEWS_HEADER[i];
  }

  lemma TagHeadingRead(v: Version, date: string)
    requires IsDate(date)
    ensures HeadingVersion(TagHeader(v, date)[0]) == Some(v)
  {
    var rest := " (" + date + ")";
    DateInParentheses(date, " (", ")");
    TripleRead(v, rest);
    Regroup(ToS(v), " (", date, ")");
  }

  lemma DateInParentheses(date: string, before: string, after: string)
    requires |date| == 10 && |before| == 2 && |after| == 1 && !IsDigit(before[0])
    ensures var s := before + date + after;
      |s| == 13 && s[..2] == before && s[2..12] == date && s[12] == after[0] && !IsDigit(s[0])
  {
  }

  lemma Regroup(a: string, b: string, c: string, d: string)
    ensures a + b + c + d == a + (b + c + d)
  {
  }

  /** Where the new release begins in the updated text. */
  lemma NewReleaseIsFirst(news: seq<string>, v: Version, date: string)
    requires IsDate(date)
    ensures FirstHeading(UpdatedNews(news, v, date)) == |NEWS_HEADER|
  {
    HeadingAfterHeader(v, date, CleanDevelopment(news));
  }

  lemma AfterHeader(a: seq<string>, b: seq<string>)
    requires |a| == 3
    ensures var u := NEWS_HEADER + a + b;
      && NEWS_HEADER <= u && |NEWS_HEADER| + 1 < |u|
      && u[|NEWS_HEADER|] == a[0] && u[|NEWS_HEADER| + 1] == a[1]
  {
  }

  lemma HeadingAfterHeader(v: Version, date: string, notes: seq<string>)
    requires IsDate(date)
    ensures FirstHeading(NEWS_HEADER + TagHeader(v, date) + notes) == |NEWS_HEADER|
  {
    var h, u := TagHeader(v, date), NEWS_HEADER + TagHeader(v, date) + notes;
    AfterHeader(h, notes);
    HeaderHasNoHeading(u);
    TagHeadingRead(v, date);
    assert h[1][0] == '-';
    assert IsHeading(u, |NEWS_HEADER|);
  }

  /** The version read back from the updated changelog is the one released, whatever was in it. */
  lemma NewsRoundTrip(news: seq<string>, v: Version, date: string)
    requires IsDate(date)
    ensures VersionFromNews(UpdatedNews(news, v, date)) == Some(v)
  {
    NewReleaseIsFirst(news, v, date);
    TagHeadingRead(v, date);
  }

  lemma HistoryOfUpdated(news: seq<string>, v: Version, date: string)
    requires IsDate(date)
    ensures History(UpdatedNews(news, v, date)) == TagHeader(v, date) + CleanDevelopment(news)
    ensures Ends(UpdatedNews(news, v, date), History(news))
  {
    NewReleaseIsFirst(news, v, date);
    Cut(NEWS_HEADER, TagHeader(v, date), CleanDevelopment(news));
    EndsAppend(NEWS_HEADER + TagHeader(v, date), WrittenOut(SectionsFrom(DevelopmentLines(news), None, [])) + [""], History(news));
  }

  predicate Ends(lines: seq<string>, end: seq<string>) {
    |end| <= |lines| && lines[|lines|-|end|..] == end
  }

  lemma Cut(a: seq<string>, b: seq<string>, c: seq<string>)
    ensures |b| > 0 ==> |a| < |a + b + c|
    ensures (a + b + c)[|a|..] == b + c
  {
  }

  lemma EndsAppend(a: seq<string>, b: seq<string>, end: seq<string>)
    ensures Ends(a + (b + end), end)
  {
  }

  /** The first version heading is at `k`. */
  ghost predicate IsFirst(news: seq<string>, k: nat) {
    IsHeading(news, k) && forall i: nat :: i < k ==> !IsHeading(news, i)
  }

  /** Everything from the first heading on stands verbatim at the end of the updated text. */
  lemma OldReleasesStand(news: seq<string>, v: Version, date: string, k: nat)
    requires IsDate(date) && IsFirst(news, k)
    ensures Ends(UpdatedNews(news, v, date), news[k..])
  {
    FirstIsFirst(news, k);
    HistoryOfUpdated(news, v, date);
  }

  /** Whatever has been written since: the old releases stand verbatim at the end of the updated
      text, and once the next release has been made so does this one, heading and notes. */
  lemma HistoryIsKept(news: seq<string>, v: Version, date: string, w: Version, later: string)
    requires IsDate(date) && IsDate(later)
    ensures forall k: nat :: IsFirst(news, k) ==> k < |news| && Ends(UpdatedNews(news, v, date), news[k..])
    ensures var u := UpdatedNews(news, v, date);
      |NEWS_HEADER| <= |u| && Ends(UpdatedNews(u, w, later), u[|NEWS_HEADER|..])
  {
    forall k: nat | IsFirst(news, k) ensures k < |news| && Ends(UpdatedNews(news, v, date), news[k..]) {
      OldReleasesStand(news, v, date, k);
    }
    ThisReleaseStands(news, v, date, w, later);
  }

  /** And the next release keeps this one, heading and notes. */
  lemma ThisReleaseStands(news: seq<string>, v: Version, date: string, w: Version, later: string)
    requires IsDate(date) && IsDate(later)
    ensures var u := UpdatedNews(news, v, date);
      |NEWS_HEADER| <= |u| && Ends(UpdatedNews(u, w, later), u[|NEWS_HEADER|..])
  {
    var u := UpdatedNews(news, v, date);
    NewReleaseIsFirst(news, v, date);
    NewHeadingIsHeading(u);
    OldReleasesStand(u, w, later, |NEWS_HEADER|);
  }

  lemma NewHeadingIsHeading(u: seq<string>)
    requires FirstHeading(u) == |NEWS_HEADER| && |NEWS_HEADER| < |u|
    ensures IsFirst(u, |NEWS_HEADER|)
  {
  }

  /** The updated text begins with the bare development section and the heading of the release: its
      version and date, underlined. */
  lemma ReleaseBegins(news: seq<string>, v: Version, date: string)
    ensures var u, n := UpdatedNews(news, v, date), |NEWS_HEADER|;
      && n + 3 <= |u| && u[..n] == NEWS_HEADER
      && u[n] == ToS(v) + " (" + date + ")"
      && (var dashes := u[n+1]; |dashes| == |u[n]| && forall i :: 0 <= i < |dashes| ==> dashes[i] == '-')
      && u[n+2] == ""
  {
    HeaderThenTag(TagHeader(v, date), CleanDevelopment(news));
  }

  lemma HeaderThenTag(a: seq<string>, b: seq<string>)
    requires |a| == 3
    ensures var u, n := NEWS_HEADER + a + b, |NEWS_HEADER|;
      n + 3 <= |u| && u[..n] == NEWS_HEADER && u[n] == a[0] && u[n+1] == a[1] && u[n+2] == a[2]
  {
  }

  // ----- no note is lost

  ghost predicate ProperHeadings(lines: seq<string>) {
    forall l :: l in lines && "###" <= l ==> "### " <= l
  }

  /** What is to be kept of the lines: headings, and bullets other than the placeholder. */
  function Kept(lines: seq<string>): seq<string> {
    if lines == [] then []
    else (if "###" <= lines[0] then [lines[0]] else if lines[0] != "- None yet" then [Bullet(lines[0])] else []) + Kept(lines[1..])
  }

  /** The lines from the first heading on. */
  function FromFirstSection(lines: seq<string>): seq<string> {
    if lines == [] || "###" <= lines[0] then lines else FromFirstSection(lines[1..])
  }

  function Joined(sections: seq<Section>): seq<string> {
    if sections == [] then [] else ["### " + sections[0].name] + sections[0].lines + Joined(sections[1..])
  }

  lemma JoinedOne(s: Section, rest: seq<Section>)
    ensures Joined([s] + rest) == ["### " + s.name] + s.lines + Joined(rest)
  {
    assert ([s] + rest)[1..] == rest;
  }

  lemma {:induction false} SectionKeepsLines(lines: seq<string>, name: string, collected: seq<string>)
    requires ProperHeadings(lines)
    ensures Joined(SectionsFrom(lines, Some(name), collected)) == ["### " + name] + collected + Kept(lines)
    decreases |lines|
  {
    if lines == [] {
      assert Current(Some(name), collected)[1..] == [];
    } else {
      assert ProperHeadings(lines[1..]) by {
        assert forall l :: l in lines[1..] ==> l in lines;
      }
      if "###" <= lines[0] {
        assert lines[0] in lines;
        assert lines[0] == "### " + lines[0][4..];
        SectionKeepsLines(lines[1..], lines[0][4..], []);
        JoinedOne(Section(name, collected), SectionsFrom(lines[1..], Some(lines[0][4..]), []));
        assert Kept(lines) == [lines[0]] + Kept(lines[1..]);
      } else if lines[0] != "- None yet" {
        SectionKeepsLines(lines[1..], name, collected + [Bullet(lines[0])]);
      } else {
        SectionKeepsLines(lines[1..], name, collected);
      }
    }
  }

  /** The sections hold every line from the first heading on, in order, except the placeholder, with
      nothing but the bullets changed. */
  lemma {:induction false} SectionsKeepLines(lines: seq<string>, collected: seq<string>)
    requires ProperHeadings(lines)
    ensures Joined(SectionsFrom(lines, None, collected)) == Kept(FromFirstSection(lines))
    decreases |lines|
  {
    if lines != [] {
      assert ProperHeadings(lines[1..]) by {
        assert forall l :: l in lines[1..] ==> l in lines;
      }
      if "###" <= lines[0] {
        assert lines[0] in lines;
        assert lines[0] == "### " + lines[0][4..];
        SectionKeepsLines(lines[1..], lines[0][4..], []);
        assert SectionsFrom(lines, None, collected) == SectionsFrom(lines[1..], Some(lines[0][4..]), []);
        assert FromFirstSection(lines) == lines;
      } else if lines[0] != "- None yet" {
        SectionsKeepLines(lines[1..], collected + [Bullet(lines[0])]);
      } else {
        SectionsKeepLines(lines[1..], collected);
      }
    }
  }

  function Worth(sections: seq<Section>): seq<Section> {
    if sections == [] then [] else (if Worthwhile(sections[0]) then [sections[0]] else []) + Worth(sections[1..])
  }

  /** What is written out is every section with a line that is not blank, whole and in order. */
  lemma {:induction false} WrittenOutIsWorth(sections: seq<Section>)
    ensures WrittenOut(sections) == Joined(Worth(sections))
    ensures forall s :: s in Worth(sections) <==> s in sections && Worthwhile(s)
  {
    if sections != [] {
      WrittenOutIsWorth(sections[1..]);
      if Worthwhile(sections[0]) {
        var worth := Worth(sections[1..]);
        JoinedOne(sections[0], worth);
      } else {
        assert Worth(sections) == Worth(sections[1..]);
        assert WrittenOut(sections) == WrittenOut(sections[1..]);
      }
    }
  }

  /** The sections hold the development notes, and the released notes are exactly the sections that
      have something in them; when all do, the released notes are all the notes. */
  lemma NotesSurvive(news: seq<string>)
    requires ProperHeadings(DevelopmentLines(news))
    ensures var notes, sections := Kept(FromFirstSection(DevelopmentLines(news))), SectionsFrom(DevelopmentLines(news), None, []);
      && Joined(sections) == notes
      && CleanDevelopment(news) == Joined(Worth(sections)) + [""] + History(news)
      && ((forall s :: s in sections ==> Worthwhile(s)) ==> CleanDevelopment(news) == notes + [""] + History(news))
  {
    var sections := SectionsFrom(DevelopmentLines(news), None, []);
    SectionsKeepLines(DevelopmentLines(news), []);
    WrittenOutIsWorth(sections);
    if forall s :: s in sections ==> Worthwhile(s) {
      AllWorth(sections);
    }
  }

  lemma {:induction false} AllWorth(sections: seq<Section>)
    requires forall s :: s in sections ==> Worthwhile(s)
    ensures WrittenOut(sections) == Joined(sections)
  {
    if sections != [] {
      AllWorth(sections[1..]);
    }
  }

  // ----- no note is released twice

  lemma SkipLine(lines: seq<string>, line: string, out: string)
    ensures Without([line] + lines, out) == (if line == out then [] else [line]) + Without(lines, out)
  {
    assert ([line] + lines)[1..] == lines;
  }

  const PLACEHOLDERS: seq<string> := [
    "", "### NOTICES", "- None yet", "", "### Features", "- None yet", "", "### Bug fixes / enhancements", "- None yet"]

  lemma {:induction false} WithoutAbsent(lines: seq<string>, out: string)
    requires out !in lines
    ensures Without(lines, out) == lines
  {
    if lines != [] {
      WithoutAbsent(lines[1..], out);
    }
  }

  lemma DropOne(lines: seq<string>)
    requires lines != [] && lines[|lines|-1] != ""
    ensures DropTrailingEmpty(lines + [""]) == lines
  {
    assert (lines + [""])[..|lines|] == lines;
    assert DropTrailingEmpty(lines + [""]) == DropTrailingEmpty(lines);
  }

  lemma WithoutFirst(a: string, rest: seq<string>)
    requires a !in rest
    ensures Without([a] + rest, a) == rest
  {
    SkipLine(rest, a, a);
    WithoutAbsent(rest, a);
  }

  lemma PlaceholdersArePlain()
    ensures "Development" !in PLACEHOLDERS && "-----------" !in PLACEHOLDERS && "Development" != "-----------"
  {
    var d, dashes := "Development", "-----------";
    assert |d| == 11 && d[0] == 'D' && |dashes| == 11 && dashes[0] == '-';
    forall i | 0 <= i < |PLACEHOLDERS| ensures PLACEHOLDERS[i] != d && PLACEHOLDERS[i] != dashes {
      var l := PLACEHOLDERS[i];
      assert |l| == 0 || l[0] == '#' || |l| == 10;
    }
  }

  /** All a fresh development section holds are the placeholders. */
  lemma FreshDevelopment(news: seq<string>)
    requires FirstHeading(news) == |NEWS_HEADER| && NEWS_HEADER <= news
    ensures DevelopmentLines(news) == PLACEHOLDERS
  {
    var d, dashes := "Development", "-----------";
    assert news[..|NEWS_HEADER|] == NEWS_HEADER;
    assert NEWS_HEADER == [d] + ([dashes] + PLACEHOLDERS) + [""];
    PlaceholdersArePlain();
    LastPlaceholder([d] + [dashes]);
    assert [d] + [dashes] + PLACEHOLDERS == [d] + ([dashes] + PLACEHOLDERS);
    DropOne([d] + ([dashes] + PLACEHOLDERS));
    WithoutFirst(d, [dashes] + PLACEHOLDERS);
    WithoutFirst(dashes, PLACEHOLDERS);
  }

  lemma LastPlaceholder(start: seq<string>)
    ensures var all := start + PLACEHOLDERS; all != [] && all[|all|-1] != ""
  {
    var all := start + PLACEHOLDERS;
    assert all[|all|-1] == "- None yet";
    assert |"- None yet"| == 10;
  }

  /** Lines before a heading that are empty or the placeholder leave nothing to write out. */
  lemma {:induction false} NothingToWrite(lines: seq<string>, name: Option<string>, collected: seq<string>)
    requires forall l :: l in collected ==> Blank(l)
    requires forall l :: l in lines ==> l == "" || l == "- None yet" || "###" <= l
    ensures WrittenOut(SectionsFrom(lines, name, collected)) == []
    decreases |lines|
  {
    if lines != [] {
      var line, rest := lines[0], lines[1..];
      assert lines[0] in lines && forall l :: l in rest ==> l in lines;
      if "###" <= line {
        NothingToWrite(rest, Title(line), []);
        assert Current(name, collected) == [] || Current(name, collected)[1..] == [];
        assert Current(name, collected) == [] ==> Current(name, collected) + SectionsFrom(rest, Title(line), []) == SectionsFrom(rest, Title(line), []);
        assert name.Some? ==> (Current(name, collected) + SectionsFrom(rest, Title(line), []))[1..] == SectionsFrom(rest, Title(line), []);
      } else if line != "- None yet" {
        assert line == "" && Bullet(line) == "";
        NothingToWrite(rest, name, collected + [Bullet(line)]);
      } else {
        NothingToWrite(rest, name, collected);
      }
    } else {
      assert name.Some? ==> Current(name, collected)[1..] == [];
    }
  }

  lemma NothingInPlaceholders()
    ensures WrittenOut(SectionsFrom(PLACEHOLDERS, None, [])) == []
  {
    forall l | l in PLACEHOLDERS ensures l == "" || l == "- None yet" || "###" <= l {
      PlaceholderShapes(l);
    }
    NothingToWrite(PLACEHOLDERS, None, []);
  }

  lemma PlaceholderShapes(l: string)
    requires l in PLACEHOLDERS
    ensures l == "" || l == "- None yet" || "###" <= l
  {
  }

  lemma HeaderFirst(a: seq<string>, b: seq<string>)
    ensures NEWS_HEADER <= NEWS_HEADER + a + b
  {
  }

  lemma OnlyHistory(notes: seq<string>, history: seq<string>)
    requires notes == []
    ensures notes + [""] + history == [""] + history
  {
  }

  lemma NothingNew(news: seq<string>)
    requires FirstHeading(news) == |NEWS_HEADER| && NEWS_HEADER <= news
    ensures CleanDevelopment(news) == [""] + History(news)
  {
    FreshDevelopment(news);
    NothingInPlaceholders();
    OnlyHistory(WrittenOut(SectionsFrom(DevelopmentLines(news), None, [])), History(news));
  }

  /** A release leaves nothing to be released: the next one, with no notes written in between, has
      no notes. */
  lemma NoNoteTwice(news: seq<string>, v: Version, date: string)
    requires IsDate(date)
    ensures var u := UpdatedNews(news, v, date);
      CleanDevelopment(u) == [""] + TagHeader(v, date) + CleanDevelopment(news)
  {
    var u := UpdatedNews(news, v, date);
    NewReleaseIsFirst(news, v, date);
    HistoryOfUpdated(news, v, date);
    HeaderFirst(TagHeader(v, date), CleanDevelopment(news));
    NothingNew(u);
    assert [""] + (TagHeader(v, date) + CleanDevelopment(news)) == [""] + TagHeader(v, date) + CleanDevelopment(news);
  }
}
