/** `Geocoding#translate_formatter`: a template such as `{field}, SPAIN` becomes the argument list of
    a SQL concatenation, columns and quoted literals separated by commas. */
module FormatterTranslation {

  predicate IsSpace(c: char) {
    c == ' ' || c == '\t' || c == '\n' || c == '\r'
  }

  function SkipSpaces(s: string): (r: string)
    ensures |r| <= |s|
  {
    if s != [] && IsSpace(s[0]) then SkipSpaces(s[1..]) else s
  }

  function Collapse(s: string): string
    decreases |s|
  {
    if s == [] then []
    else if IsSpace(s[0]) then [' '] + Collapse(SkipSpaces(s[1..]))
    else [s[0]] + Collapse(s[1..])
  }

  function TrimRight(s: string): string {
    if s != [] && IsSpace(s[|s|-1]) then TrimRight(s[..|s|-1]) else s
  }

  function Trim(s: string): string {
    TrimRight(SkipSpaces(s))
  }

  function Squish(s: string): string {
    Trim(Collapse(s))
  }

  /** `/^\{/`: some line starts with a brace. */
  predicate LineOpens(s: string) {
    exists i :: 0 <= i < |s| && s[i] == '{' && (i == 0 || s[i-1] == '\n')
  }

  /** `/\}$/`: some line ends with a brace. */
  predicate LineCloses(s: string) {
    exists i :: 0 <= i < |s| && s[i] == '}' && (i + 1 == |s| || s[i+1] == '\n')
  }

  function Gsub(s: string, c: char, by_: string): string {
    if s == [] then [] else (if s[0] == c then by_ else [s[0]]) + Gsub(s[1..], c, by_)
  }

  function Braces(s: string): string {
    Gsub(Gsub(s, '}', ", '"), '{', "', ")
  }

  /** The quotes that `translate_formatter` adds when the template does not begin or end in braces,
      read off the original text. */
  function WithQuotes(squished: string, formatter: string): string {
    var began := if LineOpens(formatter) then squished else "'" + squished;
    if LineCloses(formatter) then began else began + "'"
  }

  /** A brace at either end goes.  After `squish` there is one line, so `^` and `$` are its ends. */
  function StripBraces(s: string): string {
    var left := if s != [] && s[0] == '{' then s[1..] else s;
    if left != [] && left[|left|-1] == '}' then left[..|left|-1] else left
  }

  function TranslateFormatter(formatter: string): string {
    Braces(StripBraces(WithQuotes(Squish(formatter), formatter)))
  }

  // ----- what the output means

  datatype Item = Literal(text: string) | ColumnRef(name: string)

  /** The argument list split at commas outside quotes. */
  function Arguments(s: string, quoted: bool): (r: seq<string>)
    ensures r != []
  {
    if s == [] then [[]]
    else if s[0] == ',' && !quoted then [[]] + Arguments(s[1..], false)
    else
      Prepend(s[0], Arguments(s[1..], if s[0] == '\'' then !quoted else quoted))
  }

  function Prepend(c: char, arguments: seq<string>): (r: seq<string>)
    requires arguments != []
    ensures r != []
  {
    [[c] + arguments[0]] + arguments[1..]
  }

  function ReadItem(argument: string): Item {
    var t := Trim(argument);
    if |t| >= 2 && t[0] == '\'' && t[|t|-1] == '\'' then Literal(t[1..|t|-1]) else ColumnRef(t)
  }

  function ReadItems(arguments: seq<string>): seq<Item> {
    if arguments == [] then [] else [ReadItem(arguments[0])] + ReadItems(arguments[1..])
  }

  function Read(s: string): seq<Item> {
    ReadItems(Arguments(s, false))
  }

  /** The concatenation for one row, whose column values `row` gives. */
  function Text(items: seq<Item>, row: string -> string): string {
    if items == [] then []
    else (match items[0] case Literal(t) => t case ColumnRef(n) => row(n)) + Text(items[1..], row)
  }

  // ----- what squishing does

  /** The maximal runs of characters that are no whitespace. */
  function Words(s: string): (ws: seq<string>)
    ensures s != [] && !IsSpace(s[0]) ==> ws != []
  {
    if s == [] then []
    else if IsSpace(s[0]) then Words(s[1..])
    else if |s| > 1 && !IsSpace(s[1]) then Prepend(s[0], Words(s[1..]))
    else [[s[0]]] + Words(s[1..])
  }

  /** Words with one blank between them. */
  function Unwords(ws: seq<string>): string {
    if ws == [] then "" else if |ws| == 1 then ws[0] else ws[0] + " " + Unwords(ws[1..])
  }

  lemma {:induction false} WordsSkipSpaces(s: string)
    ensures Words(SkipSpaces(s)) == Words(s)
    ensures SkipSpaces(s) != [] ==> !IsSpace(SkipSpaces(s)[0])
  {
    if s != [] && IsSpace(s[0]) {
      WordsSkipSpaces(s[1..]);
    }
  }

  lemma UnwordsPrepend(c: char, ws: seq<string>)
    requires ws != []
    ensures Unwords(Prepend(c, ws)) == [c] + Unwords(ws)
  {
    var p := Prepend(c, ws);
    assert p[1..] == ws[1..] && p[0] == [c] + ws[0];
  }

  lemma UnwordsCons(c: char, ws: seq<string>)
    ensures Unwords([[c]] + ws) == if ws == [] then [c] else [c] + (" " + Unwords(ws))
  {
    assert ([[c]] + ws)[1..] == ws;
  }

  lemma {:induction false} TrimRightCons(c: char, s: string)
    ensures TrimRight([c] + s) == if TrimRight(s) == [] && IsSpace(c) then [] else [c] + TrimRight(s)
  {
    if s == [] {
      assert [c] + s == [c] && [c][..0] == [];
    } else if IsSpace(s[|s|-1]) {
      assert ([c] + s)[..|s|] == [c] + s[..|s|-1];
      TrimRightCons(c, s[..|s|-1]);
    }
  }

  lemma {:induction false} UnwordsIsEmptyIff(ws: seq<string>)
    requires forall w :: w in ws ==> w != ""
    ensures Unwords(ws) == "" <==> ws == []
  {
    if ws != [] {
      assert ws[0] in ws;
    }
  }

  lemma {:induction false} WordsAreNotEmpty(s: string)
    ensures forall w :: w in Words(s) ==> w != ""
  {
    if s != [] {
      var ws := Words(s[1..]);
      WordsAreNotEmpty(s[1..]);
      assert ws != [] ==> forall w :: w in ws[1..] ==> w in ws;
    }
  }

  /** What collapsing and trimming leave of a text that does not begin with whitespace. */
  lemma {:induction false} TrimmedIsUnwords(s: string)
    requires s != [] ==> !IsSpace(s[0])
    ensures TrimRight(Collapse(s)) == Unwords(Words(s))
    decreases |s|
  {
    if s != [] {
      var c, rest := s[0], s[1..];
      TrimRightCons(c, Collapse(rest));
      if rest != [] && !IsSpace(rest[0]) {
        TrimmedIsUnwords(rest);
        UnwordsPrepend(c, Words(rest));
      } else {
        UnwordsCons(c, Words(rest));
        if rest != [] {
          var u := SkipSpaces(rest[1..]);
          WordsSkipSpaces(rest[1..]);
          TrimmedIsUnwords(u);
          TrimRightCons(' ', Collapse(u));
          WordsAreNotEmpty(u);
          UnwordsIsEmptyIff(Words(u));
          assert [' '] + Unwords(Words(u)) == " " + Unwords(Words(u));
        }
      }
    }
  }

  /** Squishing keeps the words, in order, with one blank between them and nothing around. */
  lemma SquishIsUnwords(s: string)
    ensures Squish(s) == Unwords(Words(s))
  {
    var u := SkipSpaces(s);
    WordsSkipSpaces(s);
    TrimmedIsUnwords(u);
    SkipThenCollapse(s);
  }

  lemma SkipThenCollapse(s: string)
    ensures SkipSpaces(Collapse(s)) == Collapse(SkipSpaces(s))
  {
    if s != [] && IsSpace(s[0]) {
      var u := SkipSpaces(s[1..]);
      WordsSkipSpaces(s[1..]);
      assert Collapse(s)[1..] == Collapse(u);
      assert u != [] ==> Collapse(u)[0] == u[0];
    }
  }

  // ----- what the template means

  datatype Part = Part(field: string, after: string)

  /** A literal, then fields each followed by a literal, any of which may be empty. */
  datatype Template = Template(first: string, parts: seq<Part>)

  function RenderParts(ps: seq<Part>): string {
    if ps == [] then [] else "{" + ps[0].field + "}" + ps[0].after + RenderParts(ps[1..])
  }

  function Render(t: Template): string {
    t.first + RenderParts(t.parts)
  }

  function InterpolateParts(ps: seq<Part>, row: string -> string): string {
    if ps == [] then [] else row(ps[0].field) + ps[0].after + InterpolateParts(ps[1..], row)
  }

  function Interpolate(t: Template, row: string -> string): string {
    t.first + InterpolateParts(t.parts, row)
  }

  predicate Plain(s: string) {
    forall i :: 0 <= i < |s| ==> s[i] != '{' && s[i] != '}' && s[i] != '\''
  }

  ghost predicate PlainParts(ps: seq<Part>) {
    forall p :: p in ps ==> Plain(p.field) && Plain(p.after)
  }

  ghost predicate PlainTemplate(t: Template) {
    Plain(t.first) && PlainParts(t.parts)
  }

  /** One line, with whitespace already normalised. */
  predicate Normalised(s: string) {
    '\n' !in s && Squish(s) == s
  }

  /** Braces open and close in turn, and there are no quotes. */
  predicate Balanced(s: string, open: bool) {
    if s == [] then !open
    else if s[0] == '{' then !open && Balanced(s[1..], true)
    else if s[0] == '}' then open && Balanced(s[1..], false)
    else s[0] != '\'' && Balanced(s[1..], open)
  }

  lemma RenderField(field: string, t: Template)
    ensures Render(Template([], [Part(field, t.first)] + t.parts)) == "{" + field + "}" + Render(t)
  {
    assert ([Part(field, t.first)] + t.parts)[1..] == t.parts;
  }

  /** Every balanced string is a template. */
  lemma {:induction false} BalancedIsTemplate(s: string) returns (t: Template)
    requires Balanced(s, false)
    ensures PlainTemplate(t) && Render(t) == s
    decreases |s|
  {
    if s == [] {
      t := Template([], []);
    } else if s[0] == '{' {
      var field, rest := OpenField(s[1..]);
      var u := BalancedIsTemplate(rest);
      RenderField(field, u);
      t := Template([], [Part(field, u.first)] + u.parts);
      assert s == "{" + (field + "}" + rest);
    } else {
      var u := BalancedIsTemplate(s[1..]);
      t := Template([s[0]] + u.first, u.parts);
    }
  }

  lemma {:induction false} OpenField(s: string) returns (field: string, rest: string)
    requires Balanced(s, true)
    ensures Plain(field) && s == field + "}" + rest && Balanced(rest, false)
    decreases |s|
  {
    if s[0] == '}' {
      field, rest := [], s[1..];
    } else {
      field, rest := OpenField(s[1..]);
      field := [s[0]] + field;
    }
  }

  // ----- the output, uniformly quoted

  lemma {:induction false} GsubAppend(a: string, b: string, c: char, by_: string)
    ensures Gsub(a + b, c, by_) == Gsub(a, c, by_) + Gsub(b, c, by_)
  {
    if a == [] {
      assert a + b == b;
    } else {
      assert (a + b)[1..] == a[1..] + b;
      GsubAppend(a[1..], b, c, by_);
    }
  }

  lemma BracesAppend(a: string, b: string)
    ensures Braces(a + b) == Braces(a) + Braces(b)
  {
    GsubAppend(a, b, '}', ", '");
    GsubAppend(Gsub(a, '}', ", '"), Gsub(b, '}', ", '"), '{', "', ");
  }

  lemma {:induction false} GsubPlain(s: string, c: char, by_: string)
    requires c !in s
    ensures Gsub(s, c, by_) == s
  {
    if s != [] {
      assert s == [s[0]] + s[1..];
      GsubPlain(s[1..], c, by_);
    }
  }

  lemma BracesPlain(s: string)
    requires '{' !in s && '}' !in s
    ensures Braces(s) == s
  {
    GsubPlain(s, '}', ", '");
    GsubPlain(s, '{', "', ");
  }

  lemma BracesBraces()
    ensures Braces("{") == "', " && Braces("}") == ", '"
  {
    assert "{"[1..] == "" && "}"[1..] == "";
    assert Gsub("{", '}', ", '") == "{" + Gsub("", '}', ", '");
    assert Gsub("{", '{', "', ") == "', " + Gsub("", '{', "', ");
    assert Gsub("}", '}', ", '") == ", '" + Gsub("", '}', ", '");
    GsubPlain(", '", '{', "', ");
  }

  /** The whole template in quotes, every brace translated. */
  function Quoted(s: string): string {
    "'" + Braces(s) + "'"
  }

  predicate Opens(s: string) {
    s != [] && s[0] == '{'
  }

  predicate Closes(s: string) {
    s != [] && s[|s|-1] == '}'
  }

  function Before(opens: bool): string {
    if opens then "'', " else ""
  }

  function After(closes: bool): string {
    if closes then ", ''" else ""
  }

  /** `s` without the brace at either end that is to go. */
  function Inner(s: string, opens: bool, closes: bool): string
    requires (opens ==> Opens(s)) && (closes ==> Closes(s))
  {
    assert opens && closes ==> |s| > 1;
    s[(if opens then 1 else 0)..(if closes then |s| - 1 else |s|)]
  }

  lemma LineEnds(s: string)
    requires '\n' !in s
    ensures LineOpens(s) == Opens(s) && LineCloses(s) == Closes(s)
  {
    if Opens(s) {
      assert s[0] == '{';
    }
    if Closes(s) {
      assert s[|s|-1] == '}';
    }
  }

  /** A quote is no brace, so only the braces of `s` itself go. */
  lemma StripQuoted(s: string, opens: bool, closes: bool, q: string)
    requires |q| == 1 && q[0] != '{' && q[0] != '}' && (opens ==> Opens(s)) && (closes ==> Closes(s))
    ensures StripBraces((if opens then "" else q) + s + (if closes then "" else q))
         == (if opens then "" else q) + Inner(s, opens, closes) + (if closes then "" else q)
  {
    if opens && closes {
      StripBoth(s);
      assert "" + s + "" == s;
    } else if opens {
      StripLeft(s, q);
      assert "" + s + q == s + q;
    } else if closes {
      StripRight(s, q);
      assert q + s + "" == q + s;
    } else {
      StripNone(s, q);
    }
  }

  lemma StripBoth(s: string)
    requires Opens(s) && Closes(s)
    ensures StripBraces(s) == "" + Inner(s, true, true) + ""
  {
    var left := s[1..];
    assert left[|left|-1] == '}';
    assert left[..|left|-1] == s[1..|s|-1];
  }

  lemma StripLeft(s: string, q: string)
    requires |q| == 1 && q[0] != '{' && q[0] != '}' && Opens(s)
    ensures StripBraces(s + q) == "" + Inner(s, true, false) + q
  {
    var left := (s + q)[1..];
    assert left == s[1..] + q && left[|left|-1] == q[0];
    assert s[1..] == Inner(s, true, false);
  }

  lemma StripRight(s: string, q: string)
    requires |q| == 1 && q[0] != '{' && q[0] != '}' && Closes(s)
    ensures StripBraces(q + s) == q + Inner(s, false, true) + ""
  {
    var t := q + s;
    assert t[0] == q[0] && t[|t|-1] == '}';
    assert t[..|t|-1] == q + s[..|s|-1];
    assert s[..|s|-1] == Inner(s, false, true);
  }

  lemma StripNone(s: string, q: string)
    requires |q| == 1 && q[0] != '{' && q[0] != '}'
    ensures StripBraces(q + s + q) == q + Inner(s, false, false) + q
  {
    var t := q + s + q;
    assert t[0] == q[0] && t[|t|-1] == q[0];
    assert s == Inner(s, false, false);
  }

  /** Squishing keeps what is at the ends when it is no whitespace. */
  lemma SquishKeepsEnds(s: string)
    ensures Opens(s) ==> Opens(Squish(s))
    ensures Closes(s) ==> Closes(Squish(s))
  {
    if Opens(s) {
      TrimRightKeepsFirst(Collapse(s));
    }
    if Closes(s) {
      CollapseKeepsLast(s);
      SkipSpacesKeepsLast(Collapse(s));
    }
  }

  lemma {:induction false} TrimRightKeepsFirst(s: string)
    requires s != [] && !IsSpace(s[0])
    ensures TrimRight(s) != [] && TrimRight(s)[0] == s[0]
  {
    if IsSpace(s[|s|-1]) {
      TrimRightKeepsFirst(s[..|s|-1]);
    }
  }

  lemma {:induction false} SkipSpacesKeepsLast(s: string)
    requires s != [] && !IsSpace(s[|s|-1])
    ensures SkipSpaces(s) != [] && SkipSpaces(s)[|SkipSpaces(s)|-1] == s[|s|-1]
  {
    if IsSpace(s[0]) {
      SkipSpacesKeepsLast(s[1..]);
    }
  }

  lemma {:induction false} CollapseKeepsLast(s: string)
    requires s != [] && !IsSpace(s[|s|-1])
    ensures Collapse(s) != [] && Collapse(s)[|Collapse(s)|-1] == s[|s|-1]
    decreases |s|
  {
    if IsSpace(s[0]) {
      SkipSpacesKeepsLast(s[1..]);
      CollapseKeepsLast(SkipSpaces(s[1..]));
    } else if |s| > 1 {
      CollapseKeepsLast(s[1..]);
    } else {
      assert Collapse(s) == s;
    }
  }

  lemma TranslationOfInner(s: string)
    requires '\n' !in s
    ensures (Opens(s) ==> Opens(Squish(s))) && (Closes(s) ==> Closes(Squish(s)))
    ensures TranslateFormatter(s) ==
      (if Opens(s) then "" else "'") + Braces(Inner(Squish(s), Opens(s), Closes(s))) + (if Closes(s) then "" else "'")
  {
    var a, b := if Opens(s) then "" else "'", if Closes(s) then "" else "'";
    SquishKeepsEnds(s);
    LineEnds(s);
    assert WithQuotes(Squish(s), s) == a + Squish(s) + b;
    StripQuoted(Squish(s), Opens(s), Closes(s), "'");
    BracesPlain(a);
    BracesPlain(b);
    BracesOfThree(a, Inner(Squish(s), Opens(s), Closes(s)), b);
  }

  lemma Ends(s: string, opens: bool, closes: bool)
    requires (opens ==> Opens(s)) && (closes ==> Closes(s))
    ensures s == (if opens then "{" else "") + Inner(s, opens, closes) + (if closes then "}" else "")
  {
  }

  lemma BracesOfThree(a: string, m: string, b: string)
    ensures Braces(a + m + b) == Braces(a) + Braces(m) + Braces(b)
  {
    BracesAppend(a, m);
    BracesAppend(a + m, b);
  }

  lemma BracesOfInner(s: string, opens: bool, closes: bool)
    requires (opens ==> Opens(s)) && (closes ==> Closes(s))
    ensures Braces(s) == (if opens then "', " else "") + Braces(Inner(s, opens, closes)) + (if closes then ", '" else "")
  {
    BracesBraces();
    BracesPlain("");
    Ends(s, opens, closes);
    BracesOfThree(if opens then "{" else "", Inner(s, opens, closes), if closes then "}" else "");
  }

  lemma EmptyEnds(opens: bool, closes: bool, b: string)
    ensures "'" + ((if opens then "', " else "") + b + (if closes then ", '" else "")) + "'"
         == Before(opens) + ((if opens then "" else "'") + b + (if closes then "" else "'")) + After(closes)
  {
  }

  /** The output is the uniformly quoted template without an empty literal at either end where the
      text begins or ends in a brace. */
  lemma TranslationDropsEmptyEnds(s: string)
    requires '\n' !in s
    ensures Quoted(Squish(s)) == Before(Opens(s)) + TranslateFormatter(s) + After(Closes(s))
  {
    TranslationOfInner(s);
    BracesOfInner(Squish(s), Opens(s), Closes(s));
    EmptyEnds(Opens(s), Closes(s), Braces(Inner(Squish(s), Opens(s), Closes(s))));
  }

  // ----- reading the output back

  /** Whether a quote is open after `s`. */
  predicate InQuote(s: string, quoted: bool) {
    if s == [] then quoted else InQuote(s[1..], if s[0] == '\'' then !quoted else quoted)
  }

  lemma {:induction false} InQuoteAppend(a: string, b: string, quoted: bool)
    ensures InQuote(a + b, quoted) == InQuote(b, InQuote(a, quoted))
  {
    if a == [] {
      assert a + b == b;
    } else {
      assert (a + b)[1..] == a[1..] + b;
      InQuoteAppend(a[1..], b, if a[0] == '\'' then !quoted else quoted);
    }
  }

  lemma {:induction false} NoQuoteInQuote(s: string, quoted: bool)
    requires '\'' !in s
    ensures InQuote(s, quoted) == quoted
  {
    if s != [] {
      NoQuoteInQuote(s[1..], quoted);
    }
  }

  lemma PrependAppend(c: char, a: seq<string>, b: seq<string>)
    requires a != []
    ensures Prepend(c, a + b) == Prepend(c, a) + b
  {
    assert (a + b)[1..] == a[1..] + b;
  }

  lemma {:induction false} ArgumentsAppend(a: string, b: string, quoted: bool)
    requires !InQuote(a, quoted)
    ensures Arguments(a + "," + b, quoted) == Arguments(a, quoted) + Arguments(b, false)
  {
    if a == [] {
      assert a + "," + b == "," + b && ("," + b)[1..] == b;
    } else {
      var whole, rest := a + "," + b, a[1..] + "," + b;
      assert whole[1..] == rest && whole[0] == a[0];
      if a[0] == ',' && !quoted {
        ArgumentsAppend(a[1..], b, false);
      } else {
        var q := if a[0] == '\'' then !quoted else quoted;
        ArgumentsAppend(a[1..], b, q);
        PrependAppend(a[0], Arguments(a[1..], q), Arguments(b, false));
      }
    }
  }

  lemma {:induction false} ReadItemsAppend(a: seq<string>, b: seq<string>)
    ensures ReadItems(a + b) == ReadItems(a) + ReadItems(b)
  {
    if a == [] {
      assert a + b == b;
    } else {
      assert (a + b)[1..] == a[1..] + b;
      ReadItemsAppend(a[1..], b);
    }
  }

  lemma ReadSkipsSpace(s: string)
    ensures Read(" " + s) == Read(s)
  {
    assert (" " + s)[1..] == s;
    var r := Arguments(s, false);
    assert Arguments(" " + s, false) == Prepend(' ', r);
    assert ([' '] + r[0])[1..] == r[0];
    assert Trim([' '] + r[0]) == Trim(r[0]);
    assert Prepend(' ', r)[1..] == r[1..];
  }

  lemma ReadJoin(a: string, b: string)
    requires !InQuote(a, false)
    ensures Read(a + ", " + b) == Read(a) + Read(b)
  {
    assert a + ", " + b == a + "," + (" " + b);
    ArgumentsAppend(a, " " + b, false);
    ReadItemsAppend(Arguments(a, false), Arguments(" " + b, false));
    ReadSkipsSpace(b);
  }

  lemma PrependOne(c: char, x: string)
    ensures Prepend(c, [x]) == [[c] + x]
  {
    var one := [x];
    assert one[1..] == [];
  }

  lemma ReadItemsOne(x: string)
    ensures ReadItems([x]) == [ReadItem(x)]
  {
    var one := [x];
    assert one[1..] == [];
    assert ReadItems(one[1..]) == [];
  }

  lemma {:induction false} ArgumentsInQuote(s: string)
    requires '\'' !in s
    ensures Arguments(s + "'", true) == [s + "'"]
  {
    if s == [] {
      assert s + "'" == "'" && "'"[1..] == [];
      var quote := "'";
      assert quote[1..] == [] && quote[0] == '\'';
      assert Arguments(quote[1..], false) == [[]];
      PrependOne('\'', []);
      assert ['\''] + [] == quote;
      assert Arguments(quote, true) == [quote];
    } else {
      assert (s + "'")[1..] == s[1..] + "'";
      ArgumentsInQuote(s[1..]);
      PrependOne(s[0], s[1..] + "'");
      assert [s[0]] + (s[1..] + "'") == s + "'";
    }
  }

  lemma QuotedIsOneArgument(s: string)
    requires '\'' !in s
    ensures Arguments("'" + s + "'", false) == ["'" + s + "'"]
  {
    var q := "'" + s + "'";
    assert q[1..] == s + "'" && q[0] == '\'';
    ArgumentsInQuote(s);
    PrependOne('\'', s + "'");
    assert ['\''] + (s + "'") == q;
  }

  lemma QuotedIsClosed(s: string)
    requires '\'' !in s
    ensures !InQuote("'" + s + "'", false)
  {
    InQuoteAppend("'" + s, "'", false);
    InQuoteAppend("'", s, false);
    NoQuoteInQuote(s, true);
    assert "'"[1..] == "";
  }

  lemma ReadLiteral(s: string)
    requires '\'' !in s
    ensures Read("'" + s + "'") == [Literal(s)] && !InQuote("'" + s + "'", false)
  {
    var q := "'" + s + "'";
    QuotedIsOneArgument(s);
    QuotedIsClosed(s);
    assert Trim(q) == q && q[1..|q|-1] == s;
    ReadItemsOne(q);
  }

  /** What the reader makes of a field's name. */
  function Columns(field: string): seq<Item> {
    Read(field)
  }

  function PartsItems(ps: seq<Part>): seq<Item> {
    if ps == [] then [] else Columns(ps[0].field) + [Literal(ps[0].after)] + PartsItems(ps[1..])
  }

  function QuotedParts(ps: seq<Part>): string {
    if ps == [] then "" else ", " + ps[0].field + ", " + ("'" + ps[0].after + "'") + QuotedParts(ps[1..])
  }

  lemma QuotedPartsHead(x: string, ps: seq<Part>)
    requires ps != []
    ensures x + QuotedParts(ps) == (x + ", " + ps[0].field + ", " + ("'" + ps[0].after + "'")) + QuotedParts(ps[1..])
  {
    var f, q, r := ps[0].field, "'" + ps[0].after + "'", QuotedParts(ps[1..]);
    assert QuotedParts(ps) == ", " + f + ", " + q + r;
  }

  /** One more argument. */
  lemma ReadNext(x: string, y: string)
    requires !InQuote(x, false) && !InQuote(y, false)
    ensures Read(x + ", " + y) == Read(x) + Read(y) && !InQuote(x + ", " + y, false)
  {
    ReadJoin(x, y);
    InQuoteAppend(x + ", ", y, false);
    InQuoteAppend(x, ", ", false);
    NoQuoteInQuote(", ", false);
  }

  lemma ReadPart(x: string, p: Part)
    requires !InQuote(x, false) && Plain(p.field) && Plain(p.after)
    ensures var y := x + ", " + p.field + ", " + ("'" + p.after + "'");
      Read(y) == Read(x) + (Columns(p.field) + [Literal(p.after)]) && !InQuote(y, false)
  {
    NoQuoteInQuote(p.field, false);
    ReadNext(x, p.field);
    ReadLiteral(p.after);
    ReadNext(x + ", " + p.field, "'" + p.after + "'");
  }

  lemma ReadFirst(x: string, y: string, p: Part, rest: seq<Item>, read: seq<Item>)
    requires read == Read(y) + rest && Read(y) == Read(x) + (Columns(p.field) + [Literal(p.after)])
    ensures read == Read(x) + (Columns(p.field) + [Literal(p.after)] + rest)
  {
  }

  lemma {:induction false} ReadParts(x: string, ps: seq<Part>)
    requires !InQuote(x, false) && PlainParts(ps)
    ensures Read(x + QuotedParts(ps)) == Read(x) + PartsItems(ps) && !InQuote(x + QuotedParts(ps), false)
    decreases |ps|
  {
    if ps == [] {
      assert x + "" == x;
    } else {
      assert ps[0] in ps;
      var y := x + ", " + ps[0].field + ", " + ("'" + ps[0].after + "'");
      ReadPart(x, ps[0]);
      ReadParts(y, ps[1..]);
      QuotedPartsHead(x, ps);
      ReadFirst(x, y, ps[0], PartsItems(ps[1..]), Read(x + QuotedParts(ps)));
    }
  }

  lemma BracesOfPart(p: Part, rest: string)
    requires Plain(p.field) && Plain(p.after)
    ensures Braces("{" + p.field + "}" + p.after + rest) == "', " + p.field + ", '" + p.after + Braces(rest)
  {
    BracesAppend("{" + p.field + "}" + p.after, rest);
    BracesAppend("{" + p.field + "}", p.after);
    BracesAppend("{" + p.field, "}");
    BracesAppend("{", p.field);
    BracesBraces();
    BracesPlain(p.field);
    BracesPlain(p.after);
  }

  lemma ShiftQuotes(f: string, l: string, b: string, r: string)
    requires b + "'" == "'" + r
    ensures ("', " + f + ", '" + l + b) + "'" == "'" + (", " + f + ", " + ("'" + l + "'") + r)
  {
    assert ("', " + f + ", '" + l + b) + "'" == "', " + f + ", '" + l + (b + "'");
  }

  lemma {:induction false} QuotedPartsAre(ps: seq<Part>)
    requires PlainParts(ps)
    ensures Braces(RenderParts(ps)) + "'" == "'" + QuotedParts(ps)
  {
    if ps == [] {
      BracesPlain("");
    } else {
      assert ps[0] in ps;
      QuotedPartsAre(ps[1..]);
      BracesOfPart(ps[0], RenderParts(ps[1..]));
      ShiftQuotes(ps[0].field, ps[0].after, Braces(RenderParts(ps[1..])), QuotedParts(ps[1..]));
    }
  }

  lemma CloseFirst(first: string, b: string, r: string, quoted: string)
    requires b + "'" == "'" + r && quoted == "'" + (first + b) + "'"
    ensures quoted == "'" + first + "'" + r
  {
    assert quoted == "'" + first + (b + "'");
  }

  lemma QuotedIs(t: Template)
    requires PlainTemplate(t)
    ensures Quoted(Render(t)) == "'" + t.first + "'" + QuotedParts(t.parts)
  {
    BracesAppend(t.first, RenderParts(t.parts));
    BracesPlain(t.first);
    QuotedPartsAre(t.parts);
    CloseFirst(t.first, Braces(RenderParts(t.parts)), QuotedParts(t.parts), Quoted(Render(t)));
  }

  /** Reading the uniformly quoted template gives its literals and the columns of its fields. */
  lemma QuotedReads(t: Template)
    requires PlainTemplate(t)
    ensures Read(Quoted(Render(t))) == [Literal(t.first)] + PartsItems(t.parts) && !InQuote(Quoted(Render(t)), false)
  {
    QuotedIs(t);
    ReadLiteral(t.first);
    ReadParts("'" + t.first + "'", t.parts);
  }

  lemma {:induction false} TextAppend(a: seq<Item>, b: seq<Item>, row: string -> string)
    ensures Text(a + b, row) == Text(a, row) + Text(b, row)
  {
    if a == [] {
      assert a + b == b;
    } else {
      assert (a + b)[1..] == a[1..] + b;
      TextAppend(a[1..], b, row);
    }
  }

  lemma TextOfEmptyLiteral(items: seq<Item>, row: string -> string)
    ensures Text([Literal("")] + items, row) == Text(items, row)
    ensures Text(items + [Literal("")], row) == Text(items, row)
  {
    TextAppend([Literal("")], items, row);
    TextAppend(items, [Literal("")], row);
    assert Text([Literal("")], row) == "";
  }

  lemma ReadAfterEmpty(out: string, row: string -> string)
    ensures Text(Read("'', " + out), row) == Text(Read(out), row)
  {
    assert "'" + "" + "'" == "''" && "''" + ", " + out == "'', " + out;
    ReadLiteral("");
    ReadJoin("''", out);
    TextOfEmptyLiteral(Read(out), row);
  }

  lemma ReadBeforeEmpty(out: string, row: string -> string)
    requires !InQuote(out, false)
    ensures Text(Read(out + ", ''"), row) == Text(Read(out), row)
  {
    assert "'" + "" + "'" == "''" && out + ", " + "''" == out + ", ''";
    ReadLiteral("");
    ReadJoin(out, "''");
    TextOfEmptyLiteral(Read(out), row);
  }

  /** The two strings differ only by empty literals, so they read as the same text. */
  lemma EndsReadEmpty(out: string, opens: bool, closes: bool, row: string -> string)
    requires !InQuote(Before(opens) + out + After(closes), false)
    ensures Text(Read(out), row) == Text(Read(Before(opens) + out + After(closes)), row)
  {
    var before, after := Before(opens), After(closes);
    InQuoteAppend(before + out, after, false);
    InQuoteAppend(before, out, false);
    EvenEnds();
    assert !InQuote(out, false);
    if closes {
      ReadBeforeEmpty(out, row);
    } else {
      assert out + after == out;
    }
    if opens {
      ReadAfterEmpty(out + after, row);
      assert before + out + after == before + (out + after);
    } else {
      assert before + out + after == out + after;
    }
  }

  lemma DroppedEndsAreEmpty(s: string, row: string -> string)
    requires '\n' !in s && !InQuote(Quoted(Squish(s)), false)
    ensures Text(Read(TranslateFormatter(s)), row) == Text(Read(Quoted(Squish(s))), row)
  {
    TranslationDropsEmptyEnds(s);
    EndsReadEmpty(TranslateFormatter(s), Opens(s), Closes(s), row);
  }

  lemma EvenEnds()
    ensures InQuote("'', ", false) == false && InQuote(", ''", false) == false && InQuote(", ''", true) == true
    ensures InQuote("", false) == false && InQuote("", true) == true
  {
    assert "'', " == "''" + ", " && ", ''" == ", " + "''";
    assert "''"[1..] == "'" && "'"[1..] == "";
    InQuoteAppend("''", ", ", false);
    NoQuoteInQuote(", ", false);
    NoQuoteInQuote(", ", true);
    InQuoteAppend(", ", "''", false);
    InQuoteAppend(", ", "''", true);
  }

  /** For every one-line text, what the output computes is what the literals of the squished template
      and the columns read from its field names compute. */
  lemma TranslationText(s: string, t: Template, row: string -> string)
    requires '\n' !in s && Squish(s) == Render(t) && PlainTemplate(t)
    ensures Text(Read(TranslateFormatter(s)), row) == t.first + Text(PartsItems(t.parts), row)
  {
    QuotedReads(t);
    DroppedEndsAreEmpty(s, row);
    TextAppend([Literal(t.first)], PartsItems(t.parts), row);
    assert Text([Literal(t.first)], row) == t.first;
  }

  // ----- when a field name reads as itself

  /** A name without commas and without spaces around it. */
  predicate IsColumnName(field: string) {
    ',' !in field && Trim(field) == field
  }

  lemma {:induction false} ArgumentsPlain(s: string)
    requires '\'' !in s
    ensures forall a :: a in Arguments(s, false) ==> ',' !in a && '\'' !in a
    ensures ',' !in s ==> Arguments(s, false) == [s]
  {
    if s != [] {
      assert s == [s[0]] + s[1..];
      ArgumentsPlain(s[1..]);
      var r := Arguments(s[1..], false);
      assert r[0] in r;
    }
  }

  lemma {:induction false} SkipSpacesPart(s: string)
    ensures forall c :: c in SkipSpaces(s) ==> c in s
    ensures SkipSpaces(s) != [] ==> !IsSpace(SkipSpaces(s)[0])
  {
    if s != [] && IsSpace(s[0]) {
      SkipSpacesPart(s[1..]);
    }
  }

  lemma {:induction false} TrimRightPart(s: string)
    ensures TrimRight(s) <= s
    ensures TrimRight(s) != [] ==> !IsSpace(TrimRight(s)[|TrimRight(s)|-1])
  {
    if s != [] && IsSpace(s[|s|-1]) {
      TrimRightPart(s[..|s|-1]);
    }
  }

  lemma TrimTwice(s: string)
    ensures Trim(Trim(s)) == Trim(s) && forall c :: c in Trim(s) ==> c in s
  {
    SkipSpacesPart(s);
    TrimRightPart(SkipSpaces(s));
  }

  /** Whatever a field is called, it reads as columns with proper names only. */
  lemma {:induction false} ItemsAreColumns(arguments: seq<string>)
    requires forall a :: a in arguments ==> ',' !in a && '\'' !in a
    ensures forall i :: i in ReadItems(arguments) ==> i.ColumnRef? && IsColumnName(i.name)
  {
    if arguments != [] {
      var t := Trim(arguments[0]);
      TrimTwice(arguments[0]);
      assert '\'' !in t && ',' !in t;
      assert ReadItem(arguments[0]) == ColumnRef(t);
      ItemsAreColumns(arguments[1..]);
    }
  }

  lemma FieldReads(field: string)
    requires '\'' !in field
    ensures forall i :: i in Columns(field) ==> i.ColumnRef? && IsColumnName(i.name)
    ensures IsColumnName(field) ==> Columns(field) == [ColumnRef(field)]
  {
    ArgumentsPlain(field);
    ItemsAreColumns(Arguments(field, false));
    if IsColumnName(field) {
      ReadItemsOne(field);
      assert ReadItem(field) == ColumnRef(field);
    }
  }

  ghost predicate AllColumnNames(ps: seq<Part>) {
    forall p :: p in ps ==> IsColumnName(p.field)
  }

  lemma {:induction false} PartsInterpolate(ps: seq<Part>, row: string -> string)
    requires PlainParts(ps) && AllColumnNames(ps)
    ensures Text(PartsItems(ps), row) == InterpolateParts(ps, row)
  {
    if ps != [] {
      assert ps[0] in ps;
      FieldReads(ps[0].field);
      PartsInterpolate(ps[1..], row);
      var c, l := [ColumnRef(ps[0].field)], [Literal(ps[0].after)];
      TextAppend(c + l, PartsItems(ps[1..]), row);
      TextAppend(c, l, row);
      assert Text(c, row) == row(ps[0].field) && Text(l, row) == ps[0].after;
    }
  }

  /** A row that tells proper column names from the rest. */
  ghost function Witness(): string -> string {
    (name: string) => if IsColumnName(name) then "" else "!"
  }

  lemma {:induction false} ColumnsVanish(items: seq<Item>)
    requires forall i :: i in items ==> i.ColumnRef? && IsColumnName(i.name)
    ensures Text(items, Witness()) == ""
  {
    if items != [] {
      assert items[0] in items;
      ColumnsVanish(items[1..]);
    }
  }

  lemma {:induction false} WitnessLengths(ps: seq<Part>)
    requires PlainParts(ps)
    ensures |InterpolateParts(ps, Witness())| >= |Text(PartsItems(ps), Witness())|
    ensures !AllColumnNames(ps) ==> |InterpolateParts(ps, Witness())| > |Text(PartsItems(ps), Witness())|
  {
    if ps != [] {
      assert ps == [ps[0]] + ps[1..];
      assert ps[0] in ps;
      FieldReads(ps[0].field);
      WitnessLengths(ps[1..]);
      var c, l := Columns(ps[0].field), [Literal(ps[0].after)];
      ColumnsVanish(c);
      TextAppend(c + l, PartsItems(ps[1..]), Witness());
      TextAppend(c, l, Witness());
      assert Text(l, Witness()) == ps[0].after;
    }
  }

  /** The translation preserves meaning, for every row, exactly when no field name has a comma in it
      or spaces around it: such a name reads as other columns than the one the template names. */
  lemma TranslationPreservesMeaningIff(s: string, t: Template)
    requires '\n' !in s && Squish(s) == Render(t) && PlainTemplate(t)
    ensures (forall row: string -> string :: Text(Read(TranslateFormatter(s)), row) == Interpolate(t, row))
            <==> AllColumnNames(t.parts)
  {
    if AllColumnNames(t.parts) {
      forall row: string -> string
        ensures Text(Read(TranslateFormatter(s)), row) == Interpolate(t, row)
      {
        TranslationText(s, t, row);
        PartsInterpolate(t.parts, row);
      }
    } else {
      TranslationText(s, t, Witness());
      WitnessLengths(t.parts);
      assert |Text(Read(TranslateFormatter(s)), Witness())| < |Interpolate(t, Witness())|;
    }
  }

  lemma {:induction false} BalancedSkipSpaces(s: string, open: bool)
    ensures Balanced(SkipSpaces(s), open) == Balanced(s, open)
  {
    if s != [] && IsSpace(s[0]) {
      BalancedSkipSpaces(s[1..], open);
    }
  }

  lemma {:induction false} BalancedCollapse(s: string, open: bool)
    ensures Balanced(Collapse(s), open) == Balanced(s, open)
    decreases |s|
  {
    if s != [] {
      if IsSpace(s[0]) {
        var u := SkipSpaces(s[1..]);
        BalancedSkipSpaces(s[1..], open);
        BalancedCollapse(u, open);
        assert Collapse(s)[1..] == Collapse(u);
      } else {
        assert Collapse(s)[1..] == Collapse(s[1..]);
        BalancedCollapse(s[1..], if s[0] == '{' then true else if s[0] == '}' then false else open);
      }
    }
  }

  lemma {:induction false} BalancedSnocSpace(s: string, c: char, open: bool)
    requires IsSpace(c)
    ensures Balanced(s + [c], open) == Balanced(s, open)
  {
    if s == [] {
      assert (s + [c])[1..] == [];
    } else {
      assert (s + [c])[1..] == s[1..] + [c];
      BalancedSnocSpace(s[1..], c, if s[0] == '{' then true else if s[0] == '}' then false else open);
    }
  }

  lemma {:induction false} BalancedTrimRight(s: string, open: bool)
    ensures Balanced(TrimRight(s), open) == Balanced(s, open)
  {
    if s != [] && IsSpace(s[|s|-1]) {
      assert s == s[..|s|-1] + [s[|s|-1]];
      BalancedSnocSpace(s[..|s|-1], s[|s|-1], open);
      BalancedTrimRight(s[..|s|-1], open);
    }
  }

  /** So for every one-line text with balanced braces and no quotes, however it is spaced, there is a
      template that it squishes to, and the output means that template exactly when no field name
      has a comma in it or spaces around it. */
  lemma BalancedTextIsTranslated(s: string) returns (t: Template)
    requires '\n' !in s && Balanced(s, false)
    ensures PlainTemplate(t) && Render(t) == Squish(s)
    ensures (forall row: string -> string :: Text(Read(TranslateFormatter(s)), row) == Interpolate(t, row))
            <==> AllColumnNames(t.parts)
  {
    BalancedCollapse(s, false);
    BalancedSkipSpaces(Collapse(s), false);
    BalancedTrimRight(SkipSpaces(Collapse(s)), false);
    t := BalancedIsTemplate(Squish(s));
    TranslationPreservesMeaningIff(s, t);
  }

  lemma ShortTemplateIsNormalised(a: char, b: char)
    requires !IsSpace(a) && !IsSpace(b)
    ensures Normalised("{" + [a, ',', b] + "}")
  {
    var s := "{" + [a, ',', b] + "}";
    assert s == ['{', a, ',', b, '}'];
    NothingToCollapse(s);
    assert SkipSpaces(s) == s && TrimRight(s) == s;
  }

  lemma {:induction false} NothingToCollapse(s: string)
    requires forall i :: 0 <= i < |s| ==> !IsSpace(s[i])
    ensures Collapse(s) == s
  {
    if s != [] {
      NothingToCollapse(s[1..]);
    }
  }

  lemma OneField(f: string)
    ensures var t := Template("", [Part(f, "")]);
      && Render(t) == "{" + f + "}"
      && (forall row: string -> string :: Interpolate(t, row) == row(f))
      && (Plain(f) ==> PlainTemplate(t))
      && (AllColumnNames(t.parts) ==> IsColumnName(f))
  {
    var t := Template("", [Part(f, "")]);
    assert t.parts[1..] == [];
    assert t.parts[0] in t.parts;
    RenderField(f, Template("", []));
    assert [Part(f, "")] + [] == t.parts;
    assert Render(Template("", [])) == "";
    forall row: string -> string ensures Interpolate(t, row) == row(f) {
      assert InterpolateParts(t.parts[1..], row) == "";
    }
  }

  lemma CommaIsMisread(f: string)
    requires Plain(f) && ',' in f && Normalised("{" + f + "}")
    ensures exists row: string -> string :: Text(Read(TranslateFormatter("{" + f + "}")), row) != row(f)
  {
    var t := Template("", [Part(f, "")]);
    OneField(f);
    TranslationPreservesMeaningIff(Render(t), t);
    var row: string -> string :| Text(Read(TranslateFormatter("{" + f + "}")), row) != Interpolate(t, row);
  }

  /** So "{a,b}", which names one column, does not mean the same once translated. */
  lemma CommaInNameIsMisread()
    ensures exists row: string -> string :: Text(Read(TranslateFormatter("{" + "a,b" + "}")), row) != row("a,b")
  {
    assert "a,b" == ['a', ',', 'b'];
    ShortTemplateIsNormalised('a', 'b');
    assert ',' in "a,b" by {
      assert "a,b"[1] == ',';
    }
    CommaIsMisread("a,b");
  }
}
