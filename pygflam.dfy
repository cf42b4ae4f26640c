/**
 * Source-listing highlighting (pygflam.py): the token filter that re-types Mozilla
 * naming conventions, the consolidation of a token stream into numbered lines of
 * format pieces and arguments, and the line window and magic-line decoration applied
 * when the lines are handed to the terminal formatter.
 *
 * Token types are Pygments' dotted type paths; the lexer and the style table are not
 * part of this model.
 */
module Highlight {
  import opened Wrappers
  import opened Text
  import opened Flam

  // ================================================================ token types

  /** A Pygments token type as its path below `Token`. */
  type TokenType = seq<string>

  const Name: TokenType := ["Name"]
  const CommentPreproc: TokenType := ["Comment", "Preproc"]
  const StringType: TokenType := ["Literal", "String"]
  const Argument: TokenType := ["Name", "Variable", "Argument"]
  const Static: TokenType := ["Name", "Variable", "Static"]
  const Member: TokenType := ["Name", "Variable", "Member"]
  const Interface: TokenType := ["Name", "Interface"]
  const Constant: TokenType := ["Name", "Constant"]
  const Class: TokenType := ["Name", "Class"]
  const Scaffolding: TokenType := ["Name", "Class", "Scaffolding"]
  const KeywordType: TokenType := ["Keyword", "Type"]

  /** `str(ttype)`, e.g. "Token.Name.Class". */
  function TypeName(t: TokenType): string {
    Join(["Token"] + t, '.')
  }

  datatype Tok = Tok(ttype: TokenType, value: string)

  // ================================================================ MozillaCodeFilter

  const ScaffoldingNames: set<string> := {"nsresult", "nsRefPtr", "nsCOMPtr", "nsTArray", "nsTObserverArray"}
  const NsScaffoldingNames: set<string> :=
    {"NS_IMETHODIMP", "NS_ENSURE_ARG_POINTER", "NS_ENSURE_TRUE", "NS_ENSURE_SUCCESS", "NS_ADDREF",
     "NS_IF_ADDREF", "NS_ASSERTION"}
  const NativeTypeNames: set<string> := {"PRUint32", "PRInt32", "PRBool"}
  const RichTypeNames: set<string> := {"nsString", "nsDependentString", "nsCString", "nsCDependentString"}

  /** `str.isupper()` on one character (ASCII letters only). */
  predicate IsUpper(c: char) {
    'A' <= c <= 'Z'
  }

  /** The type the filter gives a Name token with text `v`. */
  function NameClass(v: string): (t: TokenType)
    ensures |v| < 3 ==> t == Name
    ensures t in {Name, Argument, Static, Member, Interface, Constant, Class, Scaffolding, KeywordType}
  {
    if |v| < 3 then Name
    else if v[0] == 'a' then
      if IsUpper(v[1]) then Argument else Name
    else if v[0] == 's' then
      if v[1] == '_' || IsUpper(v[1]) then Static else Name
    else if v[0] == 'm' && (v[1] == '_' || IsUpper(v[1])) then Member
    else if StartsWith(v, "ns") then
      if v[2] == 'I' then Interface
      else if v == "nsnull" then Constant
      else if v in ScaffoldingNames then Scaffolding
      else if v in RichTypeNames then KeywordType
      else Class
    else if StartsWith(v, "NS_") then
      if v in NsScaffoldingNames then Scaffolding else Name
    else if StartsWith(v, "PR") then
      if v == "PR_TRUE" || v == "PR_FALSE" then Constant
      else if v in NativeTypeNames then KeywordType
      else Name
    else Name
  }

  /** The prefix conventions, each as an if-and-only-if: no later rule ever produces the
      type of an earlier one. */
  lemma NameConventions(v: string)
    ensures NameClass(v) == Argument <==> |v| >= 3 && v[0] == 'a' && IsUpper(v[1])
    ensures NameClass(v) == Static <==> |v| >= 3 && v[0] == 's' && (v[1] == '_' || IsUpper(v[1]))
    ensures NameClass(v) == Member <==> |v| >= 3 && v[0] == 'm' && (v[1] == '_' || IsUpper(v[1]))
    ensures NameClass(v) == Interface <==> |v| >= 3 && StartsWith(v, "nsI")
    ensures NameClass(v) == Class <==>
              |v| >= 3 && StartsWith(v, "ns") && v[2] != 'I' && v != "nsnull" &&
              v !in ScaffoldingNames && v !in RichTypeNames
  {
    if |v| >= 3 && StartsWith(v, "nsI") {
      assert v[..2] == "ns";
    }
  }

  /** Every name of the two scaffolding sets is typed as scaffolding: none of them is
      caught by an earlier rule. */
  lemma ScaffoldingClassified(v: string)
    requires v in ScaffoldingNames || v in NsScaffoldingNames
    ensures NameClass(v) == Scaffolding
  {
    if v in ScaffoldingNames {
      assert v[..2] == "ns" && v[0] == 'n' && v[2] != 'I';
    } else {
      assert v[..3] == "NS_" && v[0] == 'N';
      assert !StartsWith(v, "ns");
    }
  }

  /** Every name of the two type sets is typed as a keyword type. */
  lemma TypeNamesClassified(v: string)
    requires v in RichTypeNames || v in NativeTypeNames
    ensures NameClass(v) == KeywordType
  {
    if v in RichTypeNames {
      assert v == "nsString" || v == "nsDependentString" || v == "nsCString" || v == "nsCDependentString";
      assert v[..2] == "ns" && v[2] in {'S', 'D', 'C'} && (v[2] == 'C' ==> v[3] in {'S', 'D'});
      assert forall w | w in ScaffoldingNames :: w[2] != 'C' ==> w[2] in {'r', 'R', 'T'};
      assert forall w | w in ScaffoldingNames :: w[2] == 'C' ==> w[3] == 'O';
    } else {
      assert v[..2] == "PR" && v[0] == 'P';
      assert !StartsWith(v, "ns") && !StartsWith(v, "NS_");
    }
  }

  /** nsnull, PR_TRUE and PR_FALSE are typed as constants. */
  lemma ConstantsClassified(v: string)
    requires v in {"nsnull", "PR_TRUE", "PR_FALSE"}
    ensures NameClass(v) == Constant
  {
    if v == "nsnull" {
      assert v[..2] == "ns" && v[2] != 'I';
    } else {
      assert v[..2] == "PR" && v[0] == 'P';
      assert !StartsWith(v, "ns") && !StartsWith(v, "NS_");
    }
  }

  /** MozillaCodeFilter.filter on one token. */
  function FilterToken(t: Tok): (r: seq<Tok>)
    ensures 1 <= |r| <= 2
    ensures t.ttype != CommentPreproc && t.ttype != Name ==> r == [t]
    ensures t.ttype == Name ==> |r| == 1 && r[0].value == t.value
    ensures t.ttype == Name && |t.value| < 3 ==> r == [t]
    ensures t.ttype == CommentPreproc && StartsWith(t.value, "include ") ==>
              |r| == 2 && r[0] == Tok(CommentPreproc, "include ") && r[1].ttype == StringType &&
              r[0].value + r[1].value == t.value
    ensures t.ttype == CommentPreproc && !StartsWith(t.value, "include ") ==> r == [t]
  {
    if t.ttype == CommentPreproc then
      if StartsWith(t.value, "include ") then
        [Tok(CommentPreproc, "include "), Tok(StringType, t.value[8..])]
      else [t]
    else if t.ttype == Name then [Tok(NameClass(t.value), t.value)]
    else [t]
  }

  /** MozillaCodeFilter.filter on a stream. */
  function Filter(stream: seq<Tok>): seq<Tok> {
    if |stream| == 0 then []
    else Filter(stream[..|stream| - 1]) + FilterToken(stream[|stream| - 1])
  }

  /** The text of a stream: its values one after another. */
  function TextOf(stream: seq<Tok>): string {
    if |stream| == 0 then "" else TextOf(stream[..|stream| - 1]) + stream[|stream| - 1].value
  }

  lemma {:induction false} TextOfAppend(a: seq<Tok>, b: seq<Tok>)
    ensures TextOf(a + b) == TextOf(a) + TextOf(b)
    decreases |b|
  {
    if |b| == 0 {
      assert a + b == a;
    } else {
      var n := |b| - 1;
      assert (a + b)[..|a + b| - 1] == a + b[..n];
      TextOfAppend(a, b[..n]);
    }
  }

  /** The filter never drops, adds or changes text. */
  lemma {:induction false} FilterKeepsText(stream: seq<Tok>)
    ensures TextOf(Filter(stream)) == TextOf(stream)
    decreases |stream|
  {
    if |stream| > 0 {
      var n := |stream| - 1;
      var t := stream[n];
      FilterKeepsText(stream[..n]);
      TextOfAppend(Filter(stream[..n]), FilterToken(t));
      var r := FilterToken(t);
      assert r[..1] == [r[0]] && r[..1][..0] == [];
      assert TextOf(r[..1]) == r[0].value;
      if |r| == 2 {
        assert r[..|r| - 1] == r[..1];
      } else {
        assert r == r[..1];
      }
    }
  }

  // ================================================================ FlamMagicFormatter

  /** A consolidated line: its number, its format pieces and the argument texts. */
  datatype Line = Line(lineno: nat, fmt: seq<Piece>, data: seq<string>)

  /** One call of the terminal formatter: a format and its arguments. */
  datatype Emit = Emit(fmt: seq<Piece>, args: seq<Arg>)

  /** '%s' */
  const StrConv: Piece := Conv("", 0, None, 's')

  /** The format pieces one token fragment contributes. */
  function FmtBit(t: TokenType, ignore: set<TokenType>): (r: seq<Piece>)
    ensures |r| > 0 && CountConversions(r) == 1
  {
    if t in ignore then
      assert [StrConv][..0] == [];
      [StrConv]
    else
      var tag := [Tag(TypeName(t))];
      assert tag[..0] == [];
      CountConversionsAppend(tag, [StrConv]);
      tag + [StrConv]
  }

  /** Strings one after another. */
  function Concat(ss: seq<string>): string {
    if |ss| == 0 then "" else Concat(ss[..|ss| - 1]) + ss[|ss| - 1]
  }

  /** The text of each line. */
  function LineTexts(lines: seq<Line>): (r: seq<string>)
    ensures |r| == |lines|
  {
    if |lines| == 0 then [] else LineTexts(lines[..|lines| - 1]) + [Concat(lines[|lines| - 1].data)]
  }

  /** The lines of a text: its newline-separated pieces, without the empty piece after a
      final newline. */
  function LinesOf(s: string): seq<string> {
    var parts := Split(s, '\n');
    if parts[|parts| - 1] == "" then parts[..|parts| - 1] else parts
  }

  function Args(data: seq<string>): (r: seq<Arg>)
    ensures |r| == |data| && forall k :: 0 <= k < |data| ==> r[k] == StrArg(data[k])
  {
    if |data| == 0 then [] else [StrArg(data[0])] + Args(data[1..])
  }

  /** The decoration format gives one line: the '{n}%5d ' line number and the magic-line
      colour with its '{-bg}' reset. */
  function Decorate(l: Line, showLines: bool, magicLines: map<int, string>): Emit {
    var numbered := if showLines then [Tag("n"), Lit(PadLeft(NatToString(l.lineno), 5, ' ') + " ")] + l.fmt else l.fmt;
    var coloured := if l.lineno in magicLines then [Tag(magicLines[l.lineno])] + numbered + [Tag("-bg")] else numbered;
    Emit(coloured, Args(l.data))
  }

  lemma DecorateConversions(l: Line, showLines: bool, magicLines: map<int, string>)
    requires CountConversions(l.fmt) == |l.data|
    ensures var e := Decorate(l, showLines, magicLines); CountConversions(e.fmt) == |e.args|
  {
    var pre: seq<Piece> := [Tag("n"), Lit(PadLeft(NatToString(l.lineno), 5, ' ') + " ")];
    var numbered := if showLines then pre + l.fmt else l.fmt;
    CountConversionsAppend(pre, l.fmt);
    CountConversionsNone(pre);
    assert CountConversions(numbered) == |l.data|;
    if l.lineno in magicLines {
      CountConversionsAppend([Tag(magicLines[l.lineno])], numbered);
      CountConversionsAppend([Tag(magicLines[l.lineno])] + numbered, [Tag("-bg")]);
    }
  }

  /** The '%5d ' gutter of line n: the number's decimal digits right-aligned in five
      columns (more when it has more digits) behind spaces, then a space. */
  ghost predicate Gutter(g: string, n: nat) {
    && |g| >= 6 && g[|g| - 1] == ' ' && IsDigit(g[|g| - 2])
    && ParseInt(g[..|g| - 1]) == Ok(n)
    && (n < 100000 ==> |g| == 6)
    && var d := NatToString(n);
       |d| + 1 <= |g| && g[|g| - 1 - |d|..|g| - 1] == d &&
       forall i :: 0 <= i < |g| - 1 - |d| ==> g[i] == ' '
  }

  /** What one call prints for a line: with line numbers on, the '{n}' tag and the
      gutter; on a magic line, the line's colour before everything and the '{-bg}' reset
      after it; the line's own pieces unchanged in between; its texts as the string
      arguments. */
  lemma DecorateFormat(l: Line, show: bool, magic: map<int, string>)
    ensures var e := Decorate(l, show, magic);
            l.lineno in magic ==>
              |e.fmt| >= 2 && e.fmt[0] == Tag(magic[l.lineno]) && e.fmt[|e.fmt| - 1] == Tag("-bg")
    ensures var e := Decorate(l, show, magic);
            var body := if l.lineno in magic then e.fmt[1..|e.fmt| - 1] else e.fmt;
            (show ==> |body| >= 2 && body[0] == Tag("n") && body[1].Lit? && Gutter(body[1].text, l.lineno) &&
                      body[2..] == l.fmt) &&
            (!show ==> body == l.fmt)
    ensures var e := Decorate(l, show, magic);
            |e.args| == |l.data| && forall k :: 0 <= k < |l.data| ==> e.args[k] == StrArg(l.data[k])
  {
    GutterOf(l.lineno);
    var e := Decorate(l, show, magic);
    var numbered := if show then [Tag("n"), Lit(PadLeft(NatToString(l.lineno), 5, ' ') + " ")] + l.fmt else l.fmt;
    if l.lineno in magic {
      assert e.fmt == [Tag(magic[l.lineno])] + numbered + [Tag("-bg")];
      assert e.fmt[1..|e.fmt| - 1] == numbered;
    }
    if show {
      assert numbered[2..] == l.fmt;
    }
  }

  /** The gutter text Decorate writes is the line's gutter. */
  lemma GutterOf(n: nat)
    ensures Gutter(PadLeft(NatToString(n), 5, ' ') + " ", n)
  {
    var d := NatToString(n);
    var g := PadLeft(d, 5, ' ');
    assert ParseInt(g) == Ok(n) by {
      var k := |g| - |d|;
      assert g == seq(k, _ => ' ') + d;
      ParseIntPadded(k, d);
      NatToStringValue(n);
    }
    if n < 100000 {
      assert |d| <= 5 by {
        assert Pow10(5) == 100000;
        NatToStringWidth(n, 5);
      }
    }
    GutterFrom(g, n);
  }

  /** A space-padded rendering of n that reads back as n, followed by a space, is n's
      gutter. */
  lemma GutterFrom(g: string, n: nat)
    requires var d := NatToString(n);
             |d| <= |g| && IsSuffix(d, g) && forall i :: 0 <= i < |g| - |d| ==> g[i] == ' '
    requires ParseInt(g) == Ok(n)
    requires |g| >= 5 && (n < 100000 ==> |g| == 5)
    ensures Gutter(g + " ", n)
  {
    PaddedShape(g, NatToString(n));
  }

  /** The shape of a string padded on the left with spaces, followed by a space. */
  lemma PaddedShape(g: string, d: string)
    requires 1 <= |d| <= |g| && IsSuffix(d, g)
    requires forall i :: 0 <= i < |g| - |d| ==> g[i] == ' '
    ensures var s := g + " ";
            && s[..|s| - 1] == g && s[|s| - 1] == ' ' && s[|s| - 2] == d[|d| - 1]
            && s[|s| - 1 - |d|..|s| - 1] == d
            && forall i :: 0 <= i < |s| - 1 - |d| ==> s[i] == ' '
  {
    var s := g + " ";
    assert s[..|s| - 1] == g;
    assert s[|s| - 1 - |d|..|s| - 1] == g[|g| - |d|..];
  }

  /** The calls format makes: lines before the first are skipped, and the first line
      after the last ends the listing. */
  function Emitted(lines: seq<Line>, first: int, last: int, showLines: bool, magicLines: map<int, string>)
    : seq<Emit>
  {
    if |lines| == 0 then []
    else if lines[0].lineno < first then Emitted(lines[1..], first, last, showLines, magicLines)
    else if lines[0].lineno > last then []
    else [Decorate(lines[0], showLines, magicLines)] + Emitted(lines[1..], first, last, showLines, magicLines)
  }

  function Clamp(x: int, lo: int, hi: int): int
    requires lo <= hi
  {
    if x < lo then lo else if x > hi then hi else x
  }

  /** `Decorate` on each line. */
  function DecorateAll(lines: seq<Line>, showLines: bool, magicLines: map<int, string>): (r: seq<Emit>)
    ensures |r| == |lines|
  {
    if |lines| == 0 then [] else [Decorate(lines[0], showLines, magicLines)] + DecorateAll(lines[1..], showLines, magicLines)
  }

  /** On lines numbered consecutively from `start`, format emits exactly the lines
      numbered `first` to `last`, in order. */
  lemma {:induction false} EmittedWindow(lines: seq<Line>, start: int, first: int, last: int, showLines: bool,
                                         magicLines: map<int, string>)
    requires forall k :: 0 <= k < |lines| ==> lines[k].lineno == start + k
    ensures var a := Clamp(first - start, 0, |lines|);
            var b := Clamp(last - start + 1, a, |lines|);
            Emitted(lines, first, last, showLines, magicLines) == DecorateAll(lines[a..b], showLines, magicLines)
    decreases |lines|
  {
    if |lines| > 0 {
      var rest := lines[1..];
      assert forall k :: 0 <= k < |rest| ==> rest[k].lineno == start + 1 + k by {
        forall k | 0 <= k < |rest| ensures rest[k].lineno == start + 1 + k {
          assert rest[k] == lines[k + 1];
        }
      }
      EmittedWindow(rest, start + 1, first, last, showLines, magicLines);
      WindowStep(lines, start, first, last, showLines, magicLines);
    }
  }

  /** One line more in front of a window already known for the rest of the lines. */
  lemma WindowStep(lines: seq<Line>, start: int, first: int, last: int, showLines: bool,
                   magicLines: map<int, string>)
    requires |lines| > 0 && lines[0].lineno == start
    requires var rest := lines[1..];
             var a1 := Clamp(first - start - 1, 0, |rest|);
             var b1 := Clamp(last - start, a1, |rest|);
             Emitted(rest, first, last, showLines, magicLines) == DecorateAll(rest[a1..b1], showLines, magicLines)
    ensures var a := Clamp(first - start, 0, |lines|);
            var b := Clamp(last - start + 1, a, |lines|);
            Emitted(lines, first, last, showLines, magicLines) == DecorateAll(lines[a..b], showLines, magicLines)
  {
    var a := Clamp(first - start, 0, |lines|);
    var b := Clamp(last - start + 1, a, |lines|);
    if start < first {
      assert 1 <= a && Clamp(first - start - 1, 0, |lines| - 1) == a - 1;
      assert Clamp(last - start, a - 1, |lines| - 1) == b - 1;
      WindowSkip(lines, a, b, first, last, showLines, magicLines);
    } else if start > last {
      assert a == b;
    } else {
      assert a == 0 && Clamp(first - start - 1, 0, |lines| - 1) == 0;
      assert Clamp(last - start, 0, |lines| - 1) == b - 1;
      WindowTake(lines, b, first, last, showLines, magicLines);
    }
  }

  /** A line before the first one adds nothing: the window moves one place. */
  lemma WindowSkip(lines: seq<Line>, a: int, b: int, first: int, last: int, showLines: bool,
                   magicLines: map<int, string>)
    requires 1 <= a <= b <= |lines| && lines[0].lineno < first
    requires Emitted(lines[1..], first, last, showLines, magicLines) ==
               DecorateAll(lines[1..][a - 1..b - 1], showLines, magicLines)
    ensures Emitted(lines, first, last, showLines, magicLines) == DecorateAll(lines[a..b], showLines, magicLines)
  {
    SliceOfTail(lines, a, b);
  }

  /** A line inside the range is emitted in front of the rest's window. */
  lemma WindowTake(lines: seq<Line>, b: int, first: int, last: int, showLines: bool,
                   magicLines: map<int, string>)
    requires 1 <= b <= |lines| && first <= lines[0].lineno <= last
    requires Emitted(lines[1..], first, last, showLines, magicLines) ==
               DecorateAll(lines[1..][0..b - 1], showLines, magicLines)
    ensures Emitted(lines, first, last, showLines, magicLines) == DecorateAll(lines[0..b], showLines, magicLines)
  {
    assert lines[0..b] == [lines[0]] + lines[1..][0..b - 1];
    DecorateAllCons(lines[0], lines[1..][0..b - 1], showLines, magicLines);
  }

  lemma SliceOfTail<T>(s: seq<T>, a: int, b: int)
    requires 1 <= a <= b <= |s|
    ensures s[1..][a - 1..b - 1] == s[a..b]
  {
  }

  lemma DecorateAllCons(l: Line, lines: seq<Line>, showLines: bool, magicLines: map<int, string>)
    ensures DecorateAll([l] + lines, showLines, magicLines) ==
              [Decorate(l, showLines, magicLines)] + DecorateAll(lines, showLines, magicLines)
  {
    assert ([l] + lines)[1..] == lines;
  }

  /** Every call has as many conversions as arguments. */
  ghost predicate Balanced(out: seq<Emit>) {
    forall k :: 0 <= k < |out| ==> CountConversions(out[k].fmt) == |out[k].args|
  }

  lemma {:induction false} EmittedConversions(lines: seq<Line>, first: int, last: int, showLines: bool,
                                              magicLines: map<int, string>)
    requires forall k :: 0 <= k < |lines| ==> CountConversions(lines[k].fmt) == |lines[k].data|
    ensures Balanced(Emitted(lines, first, last, showLines, magicLines))
    decreases |lines|
  {
    if |lines| > 0 {
      EmittedConversions(lines[1..], first, last, showLines, magicLines);
      var rest := Emitted(lines[1..], first, last, showLines, magicLines);
      assert Balanced(rest);
      var out := Emitted(lines, first, last, showLines, magicLines);
      if lines[0].lineno < first {
        assert out == rest;
      } else if lines[0].lineno > last {
        assert out == [];
      } else {
        var d := Decorate(lines[0], showLines, magicLines);
        DecorateConversions(lines[0], showLines, magicLines);
        assert out == [d] + rest;
        forall k | 0 <= k < |out| ensures CountConversions(out[k].fmt) == |out[k].args| {
          if k > 0 {
            assert out[k] == rest[k - 1];
          }
        }
      }
    }
  }

  lemma ConcatStep(data: seq<string>, x: string)
    ensures Concat(data + [x]) == Concat(data) + x
  {
    assert (data + [x])[..|data|] == data;
  }

  lemma LineTextsStep(lines: seq<Line>, l: Line)
    ensures LineTexts(lines + [l]) == LineTexts(lines) + [Concat(l.data)]
  {
    assert (lines + [l])[..|lines|] == lines;
  }

  lemma TextOfStep(tokens: seq<Tok>, i: nat)
    requires i < |tokens|
    ensures TextOf(tokens[..i + 1]) == TextOf(tokens[..i]) + tokens[i].value
  {
    assert tokens[..i + 1][..i] == tokens[..i];
  }

  /** Lines numbered 1, 2, 3, … with one conversion per argument each. */
  ghost predicate Numbered(lines: seq<Line>) {
    forall k :: 0 <= k < |lines| ==> lines[k].lineno == k + 1 && CountConversions(lines[k].fmt) == |lines[k].data|
  }

  /** The line being collected: one conversion per fragment, no empty fragment, and a
      format that is empty exactly when no fragment was collected. */
  ghost predicate Pending(fmt: seq<Piece>, data: seq<string>) {
    CountConversions(fmt) == |data| && (fmt == [] <==> data == []) && forall k :: 0 <= k < |data| ==> data[k] != ""
  }

  lemma NumberedAppend(lines: seq<Line>, l: Line)
    requires Numbered(lines) && l.lineno == |lines| + 1 && CountConversions(l.fmt) == |l.data|
    ensures Numbered(lines + [l])
  {
    var ls := lines + [l];
    forall k | 0 <= k < |ls| ensures ls[k].lineno == k + 1 && CountConversions(ls[k].fmt) == |ls[k].data| {
      if k < |lines| {
        assert ls[k] == lines[k];
      }
    }
  }

  /** Closing the pending line with the fragment `part`. */
  lemma CloseLine(lines: seq<Line>, fmt: seq<Piece>, data: seq<string>, bit: seq<Piece>, part: string)
    requires Numbered(lines) && CountConversions(fmt) == |data| && CountConversions(bit) == 1
    ensures var l := Line(|lines| + 1, fmt + bit, data + [part]);
            Numbered(lines + [l]) && LineTexts(lines + [l]) == LineTexts(lines) + [Concat(data) + part]
  {
    var l := Line(|lines| + 1, fmt + bit, data + [part]);
    CountConversionsAppend(fmt, bit);
    ConcatStep(data, part);
    LineTextsStep(lines, l);
    NumberedAppend(lines, l);
  }

  /** Adding a non-empty fragment to the pending line. */
  lemma ExtendPending(fmt: seq<Piece>, data: seq<string>, bit: seq<Piece>, part: string)
    requires Pending(fmt, data) && CountConversions(bit) == 1 && |bit| > 0 && part != ""
    ensures Pending(fmt + bit, data + [part]) && Concat(data + [part]) == Concat(data) + part
  {
    CountConversionsAppend(fmt, bit);
    ConcatStep(data, part);
  }

  /** Splitting after one more token: the pending line absorbs the token's first piece
      and each further piece starts a line. */
  lemma SplitNextToken(done: seq<string>, pending: string, text: string, value: string)
    requires done + [pending] == Split(text, '\n')
    ensures var parts := Split(value, '\n');
            done + [pending + parts[0]] + parts[1..] == Split(text + value, '\n')
  {
    SplitAppend(text, value, '\n');
    var st := Split(text, '\n');
    assert st[..|st| - 1] == done;
  }

  lemma NextPiece(done: seq<string>, closed: string, parts: seq<string>, j: nat, target: seq<string>)
    requires j + 1 < |parts| && done + [closed] + parts[j + 1..] == target
    ensures (done + [closed]) + [Concat([]) + parts[j + 1]] + parts[j + 2..] == target
  {
    assert parts[j + 1..] == [parts[j + 1]] + parts[j + 2..];
    assert Concat([]) + parts[j + 1] == parts[j + 1];
  }

  /** A piece of one token's text between newlines: its token type, its text, and
      whether a newline follows it in the token. */
  datatype Frag = Frag(ttype: TokenType, text: string, ends: bool)

  /** The fragments of a token whose text splits into `parts`: every piece but the last
      ends a line; the last piece is kept only when it is not empty. */
  function PartFrags(t: TokenType, parts: seq<string>): seq<Frag>
    requires |parts| >= 1
  {
    if |parts| == 1 then (if parts[0] == "" then [] else [Frag(t, parts[0], false)])
    else [Frag(t, parts[0], true)] + PartFrags(t, parts[1..])
  }

  /** The fragments of a token stream, token after token. */
  function Fragments(tokens: seq<Tok>): seq<Frag> {
    if |tokens| == 0 then []
    else PartFrags(tokens[0].ttype, Split(tokens[0].value, '\n')) + Fragments(tokens[1..])
  }

  /** The lines the fragments make: each line ends after a fragment that a newline
      follows, and the fragments after the last newline make a last line when there are
      any. */
  function GroupFrom(frags: seq<Frag>, pending: seq<Frag>): seq<seq<Frag>> {
    if |frags| == 0 then (if pending == [] then [] else [pending])
    else if frags[0].ends then [pending + [frags[0]]] + GroupFrom(frags[1..], [])
    else GroupFrom(frags[1..], pending + [frags[0]])
  }

  function Grouped(tokens: seq<Tok>): seq<seq<Frag>> {
    GroupFrom(Fragments(tokens), [])
  }

  /** The format of a line: each fragment's bit, in order. */
  function Bits(frags: seq<Frag>, ignore: set<TokenType>): seq<Piece> {
    if |frags| == 0 then [] else Bits(frags[..|frags| - 1], ignore) + FmtBit(frags[|frags| - 1].ttype, ignore)
  }

  /** The arguments of a line: each fragment's text, in order. */
  function Texts(frags: seq<Frag>): (r: seq<string>)
    ensures |r| == |frags|
  {
    if |frags| == 0 then [] else Texts(frags[..|frags| - 1]) + [frags[|frags| - 1].text]
  }

  /** A consolidated line is the line its fragments describe. */
  ghost predicate LineOf(l: Line, frags: seq<Frag>, ignore: set<TokenType>) {
    l.fmt == Bits(frags, ignore) && l.data == Texts(frags)
  }

  /** Lines consolidated so far, and the fragments still to come. */
  ghost predicate Consolidating(lines: seq<Line>, groups: seq<seq<Frag>>, fmt: seq<Piece>, data: seq<string>,
                                pending: seq<Frag>, rest: seq<Frag>, ignore: set<TokenType>, target: seq<seq<Frag>>) {
    && |groups| == |lines|
    && (forall k :: 0 <= k < |lines| ==> LineOf(lines[k], groups[k], ignore))
    && fmt == Bits(pending, ignore) && data == Texts(pending)
    && groups + GroupFrom(rest, pending) == target
  }

  /** Adding a fragment to the line being collected. */
  lemma AddFrag(pending: seq<Frag>, f: Frag, ignore: set<TokenType>)
    ensures Bits(pending + [f], ignore) == Bits(pending, ignore) + FmtBit(f.ttype, ignore)
    ensures Texts(pending + [f]) == Texts(pending) + [f.text]
  {
    assert (pending + [f])[..|pending|] == pending;
  }

  /** A fragment that ends a line closes the pending line. */
  lemma ConsolidateEnds(lines: seq<Line>, groups: seq<seq<Frag>>, fmt: seq<Piece>, data: seq<string>,
                        pending: seq<Frag>, rest: seq<Frag>, ignore: set<TokenType>, target: seq<seq<Frag>>)
    requires Consolidating(lines, groups, fmt, data, pending, rest, ignore, target)
    requires |rest| > 0 && rest[0].ends
    ensures var f := rest[0];
            var l := Line(|lines| + 1, fmt + FmtBit(f.ttype, ignore), data + [f.text]);
            Consolidating(lines + [l], groups + [pending + [f]], [], [], [], rest[1..], ignore, target)
  {
    var f := rest[0];
    AddFrag(pending, f, ignore);
    var l := Line(|lines| + 1, fmt + FmtBit(f.ttype, ignore), data + [f.text]);
    var lines' := lines + [l];
    var groups' := groups + [pending + [f]];
    forall k | 0 <= k < |lines'| ensures LineOf(lines'[k], groups'[k], ignore) {
      if k < |lines| {
        assert lines'[k] == lines[k] && groups'[k] == groups[k];
      }
    }
    assert groups + GroupFrom(rest, pending) == groups' + GroupFrom(rest[1..], []);
  }

  /** A fragment that does not end a line joins the pending line. */
  lemma ConsolidateJoins(lines: seq<Line>, groups: seq<seq<Frag>>, fmt: seq<Piece>, data: seq<string>,
                         pending: seq<Frag>, rest: seq<Frag>, ignore: set<TokenType>, target: seq<seq<Frag>>)
    requires Consolidating(lines, groups, fmt, data, pending, rest, ignore, target)
    requires |rest| > 0 && !rest[0].ends
    ensures var f := rest[0];
            Consolidating(lines, groups, fmt + FmtBit(f.ttype, ignore), data + [f.text], pending + [f], rest[1..],
                          ignore, target)
  {
    AddFrag(pending, rest[0], ignore);
  }

  /** The fragments still to come when the walk is at piece j of a token. */
  lemma PartFragsAt(t: TokenType, parts: seq<string>, j: nat, after: seq<Frag>)
    requires j < |parts| - 1
    ensures PartFrags(t, parts[j..]) + after == [Frag(t, parts[j], true)] + (PartFrags(t, parts[j + 1..]) + after)
  {
    assert parts[j..][1..] == parts[j + 1..];
  }

  /** Starting a token, and finishing one. */
  lemma FragmentsOfToken(tokens: seq<Tok>, i: nat)
    requires i < |tokens|
    ensures Fragments(tokens[i..]) == PartFrags(tokens[i].ttype, Split(tokens[i].value, '\n')[0..]) + Fragments(tokens[i + 1..])
  {
    assert tokens[i..][0] == tokens[i] && tokens[i..][1..] == tokens[i + 1..];
    var parts := Split(tokens[i].value, '\n');
    assert parts[0..] == parts;
  }

  /** The last piece of a token: kept as a fragment iff it is not empty. */
  lemma LastPieceFrags(t: TokenType, parts: seq<string>)
    requires |parts| >= 1
    ensures var last := parts[|parts| - 1];
            PartFrags(t, parts[|parts| - 1..]) == if last == "" then [] else [Frag(t, last, false)]
  {
    assert parts[|parts| - 1..] == [parts[|parts| - 1]];
  }

  /** Bits of a non-empty fragment list are not empty. */
  lemma BitsNonEmpty(frags: seq<Frag>, ignore: set<TokenType>)
    ensures Bits(frags, ignore) == [] <==> frags == []
  {
  }

  /** The last line: the pending line is a line of its own exactly when it is not empty. */
  lemma LastLine(lines: seq<Line>, fmt: seq<Piece>, data: seq<string>, text: string)
    requires Numbered(lines) && Pending(fmt, data)
    requires LineTexts(lines) + [Concat(data)] == Split(text, '\n')
    ensures fmt == [] ==> LineTexts(lines) == LinesOf(text)
    ensures fmt != [] ==> var l := Line(|lines| + 1, fmt, data);
                          Numbered(lines + [l]) && LineTexts(lines + [l]) == LinesOf(text)
  {
    var parts := Split(text, '\n');
    assert parts[..|parts| - 1] == LineTexts(lines);
    if fmt != [] {
      var n := |data| - 1;
      assert data == data[..n] + [data[n]];
      ConcatStep(data[..n], data[n]);
      var l := Line(|lines| + 1, fmt, data);
      LineTextsStep(lines, l);
    }
  }

  /** One step of the format loop. */
  lemma EmittedStep(ls: seq<Line>, i: nat, first: int, last: int, showLines: bool, magicLines: map<int, string>)
    requires i < |ls|
    ensures Emitted(ls[i..], first, last, showLines, magicLines) ==
              if ls[i].lineno < first then Emitted(ls[i + 1..], first, last, showLines, magicLines)
              else if ls[i].lineno > last then []
              else [Decorate(ls[i], showLines, magicLines)] + Emitted(ls[i + 1..], first, last, showLines, magicLines)
  {
    assert ls[i..][0] == ls[i] && ls[i..][1..] == ls[i + 1..];
  }

  /** Where the walk over one token stands at piece j: the lines closed so far and the
      pending line, both as texts and as fragments. */
  ghost predicate AtPiece(lines: seq<Line>, lineno: nat, fmt: seq<Piece>, data: seq<string>, groups: seq<seq<Frag>>,
                          pending: seq<Frag>, t: TokenType, parts: seq<string>, j: nat, after: seq<Frag>,
                          ignore: set<TokenType>, target: seq<seq<Frag>>, texts: seq<string>)
  {
    && j < |parts|
    && lineno == |lines| + 1
    && Numbered(lines) && Pending(fmt, data)
    && LineTexts(lines) + [Concat(data) + parts[j]] + parts[j + 1..] == texts
    && Consolidating(lines, groups, fmt, data, pending, PartFrags(t, parts[j..]) + after, ignore, target)
  }

  /** A newline after piece j closes the pending line. */
  lemma CloseStep(lines: seq<Line>, lineno: nat, fmt: seq<Piece>, data: seq<string>, groups: seq<seq<Frag>>,
                  pending: seq<Frag>, t: TokenType, parts: seq<string>, j: nat, after: seq<Frag>,
                  ignore: set<TokenType>, target: seq<seq<Frag>>, texts: seq<string>)
    requires AtPiece(lines, lineno, fmt, data, groups, pending, t, parts, j, after, ignore, target, texts)
    requires j < |parts| - 1
    ensures var l := Line(lineno, fmt + FmtBit(t, ignore), data + [parts[j]]);
            AtPiece(lines + [l], lineno + 1, [], [], groups + [pending + [Frag(t, parts[j], true)]], [],
                    t, parts, j + 1, after, ignore, target, texts)
  {
    var bit := FmtBit(t, ignore);
    CloseLine(lines, fmt, data, bit, parts[j]);
    NextPiece(LineTexts(lines), Concat(data) + parts[j], parts, j, texts);
    PartFragsAt(t, parts, j, after);
    ConsolidateEnds(lines, groups, fmt, data, pending, PartFrags(t, parts[j..]) + after, ignore, target);
  }

  /** The last piece of a token joins the pending line when it is not empty. */
  lemma LastStep(lines: seq<Line>, lineno: nat, fmt: seq<Piece>, data: seq<string>, groups: seq<seq<Frag>>,
                 pending: seq<Frag>, t: TokenType, parts: seq<string>, after: seq<Frag>,
                 ignore: set<TokenType>, target: seq<seq<Frag>>, texts: seq<string>)
    requires |parts| >= 1
    requires AtPiece(lines, lineno, fmt, data, groups, pending, t, parts, |parts| - 1, after, ignore, target, texts)
    ensures var last := parts[|parts| - 1];
            var fmt' := if last == "" then fmt else fmt + FmtBit(t, ignore);
            var data' := if last == "" then data else data + [last];
            var pending' := if last == "" then pending else pending + [Frag(t, last, false)];
            && Pending(fmt', data')
            && LineTexts(lines) + [Concat(data')] == texts
            && Consolidating(lines, groups, fmt', data', pending', after, ignore, target)
  {
    var j := |parts| - 1;
    var last := parts[j];
    assert parts[j + 1..] == [];
    LastPieceFrags(t, parts);
    if last != "" {
      ExtendPending(fmt, data, FmtBit(t, ignore), last);
      var rest := [Frag(t, last, false)] + after;
      ConsolidateJoins(lines, groups, fmt, data, pending, rest, ignore, target);
      assert rest[1..] == after;
    } else {
      assert Concat(data) + last == Concat(data);
      assert [] + after == after;
    }
  }

  /** The body of the consolidator's loop for one token: each newline in its text closes
      the pending line with the piece before it, and a non-empty last piece joins the
      pending line. */
  method ConsumeToken(lines: seq<Line>, lineno: nat, fmt: seq<Piece>, data: seq<string>, tokens: seq<Tok>, i: nat,
                      ignore: set<TokenType>, ghost groups: seq<seq<Frag>>, ghost pending: seq<Frag>)
    returns (lines': seq<Line>, lineno': nat, fmt': seq<Piece>, data': seq<string>,
             ghost groups': seq<seq<Frag>>, ghost pending': seq<Frag>)
    requires i < |tokens|
    requires ConsumedUpTo(lines, lineno, fmt, data, groups, pending, tokens, i, ignore)
    ensures ConsumedUpTo(lines', lineno', fmt', data', groups', pending', tokens, i + 1, ignore)
  {
    EnterToken(lines, lineno, fmt, data, groups, pending, tokens, i, ignore);
    lines', lineno', fmt', data', groups', pending' := lines, lineno, fmt, data, groups, pending;
    var t := tokens[i];
    ghost var text := TextOf(tokens[..i]);
    ghost var after := Fragments(tokens[i + 1..]);
    ghost var target := Grouped(tokens);
    var bit := FmtBit(t.ttype, ignore);
    var parts := Split(t.value, '\n');
    ghost var texts := Split(text + t.value, '\n');
    SplitNextToken(LineTexts(lines), Concat(data), text, t.value);
    var j := 0;
    while j < |parts| - 1
      invariant 0 <= j <= |parts| - 1
      invariant AtPiece(lines', lineno', fmt', data', groups', pending', t.ttype, parts, j, after, ignore, target, texts)
    {
      CloseStep(lines', lineno', fmt', data', groups', pending', t.ttype, parts, j, after, ignore, target, texts);
      groups' := groups' + [pending' + [Frag(t.ttype, parts[j], true)]];
      pending' := [];
      fmt' := fmt' + bit;
      data' := data' + [parts[j]];
      lines' := lines' + [Line(lineno', fmt', data')];
      lineno' := lineno' + 1;
      fmt' := [];
      data' := [];
      j := j + 1;
    }
    var lastPart := parts[|parts| - 1];
    LastStep(lines', lineno', fmt', data', groups', pending', t.ttype, parts, after, ignore, target, texts);
    if lastPart != "" {
      pending' := pending' + [Frag(t.ttype, lastPart, false)];
      fmt' := fmt' + bit;
      data' := data' + [lastPart];
    }
    LeaveToken(lines', lineno', fmt', data', groups', pending', tokens, i, ignore);
  }

  /** The consolidator after the first i tokens: the lines closed so far and the pending
      line, as texts and as fragments. */
  ghost predicate ConsumedUpTo(lines: seq<Line>, lineno: nat, fmt: seq<Piece>, data: seq<string>,
                               groups: seq<seq<Frag>>, pending: seq<Frag>, tokens: seq<Tok>, i: nat,
                               ignore: set<TokenType>)
  {
    && i <= |tokens|
    && lineno == |lines| + 1
    && Numbered(lines) && Pending(fmt, data)
    && LineTexts(lines) + [Concat(data)] == Split(TextOf(tokens[..i]), '\n')
    && Consolidating(lines, groups, fmt, data, pending, Fragments(tokens[i..]), ignore, Grouped(tokens))
  }

  lemma ConsumedNone(tokens: seq<Tok>, ignore: set<TokenType>)
    ensures ConsumedUpTo([], 1, [], [], [], [], tokens, 0, ignore)
  {
    assert tokens[0..] == tokens && tokens[..0] == [];
  }

  /** Token i starts where the tokens before it left off. */
  lemma EnterToken(lines: seq<Line>, lineno: nat, fmt: seq<Piece>, data: seq<string>, groups: seq<seq<Frag>>,
                   pending: seq<Frag>, tokens: seq<Tok>, i: nat, ignore: set<TokenType>)
    requires i < |tokens| && ConsumedUpTo(lines, lineno, fmt, data, groups, pending, tokens, i, ignore)
    ensures Consolidating(lines, groups, fmt, data, pending,
                          PartFrags(tokens[i].ttype, Split(tokens[i].value, '\n')[0..]) + Fragments(tokens[i + 1..]),
                          ignore, Grouped(tokens))
  {
    FragmentsOfToken(tokens, i);
  }

  /** After token i the consolidator has consumed the first i + 1 tokens. */
  lemma LeaveToken(lines: seq<Line>, lineno: nat, fmt: seq<Piece>, data: seq<string>, groups: seq<seq<Frag>>,
                   pending: seq<Frag>, tokens: seq<Tok>, i: nat, ignore: set<TokenType>)
    requires i < |tokens|
    requires lineno == |lines| + 1
    requires Numbered(lines) && Pending(fmt, data)
    requires LineTexts(lines) + [Concat(data)] == Split(TextOf(tokens[..i]) + tokens[i].value, '\n')
    requires Consolidating(lines, groups, fmt, data, pending, Fragments(tokens[i + 1..]), ignore, Grouped(tokens))
    ensures ConsumedUpTo(lines, lineno, fmt, data, groups, pending, tokens, i + 1, ignore)
  {
    TextOfStep(tokens, i);
  }

  /** The lines the fragments of the tokens describe, one per group, in order. */
  ghost predicate LinesOfFragments(lines: seq<Line>, tokens: seq<Tok>, ignore: set<TokenType>) {
    var groups := Grouped(tokens);
    |lines| == |groups| && forall k :: 0 <= k < |lines| ==> LineOf(lines[k], groups[k], ignore)
  }

  /** Once no fragment is left, the pending line, when not empty, is the last group. */
  lemma ClosePending(lines: seq<Line>, lineno: nat, fmt: seq<Piece>, data: seq<string>, groups: seq<seq<Frag>>,
                     pending: seq<Frag>, ignore: set<TokenType>, target: seq<seq<Frag>>)
    requires Consolidating(lines, groups, fmt, data, pending, [], ignore, target)
    ensures var out := if fmt != [] then lines + [Line(lineno, fmt, data)] else lines;
            |out| == |target| && forall k :: 0 <= k < |out| ==> LineOf(out[k], target[k], ignore)
  {
    BitsNonEmpty(pending, ignore);
    var out := if fmt != [] then lines + [Line(lineno, fmt, data)] else lines;
    var gs := if fmt != [] then groups + [pending] else groups;
    assert gs == target;
    forall k | 0 <= k < |out| ensures LineOf(out[k], target[k], ignore) {
      if k < |lines| {
        assert out[k] == lines[k] && gs[k] == groups[k];
      }
    }
  }

  /** After the last token: the pending line, when not empty, is the last line, and
      the lines are then exactly the groups of the fragments. */
  lemma ConsolidatedLines(lines: seq<Line>, lineno: nat, fmt: seq<Piece>, data: seq<string>, groups: seq<seq<Frag>>,
                          pending: seq<Frag>, tokens: seq<Tok>, ignore: set<TokenType>, out: seq<Line>)
    requires ConsumedUpTo(lines, lineno, fmt, data, groups, pending, tokens, |tokens|, ignore)
    requires out == if fmt != [] then lines + [Line(lineno, fmt, data)] else lines
    ensures forall k :: 0 <= k < |out| ==> out[k].lineno == k + 1 && CountConversions(out[k].fmt) == |out[k].data|
    ensures LinesOfFragments(out, tokens, ignore)
    ensures LineTexts(out) == LinesOf(TextOf(tokens))
  {
    assert LineTexts(out) == LinesOf(TextOf(tokens)) by {
      assert tokens[..|tokens|] == tokens;
      LastLine(lines, fmt, data, TextOf(tokens));
    }
    assert LinesOfFragments(out, tokens, ignore) by {
      assert tokens[|tokens|..] == [];
      ClosePending(lines, lineno, fmt, data, groups, pending, ignore, Grouped(tokens));
    }
    forall k | 0 <= k < |out|
      ensures out[k].lineno == k + 1 && CountConversions(out[k].fmt) == |out[k].data|
    {
      if k < |lines| {
        assert out[k] == lines[k];
      } else {
        assert out[k] == Line(lineno, fmt, data);
      }
    }
  }

  /** The end of the consolidator: the pending line is yielded when it is not empty. */
  method FlushPending(lines: seq<Line>, lineno: nat, fmt: seq<Piece>, data: seq<string>, ghost groups: seq<seq<Frag>>,
                      ghost pending: seq<Frag>, tokens: seq<Tok>, ignore: set<TokenType>)
    returns (out: seq<Line>)
    requires ConsumedUpTo(lines, lineno, fmt, data, groups, pending, tokens, |tokens|, ignore)
    ensures forall k :: 0 <= k < |out| ==> out[k].lineno == k + 1 && CountConversions(out[k].fmt) == |out[k].data|
    ensures LinesOfFragments(out, tokens, ignore)
    ensures LineTexts(out) == LinesOf(TextOf(tokens))
  {
    out := lines;
    if fmt != [] {
      out := lines + [Line(lineno, fmt, data)];
    }
    ConsolidatedLines(lines, lineno, fmt, data, groups, pending, tokens, ignore, out);
  }

  class MagicFormatter {
    var showLines: bool
    var firstLine: int
    var lastLine: int
    var magicLines: map<int, string>
    /** The token types the style gives no colour (computed from the style table). */
    var ignoreTokens: set<TokenType>

    /** The options given or their defaults: line numbers shown, lines 1 to 65536, no
        magic lines. */
    constructor (showLines: Option<bool>, lineRange: Option<(int, int)>, magicLines: Option<map<int, string>>,
                 ignoreTokens: set<TokenType>)
      ensures this.showLines == (showLines != Some(false))
      ensures lineRange.None? ==> firstLine == 1 && lastLine == 65536
      ensures lineRange.Some? ==> firstLine == lineRange.value.0 && lastLine == lineRange.value.1
      ensures magicLines.None? ==> this.magicLines == map[]
      ensures magicLines.Some? ==> this.magicLines == magicLines.value
      ensures this.ignoreTokens == ignoreTokens
    {
      this.showLines := showLines != Some(false);
      if lineRange.Some? {
        firstLine, lastLine := lineRange.value.0, lineRange.value.1;
      } else {
        firstLine := 1;
        lastLine := 256 * 256;
      }
      this.magicLines := if magicLines.Some? then magicLines.value else map[];
      this.ignoreTokens := ignoreTokens;
    }

    /** _line_consolidator: the lines are numbered 1, 2, 3, …; each is the line its
        fragments describe, the fragments being the tokens' texts cut at the newlines,
        each carrying its token's '{type}%s' bit ('%s' for a type the style leaves
        uncoloured); their texts are the lines of the token text, each newline closing
        exactly one line and a final piece without a newline kept only when it is not
        empty; each line's format has one conversion per argument. */
    method LineConsolidator(tokens: seq<Tok>) returns (lines: seq<Line>)
      ensures forall k :: 0 <= k < |lines| ==>
                lines[k].lineno == k + 1 && CountConversions(lines[k].fmt) == |lines[k].data|
      ensures LinesOfFragments(lines, tokens, ignoreTokens)
      ensures LineTexts(lines) == LinesOf(TextOf(tokens))
    {
      var ignore := ignoreTokens;
      var fmt: seq<Piece> := [];
      var data: seq<string> := [];
      var lineno := 1;
      lines := [];
      ghost var groups: seq<seq<Frag>> := [];
      ghost var pending: seq<Frag> := [];
      ConsumedNone(tokens, ignore);
      var i := 0;
      while i < |tokens|
        invariant 0 <= i <= |tokens|
        invariant ConsumedUpTo(lines, lineno, fmt, data, groups, pending, tokens, i, ignore)
      {
        lines, lineno, fmt, data, groups, pending :=
          ConsumeToken(lines, lineno, fmt, data, tokens, i, ignore, groups, pending);
        i := i + 1;
      }
      lines := FlushPending(lines, lineno, fmt, data, groups, pending, tokens, ignore);
    }

    /** format: the formatter calls made for the token stream, exactly those of the
        lines numbered firstLine to lastLine, each line carrying its fragments' bits and
        texts, each call with as many conversions as arguments. */
    method Format(tokens: seq<Tok>) returns (out: seq<Emit>, ghost lines: seq<Line>)
      ensures forall k :: 0 <= k < |lines| ==> lines[k].lineno == k + 1
      ensures LinesOfFragments(lines, tokens, ignoreTokens)
      ensures LineTexts(lines) == LinesOf(TextOf(tokens))
      ensures out == Emitted(lines, firstLine, lastLine, showLines, magicLines)
      ensures var a := Clamp(firstLine - 1, 0, |lines|);
              out == DecorateAll(lines[a..Clamp(lastLine, a, |lines|)], showLines, magicLines)
      ensures Balanced(out)
    {
      var first, last := firstLine, lastLine;
      var ls := LineConsolidator(tokens);
      lines := ls;
      out := FormatLines(ls, first, last, showLines, magicLines);
      EmittedWindow(ls, 1, first, last, showLines, magicLines);
      var a := Clamp(first - 1, 0, |ls|);
      assert Clamp(last - 1 + 1, a, |ls|) == Clamp(last, a, |ls|);
      EmittedConversions(ls, first, last, showLines, magicLines);
    }
  }

  /** The body of format's loop for one line: the gutter, then the colour around it. */
  method DecorateLine(l: Line, show: bool, magic: map<int, string>) returns (call: Emit)
    ensures call == Decorate(l, show, magic)
  {
    var fmt := l.fmt;
    if show {
      fmt := [Tag("n"), Lit(PadLeft(NatToString(l.lineno), 5, ' ') + " ")] + fmt;
    }
    if l.lineno in magic {
      fmt := [Tag(magic[l.lineno])] + fmt + [Tag("-bg")];
    }
    call := Emit(fmt, Args(l.data));
  }

  /** The loop of format over the consolidated lines: skip lines before `first`, stop at
      the first line after `last`, decorate the others. */
  method FormatLines(ls: seq<Line>, first: int, last: int, show: bool, magic: map<int, string>)
    returns (out: seq<Emit>)
    ensures out == Emitted(ls, first, last, show, magic)
  {
    out := [];
    var i := 0;
    assert ls[0..] == ls;
    while i < |ls|
      invariant 0 <= i <= |ls|
      invariant Emitted(ls, first, last, show, magic) == out + Emitted(ls[i..], first, last, show, magic)
    {
      var l := ls[i];
      EmitStep(ls, i, out, first, last, show, magic);
      if l.lineno < first {
        i := i + 1;
        continue;
      }
      if l.lineno > last {
        break;
      }
      var call := DecorateLine(l, show, magic);
      out := out + [call];
      i := i + 1;
    }
    if i == |ls| {
      assert ls[i..] == [];
      assert out + [] == out;
    }
  }

  /** One line of the format loop: a skipped line emits nothing, a line past the window
      ends the listing, and any other line emits its decorated call. */
  lemma EmitStep(ls: seq<Line>, i: nat, out: seq<Emit>, first: int, last: int, show: bool,
                 magic: map<int, string>)
    requires i < |ls|
    requires Emitted(ls, first, last, show, magic) == out + Emitted(ls[i..], first, last, show, magic)
    ensures ls[i].lineno < first ==>
              Emitted(ls, first, last, show, magic) == out + Emitted(ls[i + 1..], first, last, show, magic)
    ensures ls[i].lineno > last && ls[i].lineno >= first ==> Emitted(ls, first, last, show, magic) == out
    ensures first <= ls[i].lineno <= last ==>
              Emitted(ls, first, last, show, magic) ==
                (out + [Decorate(ls[i], show, magic)]) + Emitted(ls[i + 1..], first, last, show, magic)
  {
    EmittedStep(ls, i, first, last, show, magic);
    var rest := Emitted(ls[i + 1..], first, last, show, magic);
    assert out + ([Decorate(ls[i], show, magic)] + rest) == (out + [Decorate(ls[i], show, magic)]) + rest;
    assert out + [] == out;
  }
}
