/**
 * The terminal formatter (pyflam.py): xterm-256 colour codes, the colour-tag map, the
 * indent level, and the rendering of one message — its '%' conversions truncated and
 * padded, its '{tag}' colour and '{.N}' alignment tags substituted, a reset appended
 * after colour, and every line indented.
 *
 * The regular expression that finds conversions and tags in the message is not part of
 * this model: a message is given already cut into its literal text and its matches.
 */
module Flam {
  import opened Wrappers
  import opened Text

  // ================================================================ colour codes

  datatype Rgb = Rgb(r: nat, g: nat, b: nat)

  /** The 16 base ANSI colours. */
  const AnsiTable: seq<Rgb> := [
    Rgb(0, 0, 0), Rgb(170, 0, 0), Rgb(0, 170, 0), Rgb(170, 85, 0),
    Rgb(0, 0, 170), Rgb(170, 0, 170), Rgb(0, 170, 170), Rgb(170, 170, 170),
    Rgb(85, 85, 85), Rgb(255, 85, 85), Rgb(85, 255, 85), Rgb(255, 255, 85),
    Rgb(85, 85, 255), Rgb(255, 85, 255), Rgb(85, 255, 255), Rgb(255, 255, 255)]

  /** One axis of the 6x6x6 colour cube: `d and (d * 40 + 55)`. */
  function Component(d: nat): nat {
    if d == 0 then 0 else d * 40 + 55
  }

  /** _crack_colorcode. A negative code below 16 indexes the base table from its end,
      as a Python tuple does, and fails below -16. */
  function CrackColorcode(c: int): Result<Rgb> {
    if c < 16 then
      if c >= 0 then Ok(AnsiTable[c])
      else if c >= -16 then Ok(AnsiTable[16 + c])
      else Err(IndexError)
    else if c < 232 then
      var k := c - 16;
      Ok(Rgb(Component(k / 36), Component(k / 6 % 6), Component(k % 6)))
    else
      var level := (c - 232) * 10 + 8;
      Ok(Rgb(level, level, level))
  }

  const CubeLevels: set<nat> := {0, 95, 135, 175, 215, 255}

  /** The cube index of a cube component (the inverse of Component). */
  function Level(v: nat): nat {
    if v < 55 then 0 else (v - 55) / 40
  }

  /** The code of a cube colour. */
  function CubeCode(rgb: Rgb): int {
    16 + 36 * Level(rgb.r) + 6 * Level(rgb.g) + Level(rgb.b)
  }

  /** Codes 16..231 decode to cube components only, and encoding the components again
      gives back the code. */
  lemma CrackCube(c: int)
    requires 16 <= c < 232
    ensures CrackColorcode(c).Ok?
    ensures var rgb := CrackColorcode(c).value;
            rgb.r in CubeLevels && rgb.g in CubeLevels && rgb.b in CubeLevels && CubeCode(rgb) == c
  {
    var k := c - 16;
    assert CrackColorcode(c) == Ok(Rgb(Component(k / 36), Component(k / 6 % 6), Component(k % 6)));
    CubeDigits(k);
    LevelOfComponent(k / 36);
    LevelOfComponent(k / 6 % 6);
    LevelOfComponent(k % 6);
  }

  /** A cube index is three base-6 digits. */
  lemma CubeDigits(k: int)
    requires 0 <= k < 216
    ensures 0 <= k / 36 < 6 && 0 <= k / 6 % 6 < 6 && 0 <= k % 6 < 6
    ensures k == 36 * (k / 36) + 6 * (k / 6 % 6) + k % 6
  {
    var q := k / 6;
    assert k == 6 * q + k % 6;
    assert q == 6 * (q / 6) + q % 6;
    assert q / 6 == k / 36;
  }

  lemma LevelOfComponent(d: nat)
    requires d < 6
    ensures Component(d) in CubeLevels && Level(Component(d)) == d
  {
  }

  /** Codes from 232 on are greys: the three components are equal, ten apart per code,
      and the code can be read back from the level. */
  lemma CrackGray(c: int)
    requires c >= 232
    ensures CrackColorcode(c).Ok?
    ensures var rgb := CrackColorcode(c).value;
            rgb.r == rgb.g == rgb.b == (c - 232) * 10 + 8 && (rgb.r - 8) / 10 + 232 == c
  {
  }

  lemma CrackBase(c: int)
    requires 0 <= c < 16
    ensures CrackColorcode(c) == Ok(AnsiTable[c])
  {
  }

  /** '%02x': two lower-case hexadecimal digits for a byte. */
  function Hex2(n: nat): string {
    PadLeft(NatToHex(n), 2, '0')
  }

  lemma HexWidth(n: nat)
    requires n < 256
    ensures |NatToHex(n)| <= 2
  {
    if n >= 16 {
      assert |NatToHex(n / 16)| == 1;
    }
  }

  lemma {:induction false} HexValueLeadingZero(h: string)
    requires forall i :: 0 <= i < |h| ==> IsHexDigit(h[i])
    ensures HexValue("0" + h) == HexValue(h)
    decreases |h|
  {
    if |h| > 0 {
      var s := "0" + h;
      assert s[..|s| - 1] == "0" + h[..|h| - 1];
      HexValueLeadingZero(h[..|h| - 1]);
    }
  }

  /** A byte in '%02x' form is two hexadecimal digits that read back as the byte. */
  lemma Hex2Byte(n: nat)
    requires n < 256
    ensures |Hex2(n)| == 2 && (forall i :: 0 <= i < 2 ==> IsHexDigit(Hex2(n)[i])) && HexValue(Hex2(n)) == n
  {
    HexWidth(n);
    NatToHexValue(n);
    var h := NatToHex(n);
    if |h| == 1 {
      assert Hex2(n) == "0" + h;
      HexValueLeadingZero(h);
    }
  }

  /** FlamHTML._colorcode_to_hex: '%02x%02x%02x' of the decoded colour. */
  function ColorcodeToHex(c: int): Result<string> {
    var rgb :- CrackColorcode(c);
    Ok(Hex2(rgb.r) + Hex2(rgb.g) + Hex2(rgb.b))
  }

  /** Every colour a code from 0 to 255 decodes to has byte-sized components. */
  lemma CrackByte(c: int)
    requires 0 <= c < 256
    ensures CrackColorcode(c).Ok?
    ensures var rgb := CrackColorcode(c).value; rgb.r < 256 && rgb.g < 256 && rgb.b < 256
  {
    if c < 16 {
      assert CrackColorcode(c).value in AnsiTable;
    } else if c < 232 {
      CrackCube(c);
    }
  }

  lemma HexTriple(a: string, b: string, c: string)
    requires |a| == 2 && |b| == 2 && |c| == 2
    ensures var s := a + b + c; s[0..2] == a && s[2..4] == b && s[4..6] == c
  {
  }

  /** `s` is six hexadecimal digits whose pairs read as the three components of `rgb`. */
  predicate IsCssColour(s: string, rgb: Rgb) {
    |s| == 6 && (forall i :: 0 <= i < 6 ==> IsHexDigit(s[i])) &&
    HexValue(s[0..2]) == rgb.r && HexValue(s[2..4]) == rgb.g && HexValue(s[4..6]) == rgb.b
  }

  /** Every 256-colour code has a six-digit CSS colour, whose three digit pairs read back
      as the decoded components. */
  lemma ColorcodeToHexDigits(c: int)
    requires 0 <= c < 256
    ensures ColorcodeToHex(c).Ok? && IsCssColour(ColorcodeToHex(c).value, CrackColorcode(c).value)
  {
    CrackByte(c);
    var rgb := CrackColorcode(c).value;
    Hex2Byte(rgb.r);
    Hex2Byte(rgb.g);
    Hex2Byte(rgb.b);
    var h0, h1, h2 := Hex2(rgb.r), Hex2(rgb.g), Hex2(rgb.b);
    assert ColorcodeToHex(c) == Ok(h0 + h1 + h2);
    HexTriple(h0, h1, h2);
    var s := h0 + h1 + h2;
    assert HexValue(s[0..2]) == rgb.r;
    assert HexValue(s[2..4]) == rgb.g;
    assert HexValue(s[4..6]) == rgb.b;
  }

  // ================================================================ conversions

  /** An argument of a message: the formatter only ever needs `str()` of it or, for 'x',
      its integer value. */
  datatype Arg = IntArg(i: int) | StrArg(s: string)

  /** `str(arg)` */
  function Str(a: Arg): string {
    match a
    case IntArg(i) => IntToString(i)
    case StrArg(s) => s
  }

  /** `'0x%x' % arg`: a negative number keeps its sign after the '0x'; a string is a
      TypeError. */
  function HexArg(a: Arg): (r: Result<string>)
    ensures a.IntArg? <==> r.Ok?
  {
    match a
    case IntArg(i) => Ok("0x" + (if i < 0 then "-" + NatToHex(-i) else NatToHex(i)))
    case StrArg(_) => Err(TypeError)
  }

  /** A non-negative 'x' argument renders as '0x' and lower-case hexadecimal digits that
      read back as the number. */
  lemma HexArgValue(i: nat)
    ensures HexArg(IntArg(i)).Ok?
    ensures var s := HexArg(IntArg(i)).value;
            StartsWith(s, "0x") && (forall k :: 2 <= k < |s| ==> IsHexDigit(s[k])) && HexValue(s[2..]) == i
  {
    NatToHexValue(i);
    assert HexArg(IntArg(i)).value[2..] == NatToHex(i);
  }

  /** The precision of a conversion: 64000 when it has no precision digits. */
  function Limit(precision: Option<nat>): nat {
    if precision.Some? then precision.value else 64000
  }

  /** Truncate to the precision, then pad with spaces to the minimum width, on the right
      when the flags contain '-', else on the left. */
  function FormatConversion(v: string, flags: string, width: nat, precision: Option<nat>): string {
    var limit := Limit(precision);
    var t := if |v| > limit then v[..limit] else v;
    if |t| < width then
      if '-' in flags then t + Spaces(width - |t|) else Spaces(width - |t|) + t
    else t
  }

  /** The rendered conversion is the value cut to the precision, with spaces making up
      the minimum width on the side the '-' flag selects. */
  lemma FormatConversionShape(v: string, flags: string, width: nat, precision: Option<nat>)
    ensures var r, limit, mini := FormatConversion(v, flags, width, precision), Limit(precision), width;
            var kept := Min(|v|, limit);
            |r| == Max(mini, kept) &&
            ('-' in flags ==> r[..kept] == v[..kept] && forall i :: kept <= i < |r| ==> r[i] == ' ') &&
            ('-' !in flags ==> r[|r| - kept..] == v[..kept] && forall i :: 0 <= i < |r| - kept ==> r[i] == ' ')
  {
  }

  // ================================================================ one message

  /** What the message pattern splits a message into: text between matches, a '%'
      conversion, or a '{...}' tag. A conversion holds its flags, its width (0 when it has
      no width digits, which reads the same), its precision (None when it has no precision
      digits) and its letter, one of 's', 'd', 'x'. */
  datatype Piece = Lit(text: string) | Conv(flags: string, width: nat, precision: Option<nat>, kind: char) | Tag(name: string)

  /** The state map_helper threads through the matches: the output column, the next
      argument, and whether a colour was switched on. */
  datatype MapState = MapState(offset: int, iarg: nat, needRestore: bool)

  predicate IsColourTag(p: Piece) {
    p.Tag? && |p.name| > 0 && p.name[0] != '.'
  }

  predicate IsAlignTag(p: Piece) {
    p.Tag? && |p.name| > 0 && p.name[0] == '.'
  }

  /** map_helper on one piece (literal text only moves the column). */
  function ApplyPiece(cmap: map<string, string>, args: seq<Arg>, st: MapState, p: Piece): Result<(string, MapState)>
  {
    match p
    case Lit(t) => Ok((t, st.(offset := st.offset + |t|)))
    case Conv(flags, width, precision, kind) =>
      if st.iarg >= |args| then Err(IndexError)
      else
        var v :- if kind == 'x' then HexArg(args[st.iarg]) else Ok(Str(args[st.iarg]));
        var out := FormatConversion(v, flags, width, precision);
        Ok((out, st.(offset := st.offset + |out|, iarg := st.iarg + 1)))
    case Tag(name) =>
      if |name| == 0 then Err(IndexError)
      else if name[0] == '.' then
        var column :- ParseInt(name[1..]);
        Ok((Spaces(column - st.offset), st.(offset := column)))
      else if name in cmap then Ok((cmap[name], st.(needRestore := true)))
      else Err(KeyError)
  }

  /** The substitution over the pieces, in order. */
  function Substituted(cmap: map<string, string>, args: seq<Arg>, st: MapState, pieces: seq<Piece>)
    : Result<(string, MapState)>
  {
    if |pieces| == 0 then Ok(("", st))
    else
      var pre :- Substituted(cmap, args, st, pieces[..|pieces| - 1]);
      var last :- ApplyPiece(cmap, args, pre.1, pieces[|pieces| - 1]);
      Ok((pre.0 + last.0, last.1))
  }

  /** The number of '%' conversions among the pieces. */
  function CountConversions(pieces: seq<Piece>): nat {
    if |pieces| == 0 then 0
    else CountConversions(pieces[..|pieces| - 1]) + (if pieces[|pieces| - 1].Conv? then 1 else 0)
  }

  lemma {:induction false} CountConversionsAppend(a: seq<Piece>, b: seq<Piece>)
    ensures CountConversions(a + b) == CountConversions(a) + CountConversions(b)
    decreases |b|
  {
    if |b| == 0 {
      assert a + b == a;
    } else {
      var n := |b| - 1;
      assert (a + b)[..|a + b| - 1] == a + b[..n];
      CountConversionsAppend(a, b[..n]);
    }
  }

  lemma {:induction false} CountConversionsNone(pieces: seq<Piece>)
    requires forall i :: 0 <= i < |pieces| ==> !pieces[i].Conv?
    ensures CountConversions(pieces) == 0
    decreases |pieces|
  {
    if |pieces| > 0 {
      CountConversionsNone(pieces[..|pieces| - 1]);
    }
  }

  /** Some piece is a colour tag. */
  predicate HasColourTag(pieces: seq<Piece>) {
    |pieces| > 0 && (HasColourTag(pieces[..|pieces| - 1]) || IsColourTag(pieces[|pieces| - 1]))
  }

  lemma {:induction false} HasColourTagExists(pieces: seq<Piece>)
    ensures HasColourTag(pieces) <==> exists i :: 0 <= i < |pieces| && IsColourTag(pieces[i])
    decreases |pieces|
  {
    if |pieces| > 0 {
      var n := |pieces| - 1;
      HasColourTagExists(pieces[..n]);
      assert forall i :: 0 <= i < n ==> pieces[..n][i] == pieces[i];
    }
  }

  /** One piece consumes an argument exactly when it is a conversion, and asks for a
      reset exactly when it is a colour tag. */
  lemma ApplyPieceState(cmap: map<string, string>, args: seq<Arg>, st: MapState, p: Piece)
    requires ApplyPiece(cmap, args, st, p).Ok?
    ensures var st1 := ApplyPiece(cmap, args, st, p).value.1;
            st1.iarg == st.iarg + (if p.Conv? then 1 else 0) &&
            st1.needRestore == (st.needRestore || IsColourTag(p))
  {
  }

  /** Each conversion consumes exactly one argument, in order; a reset is needed exactly
      when some colour tag was substituted. */
  lemma {:induction false} SubstitutedState(cmap: map<string, string>, args: seq<Arg>, st: MapState, pieces: seq<Piece>)
    requires Substituted(cmap, args, st, pieces).Ok?
    ensures var st1 := Substituted(cmap, args, st, pieces).value.1;
            st1.iarg == st.iarg + CountConversions(pieces) &&
            (st1.needRestore <==> st.needRestore || exists i :: 0 <= i < |pieces| && IsColourTag(pieces[i]))
  {
    SubstitutedCounts(cmap, args, st, pieces);
    HasColourTagExists(pieces);
  }

  lemma {:induction false} SubstitutedCounts(cmap: map<string, string>, args: seq<Arg>, st: MapState, pieces: seq<Piece>)
    requires Substituted(cmap, args, st, pieces).Ok?
    ensures var st1 := Substituted(cmap, args, st, pieces).value.1;
            st1.iarg == st.iarg + CountConversions(pieces) &&
            st1.needRestore == (st.needRestore || HasColourTag(pieces))
    decreases |pieces|
  {
    if |pieces| > 0 {
      var n := |pieces| - 1;
      SubstitutedCounts(cmap, args, st, pieces[..n]);
      var pre := Substituted(cmap, args, st, pieces[..n]).value;
      ApplyPieceState(cmap, args, pre.1, pieces[n]);
    }
  }

  /** Without any tag the output column ends at the starting column plus the length of
      the output. */
  lemma {:induction false} SubstitutedColumn(cmap: map<string, string>, args: seq<Arg>, st: MapState, pieces: seq<Piece>)
    requires Substituted(cmap, args, st, pieces).Ok?
    requires forall i :: 0 <= i < |pieces| ==> !pieces[i].Tag?
    ensures var r := Substituted(cmap, args, st, pieces).value;
            r.1.offset == st.offset + |r.0|
    decreases |pieces|
  {
    if |pieces| > 0 {
      var n := |pieces| - 1;
      assert forall i :: 0 <= i < n ==> pieces[..n][i] == pieces[i];
      SubstitutedColumn(cmap, args, st, pieces[..n]);
    }
  }

  lemma SubstitutedStep(cmap: map<string, string>, args: seq<Arg>, st: MapState, pieces: seq<Piece>, i: nat)
    requires i < |pieces|
    ensures Substituted(cmap, args, st, pieces[..i + 1]) ==
              match Substituted(cmap, args, st, pieces[..i])
              case Err(e) => Err(e)
              case Ok(pre) =>
                match ApplyPiece(cmap, args, pre.1, pieces[i])
                case Err(e) => Err(e)
                case Ok(last) => Ok((pre.0 + last.0, last.1))
  {
    assert pieces[..i + 1][..i] == pieces[..i];
  }

  lemma {:induction false} SubstitutedFailed(cmap: map<string, string>, args: seq<Arg>, st: MapState, pieces: seq<Piece>, i: nat)
    requires i <= |pieces| && Substituted(cmap, args, st, pieces[..i]).Err?
    ensures Substituted(cmap, args, st, pieces) == Substituted(cmap, args, st, pieces[..i])
    decreases |pieces| - i
  {
    if i == |pieces| {
      assert pieces[..i] == pieces;
    } else {
      SubstitutedStep(cmap, args, st, pieces, i);
      SubstitutedFailed(cmap, args, st, pieces, i + 1);
    }
  }

  // ---------------------------------------------------------------- indentation

  /** `s.replace('\n', '\n' + ind)` */
  function ReplaceNewlines(s: string, ind: string): string
    decreases |s|
  {
    if |s| == 0 then ""
    else (if s[0] == '\n' then "\n" + ind else [s[0]]) + ReplaceNewlines(s[1..], ind)
  }

  /** `ind + s.replace('\n', '\n' + ind)` */
  function Indented(s: string, ind: string): string {
    ind + ReplaceNewlines(s, ind)
  }

  /** Each line with `ind` in front of it. */
  function PrefixAll(ind: string, lines: seq<string>): (r: seq<string>)
    ensures |r| == |lines|
  {
    if |lines| == 0 then [] else [ind + lines[0]] + PrefixAll(ind, lines[1..])
  }

  lemma SplitAfterPrefix(ind: string, z: string)
    requires '\n' !in ind
    ensures Split(ind + z, '\n') == [ind + Split(z, '\n')[0]] + Split(z, '\n')[1..]
  {
    SplitPlainPrefix(ind, z, '\n');
  }

  lemma {:induction false} ReplaceNewlinesLines(s: string, ind: string)
    requires '\n' !in ind
    ensures var lines := Split(s, '\n');
            Split(ReplaceNewlines(s, ind), '\n') == [lines[0]] + PrefixAll(ind, lines[1..])
    decreases |s|
  {
    if |s| > 0 {
      var rest := ReplaceNewlines(s[1..], ind);
      var lines1 := Split(s[1..], '\n');
      ReplaceNewlinesLines(s[1..], ind);
      if s[0] == '\n' {
        var y := ind + rest;
        assert ReplaceNewlines(s, ind) == "\n" + y;
        assert ("\n" + y)[1..] == y;
        SplitAfterPrefix(ind, rest);
        assert Split(y, '\n') == PrefixAll(ind, lines1);
      } else {
        var y := rest;
        assert ReplaceNewlines(s, ind) == [s[0]] + y;
        assert ([s[0]] + y)[1..] == y;
      }
    }
  }

  /** After indentation every line of the output is the corresponding line of the
      message with the indent in front. */
  lemma IndentedLines(s: string, ind: string)
    requires '\n' !in ind
    ensures Split(Indented(s, ind), '\n') == PrefixAll(ind, Split(s, '\n'))
  {
    ReplaceNewlinesLines(s, ind);
    SplitAfterPrefix(ind, ReplaceNewlines(s, ind));
  }

  /** The post-processing of __call__: append the 'n' colour after a colour tag, then
      indent every line when the indent level is not zero. */
  function Finish(cmap: map<string, string>, indentLevel: int, sub: (string, MapState)): (r: Result<string>)
    ensures r.Ok? && !sub.1.needRestore && indentLevel == 0 ==> r.value == sub.0
    ensures r.Ok? && sub.1.needRestore && indentLevel == 0 ==> "n" in cmap && r.value == sub.0 + cmap["n"]
    ensures r.Err? <==> sub.1.needRestore && "n" !in cmap
  {
    var o :- if sub.1.needRestore then (if "n" in cmap then Ok(sub.0 + cmap["n"]) else Err(KeyError)) else Ok(sub.0);
    Ok(if indentLevel != 0 then Indented(o, Spaces(indentLevel)) else o)
  }

  /** The text __call__ prints for a message. */
  function Render(cmap: map<string, string>, indentLevel: int, msg: seq<Piece>, args: seq<Arg>): Result<string>
  {
    var sub :- Substituted(cmap, args, MapState(indentLevel, 0, false), msg);
    Finish(cmap, indentLevel, sub)
  }

  /** The indent is put in front of every line of the rendered message. */
  lemma FinishIndents(cmap: map<string, string>, indentLevel: int, sub: (string, MapState))
    requires indentLevel > 0 && Finish(cmap, indentLevel, sub).Ok?
    ensures var o := if sub.1.needRestore then sub.0 + cmap["n"] else sub.0;
            Split(Finish(cmap, indentLevel, sub).value, '\n') == PrefixAll(Spaces(indentLevel), Split(o, '\n'))
  {
    var o := if sub.1.needRestore then sub.0 + cmap["n"] else sub.0;
    IndentedLines(o, Spaces(indentLevel));
  }

  // ================================================================ FlamOut

  /** The escape sequence selecting 256-colour foreground `code`. */
  function FgEscape(code: int): string {
    "\U{1b}[38;5;" + IntToString(code) + "m"
  }

  /** The escape sequence selecting 256-colour background `code`. */
  function BgEscape(code: int): string {
    "\U{1b}[48;5;" + IntToString(code) + "m"
  }

  /** The colour tags init_map defines, in order, with their foreground codes. */
  const Palette: seq<(string, int)> := [
    ("h", 127), ("n", 0xf8), ("bn", 0xff), ("e", 124), ("w", 220), ("g", 46), ("s", 0xee),
    ("fn", 0x4d), ("cn", 0x41), ("jfn", 0xc9), ("in", 0x49), ("sn", 0x35), ("ln", 0x34),
    ("ex", 81), ("k", 129), ("v", 38)]

  /** The map a sequence of map_fg calls leaves behind on an empty map. */
  function FgMap(tags: seq<(string, int)>): map<string, string> {
    if |tags| == 0 then map[]
    else FgMap(tags[..|tags| - 1])[tags[|tags| - 1].0 := FgEscape(tags[|tags| - 1].1)]
  }

  lemma FgMapStep(tags: seq<(string, int)>, i: nat)
    requires i < |tags|
    ensures FgMap(tags[..i + 1]) == FgMap(tags[..i])[tags[i].0 := FgEscape(tags[i].1)]
  {
    assert tags[..i + 1][..i] == tags[..i];
  }

  lemma UnionUpdate(m: map<string, string>, f: map<string, string>, k: string, v: string)
    ensures m + f[k := v] == (m + f)[k := v]
  {
  }

  /** Every tag defined along the way is in the map. */
  lemma {:induction false} FgMapDefines(tags: seq<(string, int)>, i: nat)
    requires i < |tags|
    ensures tags[i].0 in FgMap(tags)
    decreases |tags|
  {
    var n := |tags| - 1;
    if i < n {
      FgMapDefines(tags[..n], i);
      assert tags[..n][i] == tags[i];
    }
  }

  class FlamOut {
    var cmap: map<string, string>
    var indentLevel: int

    /** The indent is never negative and the reset colour 'n' is always defined. */
    ghost predicate Valid()
      reads this
    {
      indentLevel >= 0 && "n" in cmap
    }

    constructor ()
      ensures Valid()
      ensures cmap == FgMap(Palette) && indentLevel == 0
    {
      cmap := map[];
      indentLevel := 0;
      new;
      InitMap();
      FgMapDefines(Palette, 1);
    }

    /** init_map: map_fg for each tag of the palette, in order. */
    method InitMap()
      modifies this
      ensures cmap == old(cmap) + FgMap(Palette)
      ensures indentLevel == old(indentLevel)
    {
      MapAllFg(Palette);
    }

    /** map_fg for each (tag, code) pair, in order. */
    method MapAllFg(tags: seq<(string, int)>)
      modifies this
      ensures cmap == old(cmap) + FgMap(tags)
      ensures indentLevel == old(indentLevel)
    {
      var i := 0;
      while i < |tags|
        invariant 0 <= i <= |tags|
        invariant cmap == old(cmap) + FgMap(tags[..i]) && indentLevel == old(indentLevel)
      {
        FgMapStep(tags, i);
        UnionUpdate(old(cmap), FgMap(tags[..i]), tags[i].0, FgEscape(tags[i].1));
        MapFg(tags[i].0, tags[i].1);
        i := i + 1;
      }
      assert tags[..i] == tags;
    }

    /** map_fg */
    method MapFg(name: string, code: int)
      modifies this
      ensures cmap == old(cmap)[name := FgEscape(code)] && indentLevel == old(indentLevel)
    {
      cmap := cmap[name := FgEscape(code)];
    }

    /** map_bg */
    method MapBg(name: string, code: int)
      modifies this
      ensures cmap == old(cmap)[name := BgEscape(code)] && indentLevel == old(indentLevel)
    {
      cmap := cmap[name := BgEscape(code)];
    }

    /** i: adjust the indent level, clamping at zero. */
    method I(indentAdjust: int)
      requires Valid()
      modifies this
      ensures Valid()
      ensures indentLevel == Max(0, old(indentLevel) + indentAdjust) && cmap == old(cmap)
    {
      indentLevel := indentLevel + indentAdjust;
      if indentLevel < 0 {
        indentLevel := 0;
      }
    }

    /** __call__: the text printed for the message (the printing itself is left out). */
    method Call(msg: seq<Piece>, args: seq<Arg>) returns (r: Result<string>)
      requires Valid()
      ensures r == Render(cmap, indentLevel, msg, args)
      ensures r.Ok?  ==> var lines := Split(r.value, '\n');
                         forall i :: 0 <= i < |lines| ==> StartsWith(lines[i], Spaces(indentLevel))
    {
      var st := MapState(indentLevel, 0, false);
      var ostr := "";
      var i := 0;
      while i < |msg|
        invariant 0 <= i <= |msg|
        invariant Substituted(cmap, args, MapState(indentLevel, 0, false), msg[..i]) == Ok((ostr, st))
      {
        SubstitutedStep(cmap, args, MapState(indentLevel, 0, false), msg, i);
        var step := ApplyPiece(cmap, args, st, msg[i]);
        if step.Err? {
          SubstitutedFailed(cmap, args, MapState(indentLevel, 0, false), msg, i + 1);
          return Err(step.error);
        }
        ostr := ostr + step.value.0;
        st := step.value.1;
        i := i + 1;
      }
      assert msg[..i] == msg;
      if st.needRestore {
        ostr := ostr + cmap["n"];
      }
      if indentLevel != 0 {
        var indent := Spaces(indentLevel);
        IndentedLines(ostr, indent);
        PrefixAllStarts(indent, Split(ostr, '\n'));
        ostr := Indented(ostr, indent);
      } else {
        assert Spaces(indentLevel) == "";
      }
      r := Ok(ostr);
    }
  }

  lemma {:induction false} PrefixAllStarts(ind: string, lines: seq<string>)
    ensures forall i :: 0 <= i < |lines| ==> StartsWith(PrefixAll(ind, lines)[i], ind)
    decreases |lines|
  {
    if |lines| > 0 {
      PrefixAllStarts(ind, lines[1..]);
      forall i | 0 <= i < |lines| ensures StartsWith(PrefixAll(ind, lines)[i], ind) {
        if i == 0 {
          assert (ind + lines[0])[..|ind|] == ind;
        } else {
          assert PrefixAll(ind, lines)[i] == PrefixAll(ind, lines[1..])[i - 1];
        }
      }
    }
  }
}
