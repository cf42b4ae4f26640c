/**
 * The syntax-highlighted source listing command (gdbaudy/pyglist.py): the saved listing
 * context and the line range an argument selects, either around the current line in a
 * new context or relative to the last listed range when the position has not changed.
 *
 * The debugger supplies the selected frame (an identity), its file name and its line;
 * the check that the file exists only prints a message and the listing itself goes to
 * the highlighter, so neither is part of this model.
 */
module SourceList {
  import opened Wrappers
  import opened Text

  /** The identity of a debugger frame. */
  type FrameId = nat

  /** `map(int, parts)`: every part read as an integer, or the first failure. */
  function ParseAll(parts: seq<string>): (r: Result<seq<int>>)
    ensures r.Ok? ==> |r.value| == |parts|
  {
    if |parts| == 0 then Ok([])
    else
      var first :- ParseInt(parts[0]);
      var rest :- ParseAll(parts[1..]);
      Ok([first] + rest)
  }

  /** The range an argument selects in a new context, around the current line. */
  function NewContextRange(arg: string, line: int): (r: Result<Option<seq<int>>>)
    ensures r.Ok? && r.value.Some? ==> |r.value.value| == 2
  {
    if arg == "" then Ok(Some([line - 11, line + 8]))
    else if ' ' in arg then
      SplitSeveral(arg, ' ');
      var args :- ParseAll(Split(arg, ' '));
      Ok(Some([line - args[0], line + args[1]]))
    else if arg[0] == '-' then
      var n :- if |arg| == 1 then Ok(11) else ParseInt(arg[1..]);
      Ok(Some([line - n, line + 8]))
    else if arg[0] == '+' then
      var n :- ParseInt(arg[1..]);
      Ok(Some([line - 11, line + n]))
    else if IsDigitString(arg) then
      var n := DigitsValue(arg);
      Ok(Some([line - n / 2, line + n / 2]))
    else Ok(None)
  }

  /** The range an argument selects in the same context, relative to the last range. */
  function SameContextRange(arg: string, lastRange: seq<int>): (r: Result<Option<seq<int>>>)
    ensures r.Ok? && r.value.Some? ==> |r.value.value| == 2
  {
    if arg == "" then
      if |lastRange| < 2 then Err(IndexError) else Ok(Some([lastRange[1] + 1, lastRange[1] + 20]))
    else if ' ' in arg then
      SplitSeveral(arg, ' ');
      var args :- ParseAll(Split(arg, ' '));
      if |lastRange| < 2 then Err(IndexError) else Ok(Some([lastRange[1] - args[0] + 1, lastRange[1] + args[1]]))
    else if arg[0] == '-' then
      if |arg| == 1 then
        if |lastRange| < 1 then Err(IndexError) else Ok(Some([lastRange[0] - 20, lastRange[0] - 1]))
      else
        var n :- ParseInt(arg[1..]);
        if |lastRange| < 1 then Err(IndexError) else Ok(Some([lastRange[0] - n, lastRange[0] - 1]))
    else if IsDigitString(arg) then
      var n := DigitsValue(arg);
      if |lastRange| < 2 then Err(IndexError) else Ok(Some([lastRange[1] + 1, lastRange[1] + n]))
    else Ok(None)
  }

  /** The range the (already stripped) argument selects. `Ok(None)` is the "That is not a
      thing." answer; an exception from `int()` or from indexing the saved range is an
      `Err`. An '@' argument yields the whole list of numbers it holds, in any context. */
  function LineRange(arg: string, same: bool, line: int, lastRange: seq<int>): (r: Result<Option<seq<int>>>)
    ensures r.Ok? && r.value.Some? && !(|arg| > 0 && arg[0] == '@') ==> |r.value.value| == 2
  {
    if |arg| > 0 && arg[0] == '@' then
      var args :- ParseAll(Split(arg[1..], ','));
      Ok(Some(args))
    else if !same then NewContextRange(arg, line)
    else SameContextRange(arg, lastRange)
  }

  // ================================================================ the argument forms

  lemma IntToStringChars(i: int)
    ensures |IntToString(i)| > 0
    ensures forall k :: 0 <= k < |IntToString(i)| ==> IntToString(i)[k] == '-' || IsDigit(IntToString(i)[k])
    ensures IntToString(i)[0] == '-' || IsDigit(IntToString(i)[0])
  {
    if i < 0 {
      var d := NatToString(-i);
      assert forall k :: 1 <= k < |IntToString(i)| ==> IntToString(i)[k] == d[k - 1];
    }
  }

  /** Two numbers separated by one separator character split back into the two. */
  lemma SplitTwo(a: string, b: string, sep: char)
    requires sep !in a && sep !in b
    ensures Split(a + [sep] + b, sep) == [a, b]
  {
    SplitPieces(b, sep);
    var tail := [sep] + b;
    assert a + [sep] + b == a + tail;
    SplitPlainPrefix(a, tail, sep);
    assert tail[1..] == b && tail[0] == sep;
    assert Split(tail, sep) == [""] + [b];
    assert a + "" == a;
  }

  lemma ParseTwo(m: int, n: int, sep: char)
    requires sep != '-' && !IsDigit(sep)
    ensures ParseAll(Split(IntToString(m) + [sep] + IntToString(n), sep)) == Ok([m, n])
  {
    IntToStringChars(m);
    IntToStringChars(n);
    SplitTwo(IntToString(m), IntToString(n), sep);
    ParseIntToString(m);
    ParseIntToString(n);
    assert ParseAll([]) == Ok([]);
    var a, b := IntToString(m), IntToString(n);
    ParseAllCons(b, []);
    ParseAllCons(a, [b]);
    assert [b] + [] == [b] && [a] + [b] == [a, b];
    assert [n] + [] == [n] && [m] + [n] == [m, n];
    assert ParseAll([b]) == Ok([n]);
    assert ParseAll([a, b]) == Ok([m, n]);
  }

  lemma ParseAllCons(p: string, rest: seq<string>)
    requires ParseInt(p).Ok? && ParseAll(rest).Ok?
    ensures ParseAll([p] + rest) == Ok([ParseInt(p).value] + ParseAll(rest).value)
  {
    assert ([p] + rest)[0] == p && ([p] + rest)[1..] == rest;
  }

  /** A sign followed by a number: one word, not an '@' range, and its tail reads as
      the number. */
  lemma SignedArg(sign: char, n: int)
    requires sign == '-' || sign == '+'
    ensures var s := [sign] + IntToString(n);
            |s| > 1 && s[0] == sign && ' ' !in s && ParseInt(s[1..]) == Ok(n)
  {
    var s := [sign] + IntToString(n);
    IntToStringChars(n);
    assert s[1..] == IntToString(n);
    ParseIntToString(n);
  }

  /** Two numbers separated by a space: not an '@' range, and both parts read back. */
  lemma PairArg(m: int, n: int)
    ensures var s := IntToString(m) + " " + IntToString(n);
            |s| > 0 && s[0] != '@' && ' ' in s && ParseAll(Split(s, ' ')) == Ok([m, n])
  {
    var s := IntToString(m) + " " + IntToString(n);
    IntToStringChars(m);
    assert s[0] == IntToString(m)[0] && s[|IntToString(m)|] == ' ';
    assert s == IntToString(m) + [' '] + IntToString(n);
    ParseTwo(m, n, ' ');
  }

  /** '@A,B' selects lines A to B whatever the context. */
  lemma ExplicitRange(a: int, b: int, same: bool, line: int, lastRange: seq<int>)
    ensures LineRange("@" + IntToString(a) + "," + IntToString(b), same, line, lastRange) == Ok(Some([a, b]))
  {
    var s := "@" + IntToString(a) + "," + IntToString(b);
    assert s[1..] == IntToString(a) + [','] + IntToString(b);
    ParseTwo(a, b, ',');
  }

  /** 'M N' in a new context: M lines before the current line, N after. */
  lemma NewContextAround(m: int, n: int, line: int, lastRange: seq<int>)
    ensures LineRange(IntToString(m) + " " + IntToString(n), false, line, lastRange) == Ok(Some([line - m, line + n]))
  {
    var s := IntToString(m) + " " + IntToString(n);
    PairArg(m, n);
    assert LineRange(s, false, line, lastRange) == NewContextRange(s, line);
  }

  /** '-N' in a new context: N lines before the current line and 8 after; a lone '-'
      means 11 before. */
  lemma NewContextBefore(n: int, line: int, lastRange: seq<int>)
    ensures LineRange("-" + IntToString(n), false, line, lastRange) == Ok(Some([line - n, line + 8]))
    ensures LineRange("-", false, line, lastRange) == Ok(Some([line - 11, line + 8]))
  {
    var s := "-" + IntToString(n);
    SignedArg('-', n);
    assert s == ['-'] + IntToString(n);
    assert s != "" && s[0] != '@' && ' ' !in s && s[0] == '-' && |s| != 1;
    assert NewContextRange(s, line) == Ok(Some([line - n, line + 8]));
    assert "-"[0] == '-' && ' ' !in "-";
    assert NewContextRange("-", line) == Ok(Some([line - 11, line + 8]));
  }

  /** '+N' in a new context: 11 lines before the current line and N after. */
  lemma NewContextAfter(n: int, line: int, lastRange: seq<int>)
    ensures LineRange("+" + IntToString(n), false, line, lastRange) == Ok(Some([line - 11, line + n]))
  {
    var s := "+" + IntToString(n);
    SignedArg('+', n);
    assert s == ['+'] + IntToString(n);
    assert s != "" && s[0] != '@' && ' ' !in s && s[0] != '-' && s[0] == '+';
    assert NewContextRange(s, line) == Ok(Some([line - 11, line + n]));
  }

  /** 'N' in a new context: N // 2 lines on each side of the current line. */
  lemma NewContextCentred(n: nat, line: int, lastRange: seq<int>)
    ensures LineRange(NatToString(n), false, line, lastRange) == Ok(Some([line - n / 2, line + n / 2]))
  {
    NatToStringValue(n);
    assert ' ' !in NatToString(n);
  }

  /** 'N' in the same context: the N lines following the last range. */
  lemma SameContextForward(n: nat, line: int, lastRange: seq<int>)
    requires |lastRange| >= 2
    ensures LineRange(NatToString(n), true, line, lastRange) ==
              Ok(Some([lastRange[1] + 1, lastRange[1] + n]))
  {
    NatToStringValue(n);
    assert ' ' !in NatToString(n);
  }

  /** '-N' in the same context: the N lines preceding the last range; a lone '-' means 20. */
  lemma SameContextBackward(n: int, line: int, lastRange: seq<int>)
    requires |lastRange| >= 1
    ensures LineRange("-" + IntToString(n), true, line, lastRange) == Ok(Some([lastRange[0] - n, lastRange[0] - 1]))
    ensures LineRange("-", true, line, lastRange) == Ok(Some([lastRange[0] - 20, lastRange[0] - 1]))
  {
    var s := "-" + IntToString(n);
    SignedArg('-', n);
    assert s == ['-'] + IntToString(n);
    assert s != "" && s[0] != '@' && ' ' !in s && s[0] == '-' && |s| != 1;
    assert SameContextRange(s, lastRange) == Ok(Some([lastRange[0] - n, lastRange[0] - 1]));
    assert "-"[0] == '-' && ' ' !in "-";
    assert SameContextRange("-", lastRange) == Ok(Some([lastRange[0] - 20, lastRange[0] - 1]));
  }

  /** 'M N' in the same context: the last M lines of the last range and N lines after it. */
  lemma SameContextAround(m: int, n: int, line: int, lastRange: seq<int>)
    requires |lastRange| >= 2
    ensures LineRange(IntToString(m) + " " + IntToString(n), true, line, lastRange) ==
              Ok(Some([lastRange[1] - m + 1, lastRange[1] + n]))
  {
    PairArg(m, n);
  }

  /** '+N' is only understood in a new context. */
  lemma SameContextRejectsPlus(n: int, line: int, lastRange: seq<int>)
    ensures LineRange("+" + IntToString(n), true, line, lastRange) == Ok(None)
  {
    var s := "+" + IntToString(n);
    IntToStringChars(n);
    assert ' ' !in s;
    assert s[0] == '+' && !IsDigit(s[0]);
    assert s != "" && s[0] != '@' && s[0] != '-' && !IsDigitString(s);
    assert SameContextRange(s, lastRange) == Ok(None);
  }

  /** Paging with no argument continues where the last range ended, 20 lines at a time. */
  lemma SameContextPaging(line: int, lastRange: seq<int>)
    requires |lastRange| >= 2
    ensures var r := LineRange("", true, line, lastRange);
            r.Ok? && r.value.Some? && r.value.value[0] == lastRange[1] + 1 &&
            r.value.value[1] - r.value.value[0] == 19 &&
            LineRange("", true, line, r.value.value) == Ok(Some([lastRange[1] + 21, lastRange[1] + 40]))
  {
  }

  // ================================================================ GlobalContext

  class GlobalContext {
    var lastFrame: Option<FrameId>
    var lastFilename: Option<string>
    var lastLine: int
    var lastRange: seq<int>

    constructor ()
      ensures lastFrame == None && lastFilename == None && lastLine == 0 && lastRange == [0, 0]
    {
      lastFrame := None;
      lastFilename := None;
      lastLine := 0;
      lastRange := [0, 0];
    }

    /** The position has not changed since the last listing. */
    predicate SameContext(frame: FrameId, filename: string, line: int)
      reads this
    {
      lastFrame == Some(frame) && lastFilename == Some(filename) && lastLine == line
    }

    /** invoke: the position is saved whatever happens next; the range is computed from
        the stripped argument and saved only when one was selected. The range returned
        is the one handed to the highlighter. */
    method Invoke(frame: FrameId, filename: string, line: int, argStr: string) returns (r: Result<Option<seq<int>>>)
      modifies this
      ensures lastFrame == Some(frame) && lastFilename == Some(filename) && lastLine == line
      ensures r == LineRange(Strip(argStr), old(SameContext(frame, filename, line)), line, old(lastRange))
      ensures lastRange == if r.Ok? && r.value.Some? then r.value.value else old(lastRange)
      ensures SameContext(frame, filename, line)
    {
      var same := lastFrame == Some(frame) && lastFilename == Some(filename) && lastLine == line;
      lastFrame := Some(frame);
      lastFilename := Some(filename);
      lastLine := line;
      var arg := Strip(argStr);
      r := LineRange(arg, same, line, lastRange);
      if r.Ok? && r.value.Some? {
        lastRange := r.value.value;
      }
    }
  }
}
