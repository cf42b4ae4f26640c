/**
 * The Python string operations the modelled code relies on: split and join on a
 * one-character separator, prefix tests, strip(), int(), and decimal and hexadecimal
 * rendering of integers.
 */
module Text {
  import opened Wrappers

  function Min(a: int, b: int): int { if a < b then a else b }

  function Max(a: int, b: int): int { if a < b then b else a }

  predicate StartsWith(s: string, prefix: string) {
    |prefix| <= |s| && s[..|prefix|] == prefix
  }

  predicate IsSuffix(t: string, s: string) {
    |t| <= |s| && s[|s| - |t|..] == t
  }

  /** Python's `s.split(sep)` for a one-character separator. */
  function Split(s: string, sep: char): (parts: seq<string>)
    ensures |parts| >= 1
    decreases |s|
  {
    if |s| == 0 then [""]
    else
      var rest := Split(s[1..], sep);
      if s[0] == sep then [""] + rest
      else [[s[0]] + rest[0]] + rest[1..]
  }

  /** A string holding the separator splits into at least two pieces. */
  lemma SplitSeveral(s: string, sep: char)
    requires sep in s
    ensures |Split(s, sep)| >= 2
  {
    SplitPieces(s, sep);
  }

  /** Split returns the whole string alone exactly when the separator does not occur,
      and no piece contains the separator. */
  lemma {:induction false} SplitPieces(s: string, sep: char)
    ensures |Split(s, sep)| == 1 <==> sep !in s
    ensures |Split(s, sep)| == 1 ==> Split(s, sep)[0] == s
    ensures forall i :: 0 <= i < |Split(s, sep)| ==> sep !in Split(s, sep)[i]
    decreases |s|
  {
    if |s| > 0 {
      SplitPieces(s[1..], sep);
      assert s == [s[0]] + s[1..];
      var rest := Split(s[1..], sep);
      if s[0] != sep {
        var parts := Split(s, sep);
        assert parts[0] == [s[0]] + rest[0];
        forall i | 0 < i < |parts| ensures sep !in parts[i] {
          assert parts[i] == rest[i];
        }
      }
    }
  }

  /** Python's `sep.join(parts)` for a one-character separator. */
  function Join(parts: seq<string>, sep: char): string
  {
    if |parts| == 0 then ""
    else if |parts| == 1 then parts[0]
    else parts[0] + [sep] + Join(parts[1..], sep)
  }

  /** Splitting and joining again on the same separator gives back the string. */
  lemma {:induction false} JoinSplit(s: string, sep: char)
    ensures Join(Split(s, sep), sep) == s
    decreases |s|
  {
    if |s| > 0 {
      var rest := Split(s[1..], sep);
      JoinSplit(s[1..], sep);
      if s[0] == sep {
        assert Split(s, sep) == [""] + rest;
        assert ([""] + rest)[1..] == rest;
      } else if |rest| == 1 {
        assert Split(s, sep) == [[s[0]] + rest[0]];
      } else {
        var parts := Split(s, sep);
        assert parts[1..] == rest[1..];
        assert Join(rest, sep) == rest[0] + [sep] + Join(rest[1..], sep);
        assert s == [s[0]] + s[1..];
      }
    }
  }

  /** Joining a tail of the parts gives a suffix of the joined whole. */
  lemma {:induction false} JoinTailIsSuffix(parts: seq<string>, sep: char, i: nat)
    requires i <= |parts|
    ensures IsSuffix(Join(parts[i..], sep), Join(parts, sep))
    decreases i
  {
    if i > 0 {
      var whole := Join(parts, sep);
      var tail := Join(parts[1..], sep);
      if |parts| > 1 {
        assert whole == parts[0] + [sep] + tail;
        assert whole[|whole| - |tail|..] == tail;
      } else {
        assert parts[i..] == [];
      }
      JoinTailIsSuffix(parts[1..], sep, i - 1);
      assert parts[1..][i - 1..] == parts[i..];
    }
  }

  /** The pieces of a + b: the last piece of a and the first piece of b fuse into one. */
  function Fuse(sa: seq<string>, sb: seq<string>): seq<string>
    requires |sa| >= 1 && |sb| >= 1
  {
    sa[..|sa| - 1] + [sa[|sa| - 1] + sb[0]] + sb[1..]
  }

  lemma FuseAfterSeparator(sa: seq<string>, sb: seq<string>)
    requires |sa| >= 1 && |sb| >= 1
    ensures [""] + Fuse(sa, sb) == Fuse([""] + sa, sb)
  {
    assert ([""] + sa)[..|sa|] == [""] + sa[..|sa| - 1];
  }

  lemma FuseAfterChar(c: char, sa: seq<string>, sb: seq<string>)
    requires |sa| >= 1 && |sb| >= 1
    ensures var r := Fuse(sa, sb);
            [[c] + r[0]] + r[1..] == Fuse([[c] + sa[0]] + sa[1..], sb)
  {
    var r := Fuse(sa, sb);
    var sa2 := [[c] + sa[0]] + sa[1..];
    if |sa| == 1 {
      assert r == [sa[0] + sb[0]] + sb[1..];
      assert [c] + (sa[0] + sb[0]) == ([c] + sa[0]) + sb[0];
    } else {
      assert r[0] == sa[0];
      assert r[1..] == sa[1..|sa| - 1] + [sa[|sa| - 1] + sb[0]] + sb[1..];
      assert sa2[..|sa2| - 1] == [[c] + sa[0]] + sa[1..|sa| - 1];
    }
  }

  /** The split of a concatenation fuses the last piece of the first part with the
      first piece of the second part. */
  lemma {:induction false} SplitAppend(a: string, b: string, sep: char)
    ensures Split(a + b, sep) == Fuse(Split(a, sep), Split(b, sep))
    decreases |a|
  {
    var sb := Split(b, sep);
    if |a| > 0 {
      assert (a + b)[1..] == a[1..] + b;
      assert (a + b)[0] == a[0];
      SplitAppend(a[1..], b, sep);
      if a[0] == sep {
        FuseAfterSeparator(Split(a[1..], sep), sb);
      } else {
        FuseAfterChar(a[0], Split(a[1..], sep), sb);
      }
    } else {
      assert a + b == b;
      assert "" + sb[0] == sb[0];
      assert Fuse([""], sb) == [sb[0]] + sb[1..];
    }
  }

  /** A prefix without the separator joins the first piece of what follows it. */
  lemma {:induction false} SplitPlainPrefix(a: string, t: string, sep: char)
    requires sep !in a
    ensures Split(a + t, sep) == [a + Split(t, sep)[0]] + Split(t, sep)[1..]
    decreases |a|
  {
    var st := Split(t, sep);
    if |a| == 0 {
      assert a + t == t && a + st[0] == st[0];
    } else {
      assert (a + t)[0] == a[0] && (a + t)[1..] == a[1..] + t;
      SplitPlainPrefix(a[1..], t, sep);
      assert [a[0]] + (a[1..] + st[0]) == a + st[0];
    }
  }

  /** Number of occurrences of a character. */
  function Count(s: string, c: char): nat
  {
    if |s| == 0 then 0 else (if s[0] == c then 1 else 0) + Count(s[1..], c)
  }

  /** Split yields one more piece than there are separators. */
  lemma {:induction false} SplitLength(s: string, sep: char)
    ensures |Split(s, sep)| == Count(s, sep) + 1
    decreases |s|
  {
    if |s| > 0 {
      SplitLength(s[1..], sep);
    }
  }

  /** Count distributes over concatenation. */
  lemma {:induction false} CountAppend(a: string, b: string, c: char)
    ensures Count(a + b, c) == Count(a, c) + Count(b, c)
    decreases |a|
  {
    if |a| > 0 {
      assert (a + b)[1..] == a[1..] + b;
      CountAppend(a[1..], b, c);
    } else {
      assert a + b == b;
    }
  }

  // ---------------------------------------------------------------- whitespace

  /** The characters Python's `str.strip()` removes (ASCII only). */
  predicate IsSpace(c: char) {
    c == ' ' || c == '\t' || c == '\n' || c == '\r' || c == '\U{0b}' || c == '\U{0c}'
  }

  function TrimLeft(s: string): (t: string)
    ensures IsSuffix(t, s)
    ensures |t| > 0 ==> !IsSpace(t[0])
    ensures forall i :: 0 <= i < |s| - |t| ==> IsSpace(s[i])
  {
    if |s| > 0 && IsSpace(s[0]) then TrimLeft(s[1..]) else s
  }

  function TrimRight(s: string): (t: string)
    ensures StartsWith(s, t)
    ensures |t| > 0 ==> !IsSpace(t[|t| - 1])
    ensures forall i :: |t| <= i < |s| ==> IsSpace(s[i])
  {
    if |s| > 0 && IsSpace(s[|s| - 1]) then TrimRight(s[..|s| - 1]) else s
  }

  predicate IsSign(c: char) { c == '-' || c == '+' }

  /** Python's `str.strip()`. */
  function Strip(s: string): string
  {
    TrimRight(TrimLeft(s))
  }

  // ---------------------------------------------------------------- decimal

  predicate IsDigit(c: char) { '0' <= c <= '9' }

  predicate AllDigits(s: string) { forall i :: 0 <= i < |s| ==> IsDigit(s[i]) }

  /** Python's `str.isdigit()` on ASCII text. */
  predicate IsDigitString(s: string) { |s| > 0 && AllDigits(s) }

  function DigitChar(d: nat): (c: char)
    requires d < 10
    ensures IsDigit(c) && (c as int) - ('0' as int) == d
  {
    (('0' as int) + d) as char
  }

  function DigitsValue(s: string): nat
    requires AllDigits(s)
  {
    if |s| == 0 then 0 else 10 * DigitsValue(s[..|s| - 1]) + ((s[|s| - 1] as int) - ('0' as int))
  }

  /** `'%d' % n` for a non-negative n. */
  function NatToString(n: nat): (s: string)
    ensures IsDigitString(s)
  {
    if n < 10 then [DigitChar(n)] else NatToString(n / 10) + [DigitChar(n % 10)]
  }

  /** `str(i)` / `'%d' % i` for any integer. */
  function IntToString(i: int): string
  {
    if i < 0 then "-" + NatToString(-i) else NatToString(i)
  }

  /** Reading back the decimal rendering gives the number. */
  lemma {:induction false} NatToStringValue(n: nat)
    ensures DigitsValue(NatToString(n)) == n
  {
    if n >= 10 {
      NatToStringValue(n / 10);
      var s := NatToString(n);
      assert s[..|s| - 1] == NatToString(n / 10);
    }
  }

  function Pow10(w: nat): (p: nat)
    ensures p > 0
  {
    if w == 0 then 1 else 10 * Pow10(w - 1)
  }

  /** A number below 10^w takes at most w decimal digits. */
  lemma {:induction false} NatToStringWidth(n: nat, w: nat)
    requires 0 < w && n < Pow10(w)
    ensures |NatToString(n)| <= w
  {
    if n >= 10 {
      assert w > 1;
      assert n / 10 < Pow10(w - 1);
      NatToStringWidth(n / 10, w - 1);
    }
  }

  /** int() skips the spaces a right-aligned number is padded with. */
  lemma {:induction false} ParseIntPadded(k: nat, d: string)
    requires IsDigitString(d)
    ensures ParseInt(seq(k, _ => ' ') + d) == Ok(DigitsValue(d))
  {
    var s := seq(k, _ => ' ') + d;
    if k == 0 {
      assert s == d;
      ParseIntOfDigits(d);
    } else {
      assert s[1..] == seq(k - 1, _ => ' ') + d;
      ParseIntPadded(k - 1, d);
    }
  }

  /** Python's `s.index(c, from)`, as an Option: the first position at or after `from`
      holding `c`. */
  function IndexOf(s: string, c: char, from: nat): (r: Option<nat>)
    ensures r.Some? ==> from <= r.value < |s| && s[r.value] == c
    ensures r.Some? ==> forall j :: from <= j < r.value ==> s[j] != c
    ensures r.None? ==> forall j :: from <= j < |s| ==> s[j] != c
    decreases |s| - from
  {
    if from >= |s| then None
    else if s[from] == c then Some(from)
    else IndexOf(s, c, from + 1)
  }

  /** Python 2's `int(s)` of a byte string: whitespace, an optional sign, more whitespace,
      ASCII digits, then whitespace. The sign and the whitespace after it are read by
      `strtol`, which hands the rest to `strtoul`, and that skips whitespace once more.
      The surrounding whitespace is dropped one character at a time, from the left and
      then from the right. */
  function ParseInt(s: string): (r: Result<int>)
    ensures r.Err? ==> r.error == ValueError
    decreases |s|
  {
    if |s| > 0 && IsSpace(s[0]) then ParseInt(s[1..])
    else if |s| > 0 && IsSpace(s[|s| - 1]) then ParseInt(s[..|s| - 1])
    else if |s| > 0 && IsSign(s[0]) then
      var body := TrimLeft(s[1..]);
      if IsDigitString(body) then
        Ok(if s[0] == '-' then -(DigitsValue(body) as int) else DigitsValue(body))
      else Err(ValueError)
    else if IsDigitString(s) then Ok(DigitsValue(s))
    else Err(ValueError)
  }

  /** The integer literal Python 2's `int()` accepts once the surrounding whitespace is
      stripped: a digit string, or a sign followed by whitespace and a digit string. */
  function IntLiteral(u: string): Result<int>
  {
    if IsDigitString(u) then Ok(DigitsValue(u))
    else if |u| > 0 && IsSign(u[0]) && IsDigitString(TrimLeft(u[1..])) then
      var digits := TrimLeft(u[1..]);
      Ok(if u[0] == '-' then -(DigitsValue(digits) as int) else DigitsValue(digits))
    else Err(ValueError)
  }

  /** `int(s)` is the literal of `s.strip()`. */
  lemma {:induction false} ParseIntStripped(s: string)
    ensures ParseInt(s) == IntLiteral(Strip(s))
    decreases |s|
  {
    if |s| > 0 && IsSpace(s[0]) {
      ParseIntStripped(s[1..]);
      StripStep(s);
    } else if |s| > 0 && IsSpace(s[|s| - 1]) {
      ParseIntStripped(s[..|s| - 1]);
      StripStep(s);
    } else {
      StripStep(s);
      ParseIntBare(s);
    }
  }

  /** How `Strip` sees the first and the last character. */
  lemma StripStep(s: string)
    ensures |s| > 0 && IsSpace(s[0]) ==> Strip(s) == Strip(s[1..])
    ensures |s| > 0 && !IsSpace(s[0]) && IsSpace(s[|s| - 1]) ==> Strip(s) == Strip(s[..|s| - 1])
    ensures !(|s| > 0 && IsSpace(s[0])) && !(|s| > 0 && IsSpace(s[|s| - 1])) ==> Strip(s) == s
  {
    if |s| > 0 && !IsSpace(s[0]) && IsSpace(s[|s| - 1]) {
      var p := s[..|s| - 1];
      assert TrimLeft(s) == s && TrimLeft(p) == p;
    }
  }

  /** Without surrounding whitespace `int()` reads the literal itself. */
  lemma ParseIntBare(s: string)
    requires !(|s| > 0 && IsSpace(s[0])) && !(|s| > 0 && IsSpace(s[|s| - 1]))
    ensures ParseInt(s) == IntLiteral(s)
  {
    if |s| > 0 && IsSign(s[0]) {
      assert !IsDigitString(s) by { assert !IsDigit(s[0]); }
    }
  }

  /** Whitespace may follow the sign. */
  lemma ParseIntSignSpace()
    ensures ParseInt("- 5") == Ok(-5) && ParseInt("+\t5") == Ok(5)
  {
    assert "- 5"[1..] == " 5" && " 5"[1..] == "5";
    assert "+\t5"[1..] == "\t5" && "\t5"[1..] == "5";
    assert TrimLeft("5") == "5" && DigitsValue("5") == 5;
  }

  /** Whitespace may not split the digits or stand alone after the sign. */
  lemma ParseIntRejects()
    ensures ParseInt("5 5").Err? && ParseInt("-").Err? && ParseInt("- ").Err?
  {
    assert !IsDigitString("5 5") by { assert !IsDigit("5 5"[1]); }
    assert "-"[1..] == [];
    assert "- "[..1] == "-";
  }

  /** `int(str(i)) == i`. */
  lemma ParseIntToString(i: int)
    ensures ParseInt(IntToString(i)) == Ok(i)
  {
    var s := IntToString(i);
    if i < 0 {
      var digits := NatToString(-i);
      NatToStringValue(-i);
      assert s == "-" + digits;
      assert s[1..] == digits;
      assert TrimLeft(digits) == digits;
      assert !IsSpace(s[0]) && !IsSpace(s[|s| - 1]);
    } else {
      NatToStringValue(i);
      ParseIntOfDigits(s);
    }
  }

  /** `int()` of a plain digit string is its decimal value. */
  lemma ParseIntOfDigits(s: string)
    requires IsDigitString(s)
    ensures ParseInt(s) == Ok(DigitsValue(s))
  {
    assert !IsSpace(s[0]) && !IsSpace(s[|s| - 1]);
  }

  // ---------------------------------------------------------------- hexadecimal

  predicate IsHexDigit(c: char) { '0' <= c <= '9' || 'a' <= c <= 'f' }

  function HexDigitChar(d: nat): (c: char)
    requires d < 16
    ensures IsHexDigit(c)
  {
    if d < 10 then DigitChar(d) else (('a' as int) + d - 10) as char
  }

  function HexDigitValue(c: char): nat
    requires IsHexDigit(c)
  {
    if c <= '9' then (c as int) - ('0' as int) else (c as int) - ('a' as int) + 10
  }

  function HexValue(s: string): nat
    requires forall i :: 0 <= i < |s| ==> IsHexDigit(s[i])
  {
    if |s| == 0 then 0 else 16 * HexValue(s[..|s| - 1]) + HexDigitValue(s[|s| - 1])
  }

  /** `'%x' % n` for a non-negative n: lower-case hexadecimal digits, no leading zeros. */
  function NatToHex(n: nat): (s: string)
    ensures |s| >= 1 && forall i :: 0 <= i < |s| ==> IsHexDigit(s[i])
    ensures n < 16 <==> |s| == 1
  {
    if n < 16 then [HexDigitChar(n)] else NatToHex(n / 16) + [HexDigitChar(n % 16)]
  }

  /** Reading back the hexadecimal rendering gives the number. */
  lemma {:induction false} NatToHexValue(n: nat)
    ensures HexValue(NatToHex(n)) == n
  {
    if n >= 16 {
      NatToHexValue(n / 16);
      var s := NatToHex(n);
      assert s[..|s| - 1] == NatToHex(n / 16);
    }
  }

  /** Left-pad with a fill character to a minimum width. */
  function PadLeft(s: string, width: nat, fill: char): (t: string)
    ensures |t| == if |s| < width then width else |s|
    ensures IsSuffix(s, t)
    ensures forall i :: 0 <= i < |t| - |s| ==> t[i] == fill
  {
    if |s| < width then seq(width - |s|, _ => fill) + s else s
  }

  /** A run of n spaces (`' ' * n`; a negative n gives the empty string). */
  function Spaces(n: int): (s: string)
    ensures |s| == if n < 0 then 0 else n
    ensures forall i :: 0 <= i < |s| ==> s[i] == ' '
  {
    if n <= 0 then "" else seq(n, _ => ' ')
  }
}
