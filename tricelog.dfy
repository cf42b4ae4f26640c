/**
 * The string helpers of the tracing-breakpoint logger (gdbaudy/tricelog.py): making a
 * source path relative to the source-tree root, and picking a value out of the text of a
 * debugger command's answer.
 */
module TraceLog {
  import opened Wrappers
  import opened Text

  /** `os.path.sep` */
  const Sep: char := '/'

  /** `^(gecko|mozilla)` matches at the start of the segment. */
  predicate IsTreeRoot(part: string) {
    StartsWith(part, "gecko") || StartsWith(part, "mozilla")
  }

  /** The index of the first segment, from `i` on, that names the tree root. */
  function FirstRoot(parts: seq<string>, i: nat): (r: Option<nat>)
    ensures r.Some? ==> i <= r.value < |parts| && IsTreeRoot(parts[r.value])
    ensures r.Some? ==> forall j :: i <= j < r.value ==> !IsTreeRoot(parts[j])
    ensures r.None? ==> forall j :: i <= j < |parts| ==> !IsTreeRoot(parts[j])
    decreases |parts| - i
  {
    if i >= |parts| then None
    else if IsTreeRoot(parts[i]) then Some(i)
    else FirstRoot(parts, i + 1)
  }

  /** normalize_path: an empty or missing path is returned as it is; otherwise the
      segments after the first one naming the tree root, or the path unchanged when no
      segment does. */
  function NormalizePath(path: Option<string>): Option<string>
  {
    if path.None? || path.value == "" then path
    else
      var parts := Split(path.value, Sep);
      match FirstRoot(parts, 0)
      case Some(i) => Some(Join(parts[i + 1..], Sep))
      case None => path
  }

  /** A normalised path is always a suffix of the path; it drops exactly the segments up
      to and including the first tree-root segment, and is the path itself when there is
      none. */
  lemma NormalizePathSuffix(path: string)
    ensures NormalizePath(Some(path)).Some?
    ensures IsSuffix(NormalizePath(Some(path)).value, path)
    ensures var parts := Split(path, Sep);
            (forall j :: 0 <= j < |parts| ==> !IsTreeRoot(parts[j])) ==> NormalizePath(Some(path)) == Some(path)
    ensures var parts := Split(path, Sep);
            forall i :: 0 <= i < |parts| && IsTreeRoot(parts[i]) && (forall j :: 0 <= j < i ==> !IsTreeRoot(parts[j])) ==>
              NormalizePath(Some(path)) == Some(Join(parts[i + 1..], Sep))
  {
    if path != "" {
      var parts := Split(path, Sep);
      match FirstRoot(parts, 0)
      case Some(i) =>
        JoinTailIsSuffix(parts, Sep, i + 1);
        JoinSplit(path, Sep);
      case None =>
    }
  }

  lemma NormalizePathEmpty()
    ensures NormalizePath(None) == None && NormalizePath(Some("")) == Some("")
  {
  }

  /** The text of execExtractPostColon before coercion: from two characters after the
      first ':' to the end (empty when the answer ends sooner); a ValueError without ':'. */
  function PostColonText(s: string): (r: Result<string>)
    ensures r.Err? <==> ':' !in s
  {
    match IndexOf(s, ':', 0)
    case None => Err(ValueError)
    case Some(i) => Ok(if i + 2 <= |s| then s[i + 2..] else "")
  }

  /** execExtractPostColon with its default coercion, int(). */
  function ExtractPostColon(s: string): Result<int>
  {
    var text :- PostColonText(s);
    ParseInt(text)
  }

  /** An answer of the form 'tag: value' with a tag free of ':' yields the value. */
  lemma PostColonOfTagged(tag: string, text: string)
    requires ':' !in tag
    ensures PostColonText(tag + ": " + text) == Ok(text)
  {
    var s := tag + ": " + text;
    assert s[|tag|] == ':';
    assert IndexOf(s, ':', 0) == Some(|tag|);
    assert s[|tag| + 2..] == text;
  }

  lemma ExtractPostColonOfNumber(tag: string, n: int)
    requires ':' !in tag
    ensures ExtractPostColon(tag + ": " + IntToString(n)) == Ok(n)
  {
    PostColonOfTagged(tag, IntToString(n));
    ParseIntToString(n);
  }

  /** execExtractInsideParens: the text between the first '(' and the first ')' after
      it; a ValueError when either is missing. */
  function ExtractInsideParens(s: string): (r: Result<string>)
    ensures r.Ok? ==> ')' !in r.value
    ensures r.Err? <==> '(' !in s || IndexOf(s, ')', IndexOf(s, '(', 0).value + 1).None?
  {
    match IndexOf(s, '(', 0)
    case None => Err(ValueError)
    case Some(open) =>
      match IndexOf(s, ')', open + 1)
      case None => Err(ValueError)
      case Some(close) => Ok(s[open + 1..close])
  }

  /** A name in parentheses after a text without '(' is extracted exactly. */
  lemma InsideParensOfNamed(before: string, name: string, after: string)
    requires '(' !in before && ')' !in name
    ensures ExtractInsideParens(before + "(" + name + ")" + after) == Ok(name)
  {
    var s := before + "(" + name + ")" + after;
    var open := |before|;
    assert s[open] == '(';
    assert IndexOf(s, '(', 0) == Some(open);
    assert s[open + 1 + |name|] == ')';
    assert forall j :: open + 1 <= j < open + 1 + |name| ==> s[j] == name[j - open - 1];
    assert IndexOf(s, ')', open + 1) == Some(open + 1 + |name|);
    assert s[open + 1..open + 1 + |name|] == name;
  }
}
