/**
 * The hard denylist of tools_local.py: a command is blocked when the first
 * word shlex finds in it is exactly one of six command names.
 */
module Policy {
  import opened Results
  import opened Shlex

  const Denylist: seq<string> := ["rm", "rmdir", "sudo", "su", "chmod", "chown"]

  /** What the classifier raises: a lexing ValueError, or the IndexError of
      taking the first word of a command that has none. */
  datatype Fault = Lex(e: LexError) | IndexOutOfRange

  /** The first word of a command; the empty command has the empty word. */
  function FirstWord(cmd: string): (r: Result<string, Fault>)
    ensures cmd == [] ==> r == Ok([])
    ensures r.Ok? && cmd != [] ==> Split(cmd).Ok? && Split(cmd).value != [] && r.value == Split(cmd).value[0]
    ensures cmd != [] && Split(cmd).Ok? && Split(cmd).value != [] ==> r == Ok(Split(cmd).value[0])
    ensures cmd != [] && Split(cmd).Err? ==> r == Err(Lex(Split(cmd).error))
    ensures r == Err(IndexOutOfRange) <==> cmd != [] && Split(cmd) == Ok([])
  {
    if cmd == [] then Ok([])
    else
      match Split(cmd)
      case Err(e) => Err(Lex(e))
      case Ok(ws) => if ws == [] then Err(IndexOutOfRange) else Ok(ws[0])
  }

  /** `_is_blocked(cmd)`. */
  function IsBlocked(cmd: string): (r: Result<bool, Fault>)
    ensures cmd == [] ==> r == Ok(false)
    ensures r == Ok(true) <==> cmd != [] && Split(cmd).Ok? && Split(cmd).value != [] && Split(cmd).value[0] in Denylist
    ensures r.Err? <==> FirstWord(cmd).Err?
    ensures FirstWord(cmd).Err? ==> r == Err(FirstWord(cmd).error)
  {
    match FirstWord(cmd)
    case Err(f) => Err(f)
    case Ok(w) => Ok(w in Denylist)
  }

  /** For a list of words written with each word single-quoted, blocked exactly
      when the first word is on the list. */
  lemma BlockedIffFirstWordListed(ws: seq<string>)
    ensures IsBlocked(JoinWords(ws)) == Ok(ws != [] && ws[0] in Denylist)
  {
    SplitJoinWords(ws);
  }

  /** A plain first word after any blanks is compared exactly, case and all. */
  lemma BlockedPlainWord(a: string, w: string, rest: string)
    requires AllBlank(a) && AllPlain(w) && w != []
    requires rest == [] || IsBlank(rest[0])
    requires Split(rest).Ok?
    ensures IsBlocked(a + w + rest) == Ok(w in Denylist)
  {
    SplitPlainFirst(a, w, rest);
  }

  /** The verdict depends on the command only through its words. */
  lemma SameWordsSameVerdict(x: string, y: string)
    requires x != [] && y != [] && Split(x) == Split(y)
    ensures IsBlocked(x) == IsBlocked(y)
  {
  }

  /** Single quotes around a plain first word do not change its verdict. */
  lemma SingleQuotesDoNotHideWord(a: string, w: string, rest: string)
    requires AllBlank(a) && AllPlain(w) && w != []
    ensures IsBlocked(a + ("'" + w + "'" + rest)) == IsBlocked(w + rest)
  {
    SplitSingleQuotedPlain(w, rest);
    SplitSkipsBlanks(a, "'" + w + "'" + rest);
    SameWordsSameVerdict(a + ("'" + w + "'" + rest), w + rest);
  }

  /** Double quotes around a plain first word do not change its verdict. */
  lemma DoubleQuotesDoNotHideWord(a: string, w: string, rest: string)
    requires AllBlank(a) && AllPlain(w) && w != []
    ensures IsBlocked(a + ("\"" + w + "\"" + rest)) == IsBlocked(w + rest)
  {
    SplitDoubleQuotedPlain(w, rest);
    SplitSkipsBlanks(a, "\"" + w + "\"" + rest);
    SameWordsSameVerdict(a + ("\"" + w + "\"" + rest), w + rest);
  }

  /** A backslash before the first character does not hide the word:
      `\rm` is blocked like `rm`. */
  lemma BackslashDoesNotHideWord(a: string, c: char, rest: string)
    requires AllBlank(a) && IsPlain(c)
    ensures IsBlocked(a + (['\\', c] + rest)) == IsBlocked([c] + rest)
  {
    SplitEscapedPlain(c, rest);
    SplitSkipsBlanks(a, ['\\', c] + rest);
    SameWordsSameVerdict(a + (['\\', c] + rest), [c] + rest);
  }

  /** `\rm -rf /` is blocked. */
  lemma EscapedRmRfBlocked(cmd: string)
    requires cmd == "\\rm -rf /"
    ensures IsBlocked(cmd) == Ok(true)
  {
    BackslashDoesNotHideWord([], 'r', "m -rf /");
    assert [] + (['\\', 'r'] + "m -rf /") == cmd;
    RmRfBlocked("rm -rf /");
    assert ['r'] + "m -rf /" == "rm -rf /";
  }

  /** A non-empty command of blanks only has no first word: `[0]` raises. */
  lemma BlanksRaise(cmd: string)
    requires cmd != [] && AllBlank(cmd)
    ensures IsBlocked(cmd) == Err(IndexOutOfRange)
  {
    BlanksHaveNoWords(cmd);
  }

  /** An unclosed single quote raises even after a listed first word. */
  lemma UnclosedQuoteRaises(w: string, x: string)
    requires AllPlain(w) && w != []
    requires forall i :: 0 <= i < |x| ==> x[i] != '\''
    ensures IsBlocked(w + (" '" + x)) == Err(Lex(NoClosingQuotation))
  {
    SplitUnclosedSecond(w, x);
  }

  /** Each of the six listed names is blocked as a first word, whatever follows it. */
  lemma ListedNamesBlocked(a: string, k: nat, rest: string)
    requires k < |Denylist|
    requires AllBlank(a) && (rest == [] || IsBlank(rest[0])) && Split(rest).Ok?
    ensures IsBlocked(a + Denylist[k] + rest) == Ok(true)
  {
    BlockedPlainWord(a, Denylist[k], rest);
  }

  /** Near misses are not blocked: the comparison is exact and case-sensitive. */
  lemma LookAlikesNotBlocked(a: string, w: string, rest: string)
    requires w == "RM" || w == "/bin/rm" || w == "rmx" || w == "Sudo"
    requires AllBlank(a) && (rest == [] || IsBlank(rest[0])) && Split(rest).Ok?
    ensures IsBlocked(a + w + rest) == Ok(false)
  {
    BlockedPlainWord(a, w, rest);
  }

  /** `rm -rf /` is blocked. */
  lemma RmRfBlocked(cmd: string)
    requires cmd == "rm -rf /"
    ensures IsBlocked(cmd) == Ok(true)
  {
    SplitWithoutQuoting(" -rf /");
    BlockedPlainWord([], "rm", " -rf /");
    assert [] + "rm" + " -rf /" == cmd;
  }
}
