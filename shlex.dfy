/**
 * The word splitting `shlex.split` performs in its default configuration:
 * POSIX mode, whitespace splitting, no comment characters. Its rules
 * approximate the quoting of the POSIX Shell Command Language, section 2.2:
 * a backslash outside quotes keeps the next character literally, single
 * quotes keep everything up to the closing quote, and inside double quotes
 * a backslash escapes only `"` and `\`. Unlike the shell, a backslash before
 * `$`, a backquote or a newline inside double quotes stays a backslash, and
 * a backslash-newline is no line continuation. Quoted and unquoted pieces
 * that touch form one word.
 */
module Shlex {
  import opened Results

  /** The two ValueErrors shlex raises while splitting. */
  datatype LexError = NoClosingQuotation | NoEscapedCharacter

  /** shlex's `whitespace` attribute. */
  predicate IsBlank(c: char) { c == ' ' || c == '\t' || c == '\r' || c == '\n' }

  predicate AllBlank(s: string) {
    forall i :: 0 <= i < |s| ==> IsBlank(s[i])
  }

  /** A character with no lexical meaning: it always stands for itself. */
  predicate IsPlain(c: char) { !IsBlank(c) && c != '\'' && c != '"' && c != '\\' }

  predicate AllPlain(s: string) {
    forall i :: 0 <= i < |s| ==> IsPlain(s[i])
  }

  /** Where the lexer is inside the word it is reading. */
  datatype Mode = Unquoted | SingleQuoted | DoubleQuoted

  /** Skips the blanks before a word (see `DropBlanksDropsBlanks`). */
  function DropBlanks(s: string): (r: string)
    ensures |r| <= |s|
    ensures r == [] || !IsBlank(r[0])
  {
    if s != [] && IsBlank(s[0]) then DropBlanks(s[1..]) else s
  }

  /**
   * Reads the rest of a word, `word` being what has been read so far, and
   * returns the finished word with the input left after the blank that ends
   * it. Every step consumes input, so the rest is shorter than `s`
   * whenever `s` is not empty.
   */
  function ReadWord(s: string, mode: Mode, word: string): (r: Result<(string, string), LexError>)
    ensures r.Ok? ==> |r.value.1| <= |s|
    ensures r.Ok? && s != [] ==> |r.value.1| < |s|
    decreases |s|
  {
    match mode
    case Unquoted =>
      if s == [] then Ok((word, []))
      else if IsBlank(s[0]) then Ok((word, s[1..]))
      else if s[0] == '\\' then
        if |s| == 1 then Err(NoEscapedCharacter)
        else ReadWord(s[2..], Unquoted, word + [s[1]])
      else if s[0] == '\'' then ReadWord(s[1..], SingleQuoted, word)
      else if s[0] == '"' then ReadWord(s[1..], DoubleQuoted, word)
      else ReadWord(s[1..], Unquoted, word + [s[0]])
    case SingleQuoted =>
      if s == [] then Err(NoClosingQuotation)
      else if s[0] == '\'' then ReadWord(s[1..], Unquoted, word)
      else ReadWord(s[1..], SingleQuoted, word + [s[0]])
    case DoubleQuoted =>
      if s == [] then Err(NoClosingQuotation)
      else if s[0] == '"' then ReadWord(s[1..], Unquoted, word)
      else if s[0] == '\\' then
        if |s| == 1 then Err(NoEscapedCharacter)
        else if s[1] == '"' || s[1] == '\\' then ReadWord(s[2..], DoubleQuoted, word + [s[1]])
        else ReadWord(s[2..], DoubleQuoted, word + ['\\', s[1]])
      else ReadWord(s[1..], DoubleQuoted, word + [s[0]])
  }

  /** `shlex.split(s)`: all the words of `s`, or the error that splitting raises. */
  function Split(s: string): Result<seq<string>, LexError>
    decreases |s|
  {
    var t := DropBlanks(s);
    if t == [] then Ok([])
    else
      match ReadWord(t, Unquoted, [])
      case Err(e) => Err(e)
      case Ok((w, rest)) =>
        match Split(rest)
        case Err(e) => Err(e)
        case Ok(ws) => Ok([w] + ws)
  }

  // ---------------------------------------------------------------------
  // How the lexer treats the common shapes of a word

  lemma {:induction false} DropBlanksPrefix(a: string, s: string)
    requires AllBlank(a)
    ensures DropBlanks(a + s) == DropBlanks(s)
    decreases |a|
  {
    if a != [] {
      assert (a + s)[1..] == a[1..] + s;
      DropBlanksPrefix(a[1..], s);
    } else {
      assert a + s == s;
    }
  }

  /** Blanks in front of the input change nothing. */
  lemma SplitSkipsBlanks(a: string, s: string)
    requires AllBlank(a)
    ensures Split(a + s) == Split(s)
  {
    DropBlanksPrefix(a, s);
  }

  /** Input made only of blanks has no words. */
  lemma BlanksHaveNoWords(a: string)
    requires AllBlank(a)
    ensures Split(a) == Ok([])
  {
    SplitSkipsBlanks(a, []);
    assert a + [] == a;
  }

  /** Plain characters are taken over one by one. */
  lemma {:induction false} ReadPlain(w: string, rest: string, word: string)
    requires AllPlain(w)
    ensures ReadWord(w + rest, Unquoted, word) == ReadWord(rest, Unquoted, word + w)
    decreases |w|
  {
    if w != [] {
      assert (w + rest)[1..] == w[1..] + rest;
      assert word + w == (word + [w[0]]) + w[1..];
      ReadPlain(w[1..], rest, word + [w[0]]);
    } else {
      assert w + rest == rest && word + w == word;
    }
  }

  /** Inside single quotes every character but `'` is literal. */
  lemma {:induction false} ReadSingleQuoted(w: string, rest: string, word: string)
    requires forall i :: 0 <= i < |w| ==> w[i] != '\''
    ensures ReadWord(w + "'" + rest, SingleQuoted, word) == ReadWord(rest, Unquoted, word + w)
    decreases |w|
  {
    if w != [] {
      assert (w + "'" + rest)[1..] == w[1..] + "'" + rest;
      assert word + w == (word + [w[0]]) + w[1..];
      ReadSingleQuoted(w[1..], rest, word + [w[0]]);
    } else {
      assert (w + "'" + rest)[1..] == rest && word + w == word;
    }
  }

  /** Inside double quotes every character but `"` and `\` is literal. */
  lemma {:induction false} ReadDoubleQuoted(w: string, rest: string, word: string)
    requires forall i :: 0 <= i < |w| ==> w[i] != '"' && w[i] != '\\'
    ensures ReadWord(w + "\"" + rest, DoubleQuoted, word) == ReadWord(rest, Unquoted, word + w)
    decreases |w|
  {
    if w != [] {
      assert (w + "\"" + rest)[1..] == w[1..] + "\"" + rest;
      assert word + w == (word + [w[0]]) + w[1..];
      ReadDoubleQuoted(w[1..], rest, word + [w[0]]);
    } else {
      assert (w + "\"" + rest)[1..] == rest && word + w == word;
    }
  }

  /** A single quote that is never closed: splitting raises. */
  lemma {:induction false} SingleQuoteUnclosed(w: string, word: string)
    requires forall i :: 0 <= i < |w| ==> w[i] != '\''
    ensures ReadWord(w, SingleQuoted, word) == Err(NoClosingQuotation)
    decreases |w|
  {
    if w != [] {
      SingleQuoteUnclosed(w[1..], word + [w[0]]);
    }
  }

  /** Outside quotes a backslash makes the next character literal, whatever it is. */
  lemma ReadEscaped(c: char, rest: string, word: string)
    ensures ReadWord(['\\', c] + rest, Unquoted, word) == ReadWord(rest, Unquoted, word + [c])
  {
    assert (['\\', c] + rest)[2..] == rest;
  }

  /** A backslash at the very end of the input raises "No escaped character". */
  lemma TrailingBackslash(w: string, word: string)
    requires AllPlain(w)
    ensures ReadWord(w + "\\", Unquoted, word) == Err(NoEscapedCharacter)
  {
    ReadPlain(w, "\\", word);
  }

  /** Inside double quotes a backslash escapes a `"` or another backslash. */
  lemma ReadDoubleEscape(c: char, rest: string, word: string)
    requires c == '"' || c == '\\'
    ensures ReadWord(['\\', c] + rest, DoubleQuoted, word) == ReadWord(rest, DoubleQuoted, word + [c])
  {
    assert (['\\', c] + rest)[2..] == rest;
  }

  /** Inside double quotes a backslash before any other character is kept,
      together with that character. */
  lemma ReadDoubleBackslashKept(c: char, rest: string, word: string)
    requires c != '"' && c != '\\'
    ensures ReadWord(['\\', c] + rest, DoubleQuoted, word) == ReadWord(rest, DoubleQuoted, word + ['\\', c])
  {
    assert (['\\', c] + rest)[2..] == rest;
  }

  /** A backslash ending the input inside double quotes raises "No escaped character". */
  lemma DoubleQuotedTrailingBackslash(w: string, word: string)
    requires forall i :: 0 <= i < |w| ==> w[i] != '"' && w[i] != '\\'
    ensures ReadWord(w + "\\", DoubleQuoted, word) == Err(NoEscapedCharacter)
  {
    ReadDoubleQuotedPrefix(w, "\\", word);
  }

  lemma {:induction false} ReadDoubleQuotedPrefix(w: string, rest: string, word: string)
    requires forall i :: 0 <= i < |w| ==> w[i] != '"' && w[i] != '\\'
    ensures ReadWord(w + rest, DoubleQuoted, word) == ReadWord(rest, DoubleQuoted, word + w)
    decreases |w|
  {
    if w != [] {
      assert (w + rest)[1..] == w[1..] + rest;
      assert word + w == (word + [w[0]]) + w[1..];
      ReadDoubleQuotedPrefix(w[1..], rest, word + [w[0]]);
    } else {
      assert w + rest == rest && word + w == word;
    }
  }

  /** A double quote that is never closed: splitting raises. */
  lemma {:induction false} DoubleQuoteUnclosed(w: string, word: string)
    requires forall i :: 0 <= i < |w| ==> w[i] != '"' && w[i] != '\\'
    ensures ReadWord(w, DoubleQuoted, word) == Err(NoClosingQuotation)
    decreases |w|
  {
    if w != [] {
      DoubleQuoteUnclosed(w[1..], word + [w[0]]);
    }
  }

  /** A word that is closed by a blank or by the end of the input. */
  lemma ReadPlainWord(w: string, rest: string)
    requires AllPlain(w)
    requires rest == [] || IsBlank(rest[0])
    ensures ReadWord(w + rest, Unquoted, []) == Ok((w, if rest == [] then [] else rest[1..]))
  {
    ReadPlain(w, rest, []);
    assert [] + w == w;
  }

  /** Split only looks at the first word through ReadWord. */
  lemma SplitBySameFirstWord(s: string, t: string)
    requires s != [] && t != [] && !IsBlank(s[0]) && !IsBlank(t[0])
    requires ReadWord(s, Unquoted, []) == ReadWord(t, Unquoted, [])
    ensures Split(s) == Split(t)
  {
    assert DropBlanks(s) == s && DropBlanks(t) == t;
  }

  /** Single quotes around a plain word do not change how the input splits. */
  lemma SplitSingleQuotedPlain(w: string, rest: string)
    requires AllPlain(w) && w != []
    ensures Split("'" + w + "'" + rest) == Split(w + rest)
  {
    ReadPlain(w, rest, []);
    assert (w + rest)[0] == w[0];
    var q := "'" + w + "'" + rest;
    assert q[1..] == w + "'" + rest;
    ReadSingleQuoted(w, rest, []);
    assert ReadWord(q, Unquoted, []) == ReadWord(q[1..], SingleQuoted, []);
    SplitBySameFirstWord(q, w + rest);
  }

  /** Double quotes around a plain word do not change how the input splits. */
  lemma SplitDoubleQuotedPlain(w: string, rest: string)
    requires AllPlain(w) && w != []
    ensures Split("\"" + w + "\"" + rest) == Split(w + rest)
  {
    ReadPlain(w, rest, []);
    assert (w + rest)[0] == w[0];
    var d := "\"" + w + "\"" + rest;
    assert d[1..] == w + "\"" + rest;
    ReadDoubleQuoted(w, rest, []);
    assert ReadWord(d, Unquoted, []) == ReadWord(d[1..], DoubleQuoted, []);
    SplitBySameFirstWord(d, w + rest);
  }

  /** A backslash before a plain first character does not change how the
      input splits. */
  lemma SplitEscapedPlain(c: char, rest: string)
    requires IsPlain(c)
    ensures Split(['\\', c] + rest) == Split([c] + rest)
  {
    ReadEscaped(c, rest, []);
    assert ([c] + rest)[1..] == rest;
    assert ReadWord([c] + rest, Unquoted, []) == ReadWord(rest, Unquoted, [] + [c]);
    SplitBySameFirstWord(['\\', c] + rest, [c] + rest);
  }

  /** A plain input ending in a backslash cannot be split. */
  lemma SplitTrailingBackslash(w: string)
    requires AllPlain(w)
    ensures Split(w + "\\") == Err(NoEscapedCharacter)
  {
    TrailingBackslash(w, []);
    assert (w + "\\")[0] == if w == [] then '\\' else w[0];
    assert DropBlanks(w + "\\") == w + "\\";
  }

  /** An unclosed single quote in the second word: splitting raises. */
  lemma SplitUnclosedSecond(w: string, x: string)
    requires AllPlain(w) && w != []
    requires forall i :: 0 <= i < |x| ==> x[i] != '\''
    ensures Split(w + (" '" + x)) == Err(NoClosingQuotation)
  {
    var u := "'" + x;
    assert u[1..] == x;
    SingleQuoteUnclosed(x, []);
    assert ReadWord(u, Unquoted, []) == Err(NoClosingQuotation);
    assert DropBlanks(u) == u;
    assert Split(u) == Err(NoClosingQuotation);
    var rest := " '" + x;
    assert rest[1..] == u;
    ReadPlainWord(w, rest);
    assert (w + rest)[0] == w[0];
    assert DropBlanks(w + rest) == w + rest;
  }

  /** What is dropped is blank, and what is left is the rest of the input,
      from its first non-blank on. */
  lemma {:induction false} DropBlanksDropsBlanks(s: string)
    ensures var r := DropBlanks(s);
            r == s[|s| - |r|..] && AllBlank(s[..|s| - |r|])
    decreases |s|
  {
    if s != [] && IsBlank(s[0]) {
      DropBlanksDropsBlanks(s[1..]);
      var r := DropBlanks(s);
      assert s[..|s| - |r|] == [s[0]] + s[1..][..|s[1..]| - |r|];
    }
  }

  predicate NoQuoting(s: string) {
    forall i :: 0 <= i < |s| ==> s[i] != '\'' && s[i] != '"' && s[i] != '\\'
  }

  /** Without quotes or backslashes a word always ends, and what follows it is
      the rest of the input. */
  lemma {:induction false} ReadWithoutQuoting(s: string, word: string)
    requires NoQuoting(s)
    ensures ReadWord(s, Unquoted, word).Ok?
    ensures var rest := ReadWord(s, Unquoted, word).value.1; rest == s[|s| - |rest|..]
    decreases |s|
  {
    if s != [] && !IsBlank(s[0]) {
      assert forall i :: 0 <= i < |s[1..]| ==> s[1..][i] == s[i + 1];
      ReadWithoutQuoting(s[1..], word + [s[0]]);
    }
  }

  /** Input without quotes or backslashes always splits. */
  lemma {:induction false} SplitWithoutQuoting(s: string)
    requires NoQuoting(s)
    ensures Split(s).Ok?
    decreases |s|
  {
    var t := DropBlanks(s);
    DropBlanksDropsBlanks(s);
    if t != [] {
      assert forall i :: 0 <= i < |t| ==> t[i] == s[|s| - |t| + i];
      ReadWithoutQuoting(t, []);
      var rest := ReadWord(t, Unquoted, []).value.1;
      assert forall i :: 0 <= i < |rest| ==> rest[i] == t[|t| - |rest| + i];
      SplitWithoutQuoting(rest);
    }
  }

  /** A first word made of plain characters followed by any input that splits. */
  lemma SplitPlainFirst(a: string, w: string, rest: string)
    requires AllBlank(a) && AllPlain(w) && w != []
    requires rest == [] || IsBlank(rest[0])
    requires Split(rest).Ok?
    ensures Split(a + w + rest) == Ok([w] + Split(rest).value)
  {
    assert a + w + rest == a + (w + rest);
    SplitSkipsBlanks(a, w + rest);
    assert (w + rest)[0] == w[0];
    ReadPlainWord(w, rest);
    if rest != [] {
      assert DropBlanks(rest) == DropBlanks(rest[1..]);
    }
  }

  // ---------------------------------------------------------------------
  // A reference encoder: `shlex.join` with every word single-quoted

  /** Single-quotes a word; each `'` inside it is written as `'"'"'`. */
  function Quote(w: string): (r: string)
    ensures r != [] && r[0] == '\''
  {
    "'" + QuoteBody(w) + "'"
  }

  function QuoteBody(w: string): string {
    if w == [] then []
    else if w[0] == '\'' then "'\"'\"'" + QuoteBody(w[1..])
    else [w[0]] + QuoteBody(w[1..])
  }

  /** The inverse of Split: words quoted one by one and joined by spaces. */
  function JoinWords(ws: seq<string>): (r: string)
    ensures ws != [] ==> r != [] && r[0] == '\''
  {
    if ws == [] then []
    else if |ws| == 1 then Quote(ws[0])
    else Quote(ws[0]) + " " + JoinWords(ws[1..])
  }

  /** The five characters `'"'"'` close the quote, add a quoted `'` and reopen. */
  lemma ReadEscapedQuote(tail: string, word: string)
    ensures ReadWord("'\"'\"'" + tail, SingleQuoted, word) == ReadWord(tail, SingleQuoted, word + "'")
  {
    var s := "'\"'\"'" + tail;
    assert s[1..] == "\"'\"'" + tail;
    assert s[2..] == "'\"'" + tail;
    assert s[3..] == "\"'" + tail;
    assert s[4..] == "'" + tail;
    assert s[5..] == tail;
    calc {
      ReadWord(s, SingleQuoted, word);
      ReadWord(s[1..], Unquoted, word);
      ReadWord(s[2..], DoubleQuoted, word);
      ReadWord(s[3..], DoubleQuoted, word + "'");
      ReadWord(s[4..], Unquoted, word + "'");
      ReadWord(s[5..], SingleQuoted, word + "'");
    }
  }

  lemma {:induction false} ReadQuoteBody(w: string, rest: string, word: string)
    ensures ReadWord(QuoteBody(w) + "'" + rest, SingleQuoted, word) == ReadWord(rest, Unquoted, word + w)
    decreases |w|
  {
    if w == [] {
      assert (QuoteBody(w) + "'" + rest)[1..] == rest && word + w == word;
    } else {
      var tail := QuoteBody(w[1..]) + "'" + rest;
      assert word + w == (word + [w[0]]) + w[1..];
      if w[0] == '\'' {
        assert QuoteBody(w) + "'" + rest == "'\"'\"'" + tail;
        ReadEscapedQuote(tail, word);
        assert word + "'" == word + [w[0]];
      } else {
        assert (QuoteBody(w) + "'" + rest)[1..] == tail;
      }
      ReadQuoteBody(w[1..], rest, word + [w[0]]);
    }
  }

  /** A quoted word reads back as exactly that word, whatever it contains. */
  lemma ReadQuoted(w: string, rest: string, word: string)
    ensures ReadWord(Quote(w) + rest, Unquoted, word) == ReadWord(rest, Unquoted, word + w)
  {
    assert (Quote(w) + rest)[1..] == QuoteBody(w) + "'" + rest;
    ReadQuoteBody(w, rest, word);
  }

  /** Splitting undoes joining: every list of words is recovered exactly. */
  lemma {:induction false} SplitJoinWords(ws: seq<string>)
    ensures Split(JoinWords(ws)) == Ok(ws)
    decreases |ws|
  {
    if |ws| == 1 {
      ReadQuoted(ws[0], [], []);
      assert Quote(ws[0]) + [] == Quote(ws[0]);
      assert [] + ws[0] == ws[0];
      assert DropBlanks(JoinWords(ws)) == Quote(ws[0]);
      assert ReadWord(Quote(ws[0]), Unquoted, []) == Ok((ws[0], []));
      assert Split([]) == Ok([]);
      assert [ws[0]] + [] == ws;
    } else if |ws| > 1 {
      var rest := JoinWords(ws[1..]);
      ReadQuoted(ws[0], " " + rest, []);
      assert Quote(ws[0]) + " " + rest == Quote(ws[0]) + (" " + rest);
      assert [] + ws[0] == ws[0];
      assert (" " + rest)[1..] == rest;
      SplitJoinWords(ws[1..]);
      assert [ws[0]] + ws[1..] == ws;
    }
  }
}
