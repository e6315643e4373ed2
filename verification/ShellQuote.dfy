/**
 * Quoting a file name for the shell, and the shell's own reading of the result: token recognition with
 * the backslash and the single quote (sections 2.2.1, 2.2.2 and 2.3 of the POSIX.1-2017 Shell Command
 * Language).
 */
module ShellQuote {
  import opened Bytes

  // ---- The shell ----

  datatype Token = Word(text: string) | Great

  /** Where the reader is: between words, inside one, inside single quotes, or behind a backslash. */
  datatype Mode = Between | InWord(w: string) | Quoted(w: string) | Escaped(from: Mode)

  /** Characters that stand for themselves outside quotes. */
  predicate Plain(c: char) {
    c !in "|&;<>()$`\\\"' \t\n*?[#~=%"
  }

  function WordSoFar(m: Mode): string {
    match m case InWord(w) => w case Quoted(w) => w case _ => ""
  }

  /** The tokens ended by a blank or by the end of the line. */
  function Ended(m: Mode): seq<Token> {
    if m.InWord? then [Word(m.w)] else []
  }

  function Prefixed(ts: seq<Token>, r: Option<seq<Token>>): Option<seq<Token>> {
    if r.None? then None else Some(ts + r.value)
  }

  /**
   * The tokens of a line.  None when a quote stays open or when the line uses anything this reader
   * does not know: expansions, other operators, a redirection that touches a word.
   */
  function Lex(s: string, m: Mode): Option<seq<Token>>
    decreases |s|
  {
    if s == [] then
      if m.Between? || m.InWord? then Some(Ended(m)) else None
    else
      var c, rest := s[0], s[1..];
      match m
      case Quoted(w) => if c == '\'' then Lex(rest, InWord(w)) else Lex(rest, Quoted(w + [c]))
      case Escaped(from) => if c == '\n' then Lex(rest, from) else Lex(rest, InWord(WordSoFar(from) + [c]))
      case _ =>
        if c == '\'' then Lex(rest, Quoted(WordSoFar(m)))
        else if c == '\\' then Lex(rest, Escaped(m))
        else if c == ' ' || c == '\t' then Prefixed(Ended(m), Lex(rest, Between))
        else if c == '>' && m.Between? && (rest == [] || rest[0] !in ">&|") then Prefixed([Great], Lex(rest, Between))
        else if Plain(c) then Lex(rest, InWord(WordSoFar(m) + [c]))
        else None
  }

  // ---- The quoting ----

  /** A quote inside quotes: close them, a backslashed quote, open them again. */
  function Piece(c: char): string {
    if c == '\'' then "'\\''" else [c]
  }

  function QuoteBody(s: string): string {
    if s == [] then [] else Piece(s[0]) + QuoteBody(s[1..])
  }

  function Quote(s: string): string {
    "'" + QuoteBody(s) + "'"
  }

  lemma {:induction false} BodyReadsBack(s: string, t: string, w: string)
    ensures Lex(QuoteBody(s) + "'" + t, Quoted(w)) == Lex(t, InWord(w + s))
    decreases |s|
  {
    if s == [] {
      assert QuoteBody(s) + "'" + t == "'" + t;
      assert w + s == w;
    } else {
      var body := QuoteBody(s[1..]) + "'" + t;
      BodyReadsBack(s[1..], t, w + [s[0]]);
      assert w + [s[0]] + s[1..] == w + s;
      if s[0] == '\'' {
        assert QuoteBody(s) + "'" + t == "'\\''" + body;
        EscapedQuote(body, w);
      } else {
        assert QuoteBody(s) + "'" + t == [s[0]] + body;
      }
    }
  }

  /** Closing the quotes, a backslashed quote and opening them again adds one quote to the word. */
  lemma EscapedQuote(t: string, w: string)
    ensures Lex("'\\''" + t, Quoted(w)) == Lex(t, Quoted(w + "'"))
  {
    assert ("'\\''" + t)[1..] == "\\''" + t;
    assert ("\\''" + t)[1..] == "''" + t;
    assert ("''" + t)[1..] == "'" + t;
    assert ("'" + t)[1..] == t;
    assert Lex("\\''" + t, InWord(w)) == Lex("''" + t, Escaped(InWord(w)));
    assert Lex("''" + t, Escaped(InWord(w))) == Lex("'" + t, InWord(w + "'"));
  }

  /** At the start of a word, a quoted string is read as exactly that string, whatever it contains. */
  lemma QuoteReadsBack(s: string, t: string)
    ensures Lex(Quote(s) + t, Between) == Lex(t, InWord(s))
  {
    assert (Quote(s) + t)[1..] == QuoteBody(s) + "'" + t;
    BodyReadsBack(s, t, "");
    assert "" + s == s;
  }

  /** The shell reads a quoted string as one word, equal to the string. */
  lemma QuoteIsOneWord(s: string)
    ensures Lex(Quote(s), Between) == Some([Word(s)])
  {
    QuoteReadsBack(s, "");
    assert Quote(s) + "" == Quote(s);
  }

  lemma {:induction false} QuoteAppend(a: string, b: string)
    ensures QuoteBody(a + b) == QuoteBody(a) + QuoteBody(b)
    decreases |a|
  {
    if a == [] {
      assert a + b == b;
    } else {
      QuoteAppend(a[1..], b);
      assert (a + b)[1..] == a[1..] + b;
      Reassociate(Piece(a[0]), QuoteBody(a[1..]), QuoteBody(b));
    }
  }

  /** One more character quoted; what is left still fits. */
  lemma QuoteNext(s: string, p: nat)
    requires p < |s|
    ensures QuoteBody(s[..p + 1]) == QuoteBody(s[..p]) + Piece(s[p])
    ensures |QuoteBody(s[..p + 1])| <= |QuoteBody(s)|
  {
    assert s[..p + 1] == s[..p] + [s[p]] && s == s[..p + 1] + s[p + 1..];
    QuoteAppend(s[..p], [s[p]]);
    QuoteAppend(s[..p + 1], s[p + 1..]);
    assert QuoteBody([s[p]]) == Piece(s[p]);
  }

  method CountSpace(str: string) returns (needSpace: nat)
    ensures needSpace == |Quote(str)|
  {
    var p := 0;
    needSpace := 2;
    while p < |str|
      invariant p <= |str| && needSpace == 2 + |QuoteBody(str[..p])|
    {
      QuoteNext(str, p);
      needSpace := needSpace + (if str[p] == '\'' then 4 else 1);
      p := p + 1;
    }
    assert str[..p] == str;
  }

  function Indices(i: nat, j: nat): (r: set<nat>)
    ensures forall k :: k in r <==> i <= k < j
    decreases j
  {
    if j <= i then {} else Indices(i, j - 1) + {j - 1}
  }

  /** One store, to an index that was not stored to before. */
  method Put(newStr: array<char>, i: nat, c: char, ghost written: set<nat>) returns (ghost nowWritten: set<nat>)
    requires i < newStr.Length && i !in written
    modifies newStr
    ensures newStr[i] == c && forall j :: 0 <= j < newStr.Length && j != i ==> newStr[j] == old(newStr[j])
    ensures nowWritten == written + {i}
  {
    newStr[i] := c;
    nowWritten := written + {i};
  }

  /** Writes the quoted form of one character at i. */
  method PutPiece(newStr: array<char>, i: nat, c: char, ghost written: set<nat>)
    returns (next: nat, ghost nowWritten: set<nat>)
    requires i + |Piece(c)| < newStr.Length && Indices(i, i + |Piece(c)|) !! written
    modifies newStr
    ensures next == i + |Piece(c)| && newStr[..next] == old(newStr[..i]) + Piece(c)
    ensures forall j :: next <= j < newStr.Length ==> newStr[j] == old(newStr[j])
    ensures nowWritten == written + Indices(i, next)
  {
    nowWritten := Put(newStr, i, c, written);
    next := i;
    if c == '\'' {
      nowWritten := Put(newStr, next + 1, '\\', nowWritten);
      nowWritten := Put(newStr, next + 2, '\'', nowWritten);
      nowWritten := Put(newStr, next + 3, '\'', nowWritten);
      next := next + 3;
    }
    next := next + 1;
  }

  /** Fills in what stands between the two end quotes. */
  method PutBody(newStr: array<char>, str: string, ghost written: set<nat>) returns (ghost nowWritten: set<nat>)
    requires newStr.Length == |QuoteBody(str)| + 3 && newStr[0] == newStr[newStr.Length - 2] == '\''
    requires written == {0, newStr.Length - 2}
    modifies newStr
    ensures newStr[..newStr.Length - 2] == "'" + QuoteBody(str) && newStr[newStr.Length - 2] == '\''
    ensures nowWritten == Indices(0, newStr.Length - 1)
  {
    var end := newStr.Length - 2;
    nowWritten := written;
    var i := 1;
    var p := 0;
    while p < |str|
      invariant p <= |str| && i == 1 + |QuoteBody(str[..p])| <= end
      invariant newStr[..i] == "'" + QuoteBody(str[..p]) && newStr[end] == '\''
      invariant nowWritten == Indices(0, i) + {end}
    {
      QuoteNext(str, p);
      Reassociate("'", QuoteBody(str[..p]), Piece(str[p]));
      var next;
      next, nowWritten := PutPiece(newStr, i, str[p], nowWritten);
      i := next;
      p := p + 1;
    }
    assert str[..p] == str;
  }

  /**
   * escape_shell_arg_string.  The space is counted first; then the two end quotes are written and the
   * rest is filled in between them.  Each index of the buffer is written once.
   */
  method EscapeShellArgString(str: string) returns (newStr: array<char>, ghost written: set<nat>)
    ensures fresh(newStr) && newStr[..] == Quote(str) + ['\0'] && written == Indices(0, newStr.Length)
  {
    var needSpace := CountSpace(str);
    newStr := new char[needSpace + 1];
    written := Put(newStr, 0, '\'', {});
    written := Put(newStr, needSpace - 1, '\'', written);
    written := PutBody(newStr, str, written);
    assert newStr[..needSpace] == newStr[..needSpace - 1] + ['\''];
    written := Put(newStr, needSpace, '\0', written);
  }

  // ---- The command line ----

  function CommandLine(command: string, realName: string, tmpName: string): string {
    command + " " + Quote(realName) + " > " + Quote(tmpName)
  }

  /** What snprintf leaves in a buffer of `size` octets, without the terminator. */
  function Snprintf(size: nat, text: string): string
    requires 0 < size
  {
    text[..Min(|text|, size - 1)]
  }

  /** The buffer is exactly as long as the line and its terminator, so nothing is cut off. */
  method BuildCommand(command: string, realName: string, tmpName: string) returns (bufLen: nat, cmd: string)
    ensures cmd == CommandLine(command, realName, tmpName) && bufLen == |cmd| + 1
  {
    var newReal, _ := EscapeShellArgString(realName);
    var newTmp, _ := EscapeShellArgString(tmpName);
    var realArg, tmpArg := newReal[..newReal.Length - 1], newTmp[..newTmp.Length - 1];
    bufLen := |command| + |"  > "| + |realArg| + |tmpArg| + 1;
    cmd := Snprintf(bufLen, command + " " + realArg + " > " + tmpArg);
  }

  lemma PrefixedTwice(a: seq<Token>, b: seq<Token>, r: Option<seq<Token>>)
    ensures Prefixed(a, Prefixed(b, r)) == Prefixed(a + b, r)
  {
    if r.Some? {
      assert a + (b + r.value) == (a + b) + r.value;
    }
  }

  /** A blank ends what stands before it, provided that is complete by itself. */
  lemma {:induction false} LexAcrossBlank(a: string, b: string, m: Mode)
    requires Lex(a, m).Some?
    ensures Lex(a + " " + b, m) == Prefixed(Lex(a, m).value, Lex(b, Between))
    decreases |a|
  {
    if a == [] {
      assert a + " " + b == " " + b && (" " + b)[1..] == b;
    } else {
      var c, rest := a[0], a[1..];
      assert (a + " " + b)[0] == c && (a + " " + b)[1..] == rest + " " + b;
      assert (rest + " " + b)[0] == if rest == [] then ' ' else rest[0];
      match m {
        case Quoted(w) => LexAcrossBlank(rest, b, if c == '\'' then InWord(w) else Quoted(w + [c]));
        case Escaped(from) => LexAcrossBlank(rest, b, if c == '\n' then from else InWord(WordSoFar(from) + [c]));
        case _ =>
          if c == '\'' {
            LexAcrossBlank(rest, b, Quoted(WordSoFar(m)));
          } else if c == '\\' {
            LexAcrossBlank(rest, b, Escaped(m));
          } else if c == ' ' || c == '\t' || c == '>' {
            LexAcrossBlank(rest, b, Between);
            PrefixedTwice(if c == '>' then [Great] else Ended(m), Lex(rest, Between).value, Lex(b, Between));
          } else {
            LexAcrossBlank(rest, b, InWord(WordSoFar(m) + [c]));
          }
      }
    }
  }

  /** A blank ends a word and is otherwise skipped. */
  lemma BlankStep(t: string, w: string)
    ensures Lex(" " + t, InWord(w)) == Prefixed([Word(w)], Lex(t, Between))
    ensures Lex(" " + t, Between) == Lex(t, Between)
  {
    assert (" " + t)[1..] == t;
    var r := Lex(t, Between);
    if r.Some? {
      assert [] + r.value == r.value;
    }
  }

  lemma ArgumentTokens(realName: string, tmpName: string)
    ensures Lex(Quote(realName) + (" > " + Quote(tmpName)), Between) == Some([Word(realName), Great, Word(tmpName)])
  {
    var q := Quote(tmpName);
    var redirect := ">" + (" " + q);
    assert " > " + q == " " + redirect && redirect[1..] == " " + q;
    QuoteReadsBack(realName, " " + redirect);
    BlankStep(redirect, realName);
    BlankStep(q, "");
    QuoteIsOneWord(tmpName);
    assert Lex(redirect, Between) == Prefixed([Great], Some([Word(tmpName)]));
    assert [Word(realName)] + ([Great] + [Word(tmpName)]) == [Word(realName), Great, Word(tmpName)];
  }

  lemma LineParts(a: string, b: string, c: string, d: string)
    ensures a + b + c + d == a + (b + (c + d))
  {
  }

  /**
   * The shell reads the built line as the decompressor's own command followed by the real name as one
   * word, a redirection, and the temporary name as one word, for any two names.
   */
  lemma CommandLineTokens(command: string, realName: string, tmpName: string)
    requires Lex(command, Between).Some?
    ensures Lex(CommandLine(command, realName, tmpName), Between)
         == Some(Lex(command, Between).value + [Word(realName), Great, Word(tmpName)])
  {
    var tail := Quote(realName) + (" > " + Quote(tmpName));
    LexAcrossBlank(command, tail, Between);
    ArgumentTokens(realName, tmpName);
    LineParts(command + " ", Quote(realName), " > ", Quote(tmpName));
  }
}
