/**
 * `code_walk` (cipcc/parser.py): a walk over a header's text, one
 * character at a time, that tracks comments, quotes, lines and the
 * stack of open braces, and raises `ParsingError` on a closing brace
 * that closes nothing or the wrong brace.
 *
 * The observers it notifies are left out; the state they would see is
 * the `CodeState` object.
 */
module CodeWalk {
  import opened Wrappers
  import opened Braces

  /** How often c occurs in s. */
  function Count(s: seq<char>, c: char): nat {
    if |s| == 0 then 0 else Count(s[..|s| - 1], c) + (if s[|s| - 1] == c then 1 else 0)
  }

  /** `str.endswith` for one character. */
  predicate EndsWith(s: string, c: char) {
    |s| > 0 && s[|s| - 1] == c
  }

  /** `s[:-1]`. */
  function DropLast(s: string): string {
    if |s| == 0 then s else s[..|s| - 1]
  }

  /**
   * One brace of the usual matching: an opening brace is pushed, and a
   * closing brace pops its opening brace from the top; a closing brace
   * that closes nothing or another brace fails.
   */
  function StackStep(stack: seq<char>, c: char): Option<seq<char>> {
    if IsOpening(c) then Some(stack + [c])
    else if |stack| > 0 && PairedBrace(c) == Success(stack[|stack| - 1]) then Some(stack[..|stack| - 1])
    else None
  }

  /** The brace stack after matching the braces bs, or nothing once the matching fails. */
  function MatchBraces(bs: seq<char>): Option<seq<char>> {
    if |bs| == 0 then Some([])
    else
      match MatchBraces(bs[..|bs| - 1])
      case None => None
      case Some(s) => StackStep(s, bs[|bs| - 1])
  }

  /** The matched stack holds opening braces only. */
  lemma {:induction false} MatchBracesOpens(bs: seq<char>)
    requires MatchBraces(bs).Some?
    ensures forall i | 0 <= i < |MatchBraces(bs).value| :: IsOpening(MatchBraces(bs).value[i])
  {
    if |bs| > 0 {
      MatchBracesOpens(bs[..|bs| - 1]);
    }
  }

  /**
   * Each opening brace is on the matched stack as often as it occurs
   * less the times its closing brace occurs.
   */
  lemma {:induction false} MatchBracesCounts(bs: seq<char>, o: char)
    requires MatchBraces(bs).Some? && IsOpening(o)
    ensures Count(MatchBraces(bs).value, o) == Count(bs, o) - Count(bs, PairedBrace(o).value)
  {
    if |bs| > 0 {
      var init, c := bs[..|bs| - 1], bs[|bs| - 1];
      assert bs == init + [c];
      MatchBracesCounts(init, o);
      CountSnoc(init, c, o);
      CountSnoc(init, c, PairedBrace(o).value);
      StackStepCounts(MatchBraces(init).value, c, o);
    }
  }

  /** One step of the matching adds an opening brace's count, or takes one off for its closing brace. */
  lemma StackStepCounts(s: seq<char>, c: char, o: char)
    requires StackStep(s, c).Some? && IsOpening(o)
    ensures Count(StackStep(s, c).value, o) == Count(s, o) + (if c == o then 1 else 0)
      - (if c == PairedBrace(o).value then 1 else 0)
  {
    if IsOpening(c) {
      CountSnoc(s, c, o);
    } else {
      var rest, top := s[..|s| - 1], s[|s| - 1];
      assert s == rest + [top];
      CountSnoc(rest, top, o);
      PairedBraceInvolution(c);
      PairedBraceInvolution(o);
    }
  }

  lemma CountSnoc(s: seq<char>, x: char, c: char)
    ensures Count(s + [x], c) == Count(s, c) + (if x == c then 1 else 0)
  {
    assert (s + [x])[..|s|] == s;
  }

  /** Appending x adds one to its count and leaves every other count alone. */
  lemma CountSnocAll(s: seq<char>, x: char)
    ensures forall c :: Count(s + [x], c) == Count(s, c) + (if x == c then 1 else 0)
  {
    forall c {
      CountSnoc(s, x, c);
    }
  }

  /** Once the matching fails, no further text repairs it. */
  lemma {:induction false} MatchBracesFailureIsFinal(bs: seq<char>, rest: seq<char>)
    requires MatchBraces(bs).None?
    ensures MatchBraces(bs + rest).None?
    decreases |rest|
  {
    if |rest| > 0 {
      var r' := rest[..|rest| - 1];
      assert (bs + rest)[..|bs + rest| - 1] == bs + r';
      MatchBracesFailureIsFinal(bs, r');
    } else {
      assert bs + rest == bs;
    }
  }

  /** A brace followed by its closing brace leaves the stack as it was. */
  lemma MatchBracesPair(bs: seq<char>, o: char)
    requires MatchBraces(bs).Some? && IsOpening(o)
    ensures MatchBraces(bs + [o, PairedBrace(o).value]) == MatchBraces(bs)
  {
    var t := bs + [o, PairedBrace(o).value];
    assert t[..|t| - 1] == bs + [o];
    assert (bs + [o])[..|bs|] == bs;
    var s := MatchBraces(bs).value;
    assert (s + [o])[..|s|] == s;
  }

  predicate IsBrace(c: char) {
    IsOpening(c) || IsClosing(c)
  }

  predicate IsQuote(c: char) {
    c == '"' || c == '\''
  }

  /** The flag of quote c in `quoting`. */
  predicate Flag(quoting: map<char, bool>, c: char) {
    c in quoting && quoting[c]
  }

  /** `is_quoted`: some quote is open. */
  predicate QuoteOpen(quoting: map<char, bool>) {
    Flag(quoting, '"') || Flag(quoting, '\'')
  }

  /** `comment_start`: empty, a line comment's opener or a block comment's, the only values the walk gives it. */
  datatype CommentStart = NoComment | LineComment | BlockComment

  /** `'/' + char` for the `/` or `*` that starts a comment. */
  function Opener(c: char): CommentStart {
    if c == '/' then LineComment else BlockComment
  }

  /** The last character of a text, if any. */
  function LastOf(s: string): Option<char> {
    if |s| == 0 then None else Some(s[|s| - 1])
  }

  /**
   * The part of `CodeState` that decides whether a character is code:
   * the comment being read, the escape flag, the two quote flags and the
   * last character of `commented_line`, the only one the walk looks at.
   */
  datatype Lexical = Lexical(comment: CommentStart, escape: bool, inDouble: bool, inSingle: bool, lastRead: Option<char>)

  /** The lexical state `code_walk` starts from. */
  const Start: Lexical := Lexical(NoComment, false, false, false, None)

  predicate Quoted(lx: Lexical) {
    lx.inDouble || lx.inSingle
  }

  /** Quote c is the open one. */
  predicate OpenBy(lx: Lexical, c: char) {
    (c == '"' && lx.inDouble) || (c == '\'' && lx.inSingle)
  }

  /** The flag of quote c set to b. */
  function WithQuote(lx: Lexical, c: char, b: bool): Lexical {
    if c == '"' then lx.(inDouble := b) else if c == '\'' then lx.(inSingle := b) else lx
  }

  /** The same quote flags. */
  predicate SameQuotes(a: Lexical, b: Lexical) {
    a.inDouble == b.inDouble && a.inSingle == b.inSingle
  }

  /** Neither quoted nor commented. */
  predicate IsCode(lx: Lexical) {
    !Quoted(lx) && lx.comment == NoComment
  }

  /** Outside quotes, a `/` or `*` after a `/` starts a comment. */
  predicate StartsComment(lx: Lexical, c: char) {
    !Quoted(lx) && (c == '/' || c == '*') && lx.lastRead == Some('/')
  }

  /** Outside quotes, a `/` after a `*` ends a block comment. */
  predicate EndsComment(lx: Lexical, c: char) {
    !Quoted(lx) && lx.comment == BlockComment && c == '/' && lx.lastRead == Some('*')
  }

  /** The comment handling at the head of a turn. */
  function CommentStep(lx: Lexical, c: char): Lexical {
    lx.(comment := if StartsComment(lx, c) then Opener(c) else if EndsComment(lx, c) then NoComment else lx.comment,
        lastRead := if c == '\n' then lx.lastRead else Some(c))
  }

  /**
   * The lexical part of the code constructs: a line end ends a `//`
   * comment; inside a quote a backslash escapes the next character and
   * an unescaped quote of the open kind closes it; in code a quote opens.
   */
  function ConstructStep(lx: Lexical, c: char): Lexical {
    if c == '\n' then
      lx.(lastRead := None, comment := if lx.comment == LineComment then NoComment else lx.comment)
    else if Quoted(lx) then
      if lx.escape then lx.(escape := false)
      else if c == '\\' then lx.(escape := true)
      else if OpenBy(lx, c) then WithQuote(lx, c, false)
      else lx
    else if lx.comment == NoComment && IsQuote(c) then WithQuote(lx, c, true)
    else lx
  }

  /** The lexical effect of one turn of the loop. */
  function LexStep(lx: Lexical, c: char): Lexical {
    ConstructStep(CommentStep(lx, c), c)
  }

  /** The lexical state after reading s. */
  function LexOf(s: string): Lexical {
    if |s| == 0 then Start else LexStep(LexOf(s[..|s| - 1]), s[|s| - 1])
  }

  /** The braces of s read while neither quoted nor commented, in order. */
  function CodeBraces(s: string): seq<char> {
    if |s| == 0 then []
    else
      var init, c := s[..|s| - 1], s[|s| - 1];
      CodeBraces(init) + (if IsBrace(c) && IsCode(LexOf(init)) then [c] else [])
  }

  /** The positions of those braces. */
  function CodePositions(s: string): seq<nat> {
    if |s| == 0 then []
    else
      var init := s[..|s| - 1];
      CodePositions(init) + (if IsBrace(s[|s| - 1]) && IsCode(LexOf(init)) then [|s| - 1] else [])
  }

  /** The column `code_walk` holds after reading s: 1-based on the first line, 0-based after a line end. */
  function ColumnAfter(s: string): int {
    if |s| == 0 then 1
    else if s[|s| - 1] == '\n' then 0
    else ColumnAfter(s[..|s| - 1]) + 1
  }

  /** One more character: the lexical state takes one step. */
  lemma LexSnoc(s: string, c: char)
    ensures LexOf(s + [c]) == LexStep(LexOf(s), c)
  {
    assert (s + [c])[..|s|] == s;
  }

  /** One more character: a brace read as code joins the code braces. */
  lemma CodeBracesSnoc(s: string, c: char)
    ensures CodeBraces(s + [c]) == CodeBraces(s) + (if IsBrace(c) && IsCode(LexOf(s)) then [c] else [])
  {
    assert (s + [c])[..|s|] == s;
  }

  /** One more character: the column restarts at a line end and counts on otherwise. */
  lemma ColumnSnoc(s: string, c: char)
    ensures ColumnAfter(s + [c]) == if c == '\n' then 0 else ColumnAfter(s) + 1
  {
    assert (s + [c])[..|s|] == s;
  }

  /** One more character, for the lexical state and the code braces together. */
  lemma ReadChar(s: string, c: char)
    ensures LexOf(s + [c]) == LexStep(LexOf(s), c)
    ensures CodeBraces(s + [c]) == CodeBraces(s) + (if IsBrace(c) && IsCode(LexOf(s)) then [c] else [])
  {
    LexSnoc(s, c);
    CodeBracesSnoc(s, c);
  }

  /** The code positions are in the text, increasing, and carry the code braces. */
  lemma {:induction false} CodePositionsInOrder(s: string)
    ensures var ps := CodePositions(s);
      |ps| == |CodeBraces(s)|
      && (forall k | 0 <= k < |ps| :: ps[k] < |s| && CodeBraces(s)[k] == s[ps[k]])
      && (forall k, l | 0 <= k < l < |ps| :: ps[k] < ps[l])
  {
    if |s| > 0 {
      var init := s[..|s| - 1];
      CodePositionsInOrder(init);
      assert forall i | 0 <= i < |init| :: s[i] == init[i];
    }
  }

  /** Every code position lies in the text. */
  lemma {:induction false} CodePositionsBound(s: string)
    ensures forall p | p in CodePositions(s) :: p < |s|
  {
    if |s| > 0 {
      CodePositionsBound(s[..|s| - 1]);
    }
  }

  /** A position holds a code brace exactly when a brace is read there outside quotes and comments. */
  lemma {:induction false} CodePositionsComplete(s: string)
    ensures forall i | 0 <= i < |s| :: i in CodePositions(s) <==> IsBrace(s[i]) && IsCode(LexOf(s[..i]))
  {
    if |s| > 0 {
      var init := s[..|s| - 1];
      CodePositionsComplete(init);
      CodePositionsBound(init);
      assert forall i | 0 <= i < |init| :: s[i] == init[i] && s[..i] == init[..i];
    }
  }

  /**
   * `CodeBraces` lists exactly the braces at the positions the walk reads
   * while neither quoted nor commented, in the order of the text: every
   * other brace was read inside a quote or a comment.
   */
  lemma CodeBracesAtPositions(s: string)
    ensures var ps := CodePositions(s);
      |ps| == |CodeBraces(s)|
      && (forall k | 0 <= k < |ps| :: ps[k] < |s| && CodeBraces(s)[k] == s[ps[k]])
      && (forall k, l | 0 <= k < l < |ps| :: ps[k] < ps[l])
      && (forall i | 0 <= i < |s| :: i in ps <==> IsBrace(s[i]) && IsCode(LexOf(s[..i])))
  {
    CodePositionsInOrder(s);
    CodePositionsComplete(s);
  }

  /** The code braces of a text start with those of each of its prefixes. */
  lemma {:induction false} CodeBracesPrefix(s: string, t: string)
    ensures CodeBraces(s) <= CodeBraces(s + t)
    decreases |t|
  {
    if |t| == 0 {
      assert s + t == s;
    } else {
      var u, c := t[..|t| - 1], t[|t| - 1];
      assert s + t == (s + u) + [c];
      CodeBracesPrefix(s, u);
      CodeBracesSnoc(s + u, c);
    }
  }

  /** Text without `/` or quotes is all code: every brace in it counts. */
  lemma {:induction false} PlainTextIsCode(s: string)
    requires forall i | 0 <= i < |s| :: s[i] != '/' && !IsQuote(s[i])
    ensures IsCode(LexOf(s))
    ensures LexOf(s).lastRead != Some('/')
    ensures |CodeBraces(s)| == |CodePositions(s)|
    ensures forall i | 0 <= i < |s| :: i in CodePositions(s) <==> IsBrace(s[i])
  {
    CodeBracesAtPositions(s);
    if |s| > 0 {
      PlainTextIsCode(s[..|s| - 1]);
      forall i | 0 <= i < |s| ensures IsCode(LexOf(s[..i])) {
        PlainTextIsCode(s[..i]);
      }
    }
  }

  /**
   * Outside quotes and comments, a `/` followed by a `/` or `*` opens a
   * line or block comment, and neither character is a code brace.
   */
  lemma CommentOpensFromCode(s: string, c: char)
    requires IsCode(LexOf(s)) && LexOf(s).lastRead != Some('/') && (c == '/' || c == '*')
    ensures LexOf(s + ['/', c]).comment == Opener(c)
    ensures CodeBraces(s + ['/', c]) == CodeBraces(s)
  {
    LexSnoc(s, '/');
    CodeBracesSnoc(s, '/');
    assert s + ['/', c] == (s + ['/']) + [c];
    LexSnoc(s + ['/'], c);
    CodeBracesSnoc(s + ['/'], c);
  }

  /**
   * Inside a `//` comment, a run of characters with no line end and no
   * `*` adds no code brace, and the line end that follows ends the
   * comment.
   */
  lemma {:induction false} LineCommentHides(s: string, t: string)
    requires LexOf(s).comment == LineComment && !Quoted(LexOf(s))
    requires forall i | 0 <= i < |t| :: t[i] != '\n' && t[i] != '*'
    ensures LexOf(s + t).comment == LineComment && SameQuotes(LexOf(s + t), LexOf(s))
    ensures CodeBraces(s + t) == CodeBraces(s)
    ensures IsCode(LexOf(s + t + ['\n']))
    decreases |t|
  {
    if |t| == 0 {
      assert s + t == s;
    } else {
      var u, c := t[..|t| - 1], t[|t| - 1];
      assert s + t == (s + u) + [c];
      LineCommentHides(s, u);
      LexSnoc(s + u, c);
      CodeBracesSnoc(s + u, c);
    }
    LexSnoc(s + t, '\n');
  }

  /**
   * Inside a block comment, a run of characters with no `/` adds no code
   * brace, and a `/` that follows a `*` ends the comment.
   */
  lemma {:induction false} BlockCommentHides(s: string, t: string)
    requires LexOf(s).comment == BlockComment && !Quoted(LexOf(s))
    requires forall i | 0 <= i < |t| :: t[i] != '/'
    ensures LexOf(s + t).comment == BlockComment && SameQuotes(LexOf(s + t), LexOf(s))
    ensures CodeBraces(s + t) == CodeBraces(s)
    ensures LexOf(s + t).lastRead == Some('*') ==> IsCode(LexOf(s + t + ['/']))
    decreases |t|
  {
    if |t| == 0 {
      assert s + t == s;
    } else {
      var u, c := t[..|t| - 1], t[|t| - 1];
      assert s + t == (s + u) + [c];
      BlockCommentHides(s, u);
      LexSnoc(s + u, c);
      CodeBracesSnoc(s + u, c);
    }
    LexSnoc(s + t, '/');
  }

  /**
   * Inside a quote, a run of characters with no backslash and no quote
   * adds no code brace and leaves the quote open.
   */
  lemma {:induction false} QuoteHides(s: string, t: string)
    requires Quoted(LexOf(s)) && !LexOf(s).escape
    requires forall i | 0 <= i < |t| :: t[i] != '\\' && !IsQuote(t[i])
    ensures SameQuotes(LexOf(s + t), LexOf(s)) && !LexOf(s + t).escape
    ensures CodeBraces(s + t) == CodeBraces(s)
    decreases |t|
  {
    if |t| == 0 {
      assert s + t == s;
    } else {
      var u, c := t[..|t| - 1], t[|t| - 1];
      assert s + t == (s + u) + [c];
      QuoteHides(s, u);
      LexSnoc(s + u, c);
      CodeBracesSnoc(s + u, c);
    }
  }

  /**
   * The lexical state always has both quote flags, never both set, and
   * no comment is open while a quote is.
   */
  lemma {:induction false} LexInvariant(s: string)
    ensures !(LexOf(s).inDouble && LexOf(s).inSingle)
    ensures Quoted(LexOf(s)) ==> LexOf(s).comment == NoComment
    ensures LexOf(s).escape ==> Quoted(LexOf(s))
  {
    if |s| > 0 {
      LexInvariant(s[..|s| - 1]);
    }
  }

  /** A quote read as code opens a quote that the next quote of its kind closes, backslashes aside. */
  lemma QuoteOpensAndCloses(s: string, q: char, t: string)
    requires IsCode(LexOf(s)) && IsQuote(q)
    requires forall i | 0 <= i < |t| :: t[i] != '\\' && !IsQuote(t[i])
    ensures CodeBraces(s + [q] + t) == CodeBraces(s)
    ensures IsCode(LexOf(s + [q] + t + [q]))
  {
    LexInvariant(s);
    ReadChar(s, q);
    assert CodeBraces(s + [q]) == CodeBraces(s);
    var open := LexOf(s + [q]);
    assert OpenBy(open, q) && !(open.inDouble && open.inSingle) && !open.escape;
    QuoteHides(s + [q], t);
    var inside := LexOf(s + [q] + t);
    assert OpenBy(inside, q) && !(inside.inDouble && inside.inSingle) && !inside.escape;
    LexInvariant(s + [q] + t);
    LexSnoc(s + [q] + t, q);
  }

  /**
   * Inside a quote, a backslash and the character after it leave the
   * quote open and add no code brace, unless that character is a line
   * end, which leaves the escape pending.
   */
  lemma EscapeKeepsQuote(s: string, c: char)
    requires Quoted(LexOf(s)) && !LexOf(s).escape
    ensures SameQuotes(LexOf(s + ['\\', c]), LexOf(s))
    ensures LexOf(s + ['\\', c]).escape <==> c == '\n'
    ensures CodeBraces(s + ['\\', c]) == CodeBraces(s)
  {
    ReadChar(s, '\\');
    var escaped := LexOf(s + ['\\']);
    assert escaped.escape && SameQuotes(escaped, LexOf(s));
    assert s + ['\\', c] == (s + ['\\']) + [c];
    ReadChar(s + ['\\'], c);
  }

  /**
   * As written, `//` inside a block comment turns it into a line
   * comment, which the next line end closes without any `*` `/`.
   */
  lemma LineCommentInsideBlockComment(s: string)
    requires LexOf(s).comment == BlockComment && !Quoted(LexOf(s))
    requires LexOf(s).lastRead != Some('*')
    ensures LexOf(s + ['/', '/']).comment == LineComment
    ensures IsCode(LexOf(s + ['/', '/', '\n']))
  {
    LexSnoc(s, '/');
    assert s + ['/', '/'] == (s + ['/']) + ['/'];
    LexSnoc(s + ['/'], '/');
    assert s + ['/', '/', '\n'] == (s + ['/', '/']) + ['\n'];
    LexSnoc(s + ['/', '/'], '\n');
  }

  /**
   * As written, a `/` `*` inside a line comment turns it into a block
   * comment, which outlives the line end.
   */
  lemma BlockCommentInsideLineComment(s: string)
    requires LexOf(s).comment == LineComment && !Quoted(LexOf(s))
    ensures LexOf(s + ['/', '*', '\n']).comment == BlockComment
  {
    LexSnoc(s, '/');
    assert s + ['/', '*'] == (s + ['/']) + ['*'];
    LexSnoc(s + ['/'], '*');
    assert s + ['/', '*', '\n'] == (s + ['/', '*']) + ['\n'];
    LexSnoc(s + ['/', '*'], '\n');
  }

  /** The column counts the characters since the last line end, from 1 on the first line and from 0 after. */
  lemma {:induction false} ColumnAfterLastLineEnd(s: string, t: string)
    requires forall i | 0 <= i < |t| :: t[i] != '\n'
    ensures ColumnAfter(t) == |t| + 1 && ColumnAfter(s + ['\n'] + t) == |t|
    decreases |t|
  {
    if |t| == 0 {
      assert s + ['\n'] + t == s + ['\n'];
      ColumnSnoc(s, '\n');
    } else {
      var u, c := t[..|t| - 1], t[|t| - 1];
      assert s + ['\n'] + t == (s + ['\n'] + u) + [c];
      ColumnAfterLastLineEnd(s, u);
      ColumnSnoc(s + ['\n'] + u, c);
      ColumnSnoc(u, c);
      assert u + [c] == t;
    }
  }

  /** The matching of one more brace, unfolded. */
  lemma MatchBracesSnoc(bs: seq<char>, c: char)
    requires MatchBraces(bs).Some?
    ensures MatchBraces(bs + [c]) == StackStep(MatchBraces(bs).value, c)
  {
    assert (bs + [c])[..|bs|] == bs;
  }

  /** `ParsingError` at a closing brace, with its line and column. */
  datatype WalkError =
    | UnexpectedClosingBrace(brace: char, lineNo: int, colNo: int)
    | MismatchedClosingBrace(brace: char, expected: char, lineNo: int, colNo: int)

  /**
   * `CodeState`: the walk's position, the comment and quote being read,
   * and the open braces with the text of each scope.
   */
  class CodeState {
    var index: nat
    var lineNo: int
    var colNo: int
    var commentStart: CommentStart
    var escape: bool
    var quoting: map<char, bool>
    var braceDepth: map<char, int>
    var braceStack: seq<char>
    var line: string
    var commentedLine: string
    var scopeText: seq<string>

    /**
     * The quote flags and depth counters exist; each depth is the number
     * of its brace on the stack, which holds opening braces only; at most
     * one kind of quote is open; and there is a scope per open brace, one
     * for an open quote and the file's own.
     */
    ghost predicate Valid()
      reads this
    {
      quoting.Keys == {'"', '\''} && braceDepth.Keys == {'{', '[', '('}
      && (forall o | o in braceDepth :: braceDepth[o] == Count(braceStack, o))
      && (forall i | 0 <= i < |braceStack| :: IsOpening(braceStack[i]))
      && !(quoting['"'] && quoting['\''])
      && |scopeText| == 1 + |braceStack| + (if QuoteOpen(quoting) then 1 else 0)
    }

    /** The lexical fields. */
    function Lex(): Lexical
      reads this
    {
      Lexical(commentStart, escape, Flag(quoting, '"'), Flag(quoting, '\''), LastOf(commentedLine))
    }

    /** `is_quoted`. */
    function IsQuoted(): bool
      reads this
    {
      QuoteOpen(quoting)
    }

    /** `is_commented`. */
    function IsCommented(): bool
      reads this
    {
      commentStart != NoComment
    }

    /** The state `code_walk` starts from: line 1, column 1, nothing open. */
    constructor ()
      ensures Valid() && Lex() == Start
      ensures index == 0 && lineNo == 1 && colNo == 1 && line == ""
      ensures braceStack == [] && scopeText == [""]
    {
      index := 0;
      lineNo := 1;
      colNo := 1;
      commentStart := NoComment;
      escape := false;
      quoting := map['"' := false, '\'' := false];
      braceDepth := map['{' := 0, '[' := 0, '(' := 0];
      braceStack := [];
      line := "";
      commentedLine := "";
      scopeText := [""];
    }

    /**
     * The comment handling of one turn: `//` and `/*` start a comment
     * outside quotes, dropping the `/` already taken into the line and
     * the scope, and `*/` ends a block comment. Neither braces nor quotes
     * nor lines change.
     */
    method SkipComment(c: char)
      requires Valid()
      modifies this
      ensures Valid()
      ensures Lex() == CommentStep(old(Lex()), c)
      ensures commentedLine == if c == '\n' then old(commentedLine) else old(commentedLine) + [c]
      ensures var last := |old(scopeText)| - 1;
        if StartsComment(old(Lex()), c) then
          line == DropLast(old(line)) && scopeText == old(scopeText)[last := DropLast(old(scopeText)[last])]
        else line == old(line) && scopeText == old(scopeText)
      ensures braceStack == old(braceStack) && braceDepth == old(braceDepth)
      ensures lineNo == old(lineNo) && colNo == old(colNo) && index == old(index)
    {
      if !IsQuoted() {
        if (c == '/' || c == '*') && EndsWith(commentedLine, '/') {
          commentStart := Opener(c);
          line := DropLast(line);
          var last := |scopeText| - 1;
          scopeText := scopeText[last := DropLast(scopeText[last])];
        } else if commentStart == BlockComment && c == '/' && EndsWith(commentedLine, '*') {
          commentStart := NoComment;
        }
      }
      if c != '\n' {
        commentedLine := commentedLine + [c];
      }
    }

    /**
     * The code constructs of one turn: a line end, a character inside a
     * quote, or, outside quotes and comments, a quote or a brace. A
     * closing brace that does not close the top of the stack raises. At
     * most one scope opens, empty, or the innermost one closes.
     */
    method HandleConstruct(c: char) returns (err: Option<WalkError>)
      requires Valid()
      modifies this
      ensures Valid()
      ensures Lex() == ConstructStep(old(Lex()), c)
      ensures commentedLine == if c == '\n' then "" else old(commentedLine)
      ensures lineNo == old(lineNo) + (if c == '\n' then 1 else 0) && index == old(index)
      ensures colNo == (if c == '\n' then 0 else old(colNo)) && line == (if c == '\n' then "" else old(line))
      ensures if IsCode(old(Lex())) && IsBrace(c) then
          (err.None? <==> StackStep(old(braceStack), c).Some?)
          && braceStack == (if err.None? then StackStep(old(braceStack), c).value else old(braceStack))
        else err.None? && braceStack == old(braceStack)
      ensures scopeText == old(scopeText) || scopeText == old(scopeText) + [""]
        || scopeText == old(scopeText)[..|old(scopeText)| - 1]
      ensures err.Some? ==> err.value.lineNo == lineNo && err.value.colNo == colNo && err.value.brace == c
      ensures err.Some? && err.value.UnexpectedClosingBrace? ==> braceStack == []
      ensures err.Some? && err.value.MismatchedClosingBrace? ==>
        braceStack != [] && PairedBrace(braceStack[|braceStack| - 1]) == Success(err.value.expected)
    {
      err := None;
      if c == '\n' {
        EndLine();
      } else if IsQuoted() {
        QuotedChar(c);
      } else if !IsCommented() {
        if c == '"' || c == '\'' {
          OpenQuote(c);
        } else if IsOpening(c) {
          OpenBrace(c);
        } else if IsClosing(c) {
          err := CloseBrace(c);
        }
      }
    }

    /** A line end: the line's texts restart at column 0 and a `//` comment ends. */
    method EndLine()
      requires Valid()
      modifies this
      ensures Valid()
      ensures commentedLine == "" && commentStart == (if old(commentStart) == LineComment then NoComment else old(commentStart))
      ensures escape == old(escape) && quoting == old(quoting)
      ensures line == "" && lineNo == old(lineNo) + 1 && colNo == 0
      ensures index == old(index) && braceStack == old(braceStack) && scopeText == old(scopeText)
    {
      line := "";
      commentedLine := "";
      lineNo := lineNo + 1;
      colNo := 0;
      if commentStart == LineComment {
        commentStart := NoComment;
      }
    }

    /**
     * A character inside a quote: the one after a backslash is skipped,
     * a backslash escapes the next one, and an unescaped quote of the
     * open kind closes the quote with its scope.
     */
    method QuotedChar(c: char)
      requires Valid() && IsQuoted()
      modifies this
      ensures Valid()
      ensures commentStart == old(commentStart) && commentedLine == old(commentedLine)
      ensures if old(escape) then !escape && quoting == old(quoting) && scopeText == old(scopeText)
        else if c == '\\' then escape && quoting == old(quoting) && scopeText == old(scopeText)
        else if IsQuote(c) && old(quoting)[c] then
          !escape && quoting == old(quoting)[c := false] && scopeText == old(scopeText)[..|old(scopeText)| - 1]
        else !escape && quoting == old(quoting) && scopeText == old(scopeText)
      ensures lineNo == old(lineNo) && colNo == old(colNo) && line == old(line)
      ensures index == old(index) && braceStack == old(braceStack)
    {
      if escape {
        escape := false;
      } else if c == '\\' {
        escape := true;
      } else if (c == '"' || c == '\'') && quoting[c] {
        quoting := quoting[c := false];
        scopeText := scopeText[..|scopeText| - 1];
      }
    }

    /** A quote starts, with a scope of its own. */
    method OpenQuote(c: char)
      requires Valid() && !IsQuoted() && IsQuote(c)
      modifies this
      ensures Valid()
      ensures quoting == old(quoting)[c := true] && scopeText == old(scopeText) + [""]
      ensures commentStart == old(commentStart) && escape == old(escape) && commentedLine == old(commentedLine)
      ensures lineNo == old(lineNo) && colNo == old(colNo) && line == old(line)
      ensures index == old(index) && braceStack == old(braceStack)
    {
      quoting := quoting[c := true];
      scopeText := scopeText + [""];
    }

    /** An opening brace is pushed, with a scope of its own. */
    method OpenBrace(c: char)
      requires Valid() && IsOpening(c)
      modifies this
      ensures Valid()
      ensures braceStack == old(braceStack) + [c] && scopeText == old(scopeText) + [""]
      ensures Lex() == old(Lex()) && commentedLine == old(commentedLine)
      ensures lineNo == old(lineNo) && colNo == old(colNo) && line == old(line) && index == old(index)
    {
      CountSnocAll(braceStack, c);
      braceDepth := braceDepth[c := braceDepth[c] + 1];
      braceStack := braceStack + [c];
      scopeText := scopeText + [""];
    }

    /**
     * A closing brace pops its opening brace and the scope, or raises
     * when the stack is empty or its top is another brace.
     */
    method CloseBrace(c: char) returns (err: Option<WalkError>)
      requires Valid() && IsClosing(c)
      modifies this
      ensures Valid()
      ensures err.None? <==> StackStep(old(braceStack), c).Some?
      ensures braceStack == (if err.None? then StackStep(old(braceStack), c).value else old(braceStack))
      ensures scopeText == (if err.None? then old(scopeText)[..|old(scopeText)| - 1] else old(scopeText))
      ensures Lex() == old(Lex()) && commentedLine == old(commentedLine)
      ensures lineNo == old(lineNo) && colNo == old(colNo) && line == old(line) && index == old(index)
      ensures err.Some? ==> err.value.lineNo == lineNo && err.value.colNo == colNo && err.value.brace == c
      ensures err.Some? && err.value.UnexpectedClosingBrace? ==> braceStack == []
      ensures err.Some? && err.value.MismatchedClosingBrace? ==>
        braceStack != [] && PairedBrace(braceStack[|braceStack| - 1]) == Success(err.value.expected)
    {
      var matchingBrace := PairedBrace(c).value;
      if braceStack == [] {
        return Some(UnexpectedClosingBrace(c, lineNo, colNo));
      }
      var top := braceStack[|braceStack| - 1];
      if top != matchingBrace {
        PairedBraceInvolution(c);
        return Some(MismatchedClosingBrace(c, PairedBrace(top).value, lineNo, colNo));
      }
      PairedBraceInvolution(c);
      var rest := braceStack[..|braceStack| - 1];
      assert braceStack == rest + [top];
      CountSnocAll(rest, top);
      braceDepth := braceDepth[matchingBrace := braceDepth[matchingBrace] - 1];
      braceStack := rest;
      scopeText := scopeText[..|scopeText| - 1];
      err := None;
    }

    /**
     * The bookkeeping that ends a turn: the character joins the text of
     * the innermost scope open both before and after the construct,
     * unless it is commented, and the line's text and column unless it
     * ended the line.
     */
    method Bookkeeping(c: char, initialScope: nat, initialLine: int)
      requires Valid()
      modifies this
      ensures Valid()
      ensures index == old(index) + 1
      ensures var k := if initialScope < |old(scopeText)| - 1 then initialScope else |old(scopeText)| - 1;
        scopeText == if IsCommented() then old(scopeText) else old(scopeText)[k := old(scopeText)[k] + [c]]
      ensures if lineNo == initialLine then colNo == old(colNo) + 1 && line == old(line) + [c]
        else colNo == old(colNo) && line == old(line)
      ensures Lex() == old(Lex()) && braceStack == old(braceStack) && lineNo == old(lineNo)
    {
      index := index + 1;
      if !IsCommented() {
        var k := if initialScope < |scopeText| - 1 then initialScope else |scopeText| - 1;
        scopeText := scopeText[k := scopeText[k] + [c]];
      }
      if lineNo == initialLine {
        colNo := colNo + 1;
        line := line + [c];
      }
    }

    /**
     * One turn of the walk's loop, on the character at `index`. A brace
     * read outside quotes and comments is pushed, or pops its opening
     * brace; any other character leaves the stack alone. The lexical
     * state takes one `LexStep`, and the line and column follow the line
     * ends.
     */
    method Advance(c: char) returns (err: Option<WalkError>)
      requires Valid()
      modifies this
      ensures Valid()
      ensures Lex() == LexStep(old(Lex()), c)
      ensures lineNo == old(lineNo) + (if c == '\n' then 1 else 0)
      ensures index == old(index) + (if err.None? then 1 else 0)
      ensures colNo == (if err.Some? then old(colNo) else if c == '\n' then 0 else old(colNo) + 1)
      ensures err.None? ==> line == if c == '\n' then ""
        else (if StartsComment(old(Lex()), c) then DropLast(old(line)) else old(line)) + [c]
      ensures if IsCode(old(Lex())) && IsBrace(c) then
          (err.None? <==> StackStep(old(braceStack), c).Some?)
          && braceStack == (if err.None? then StackStep(old(braceStack), c).value else old(braceStack))
        else err.None? && braceStack == old(braceStack)
      ensures err.Some? ==> err.value.lineNo == lineNo && err.value.colNo == colNo && err.value.brace == c
      ensures err.Some? && err.value.UnexpectedClosingBrace? ==> braceStack == []
      ensures err.Some? && err.value.MismatchedClosingBrace? ==>
        braceStack != [] && PairedBrace(braceStack[|braceStack| - 1]) == Success(err.value.expected)
    {
      var initialScope := |scopeText| - 1;
      var initialLine := lineNo;
      SkipComment(c);
      err := HandleConstruct(c);
      if err.Some? {
        return;
      }
      Bookkeeping(c, initialScope, initialLine);
    }
  }

  /** A stack of opening braces is what matching it gives. */
  lemma {:induction false} MatchBracesOfStack(s: seq<char>)
    requires forall i | 0 <= i < |s| :: IsOpening(s[i])
    ensures MatchBraces(s) == Some(s)
  {
    if |s| > 0 {
      var init, last := s[..|s| - 1], s[|s| - 1];
      assert init + [last] == s;
      MatchBracesOfStack(init);
      assert StackStep(init, last) == Some(s);
    }
  }

  /** Once the code braces of a prefix fail to match, no further text repairs them. */
  lemma CodeBracesFailureIsFinal(s: string, t: string)
    requires MatchBraces(CodeBraces(s)).None?
    ensures MatchBraces(CodeBraces(s + t)).None?
  {
    CodeBracesPrefix(s, t);
    var bs := CodeBraces(s);
    var rest := CodeBraces(s + t)[|bs|..];
    assert bs + rest == CodeBraces(s + t);
    MatchBracesFailureIsFinal(bs, rest);
  }

  /**
   * The walk has read `text[..state.index]`: its lexical state, line and
   * column are those of the text read, and its stack is what matching
   * the code braces read gives.
   */
  ghost predicate WalkedTo(state: CodeState, text: string)
    reads state
  {
    state.Valid() && state.index <= |text|
    && state.Lex() == LexOf(text[..state.index])
    && state.lineNo == 1 + Count(text[..state.index], '\n')
    && state.colNo == ColumnAfter(text[..state.index])
    && MatchBraces(CodeBraces(text[..state.index])) == Some(state.braceStack)
  }

  /**
   * The walk raised e at `text[state.index]`: a closing brace read as
   * code that the matching of the code braces before it rejects, on an
   * empty stack or on another brace's partner, with the line and column
   * of the text read before it.
   */
  ghost predicate Raised(state: CodeState, text: string, e: WalkError)
    reads state
  {
    state.Valid() && state.index < |text|
    && var s := text[..state.index];
    e.brace == text[state.index] && IsClosing(e.brace)
    && MatchBraces(CodeBraces(s)) == Some(state.braceStack)
    && MatchBraces(CodeBraces(text[..state.index + 1])).None?
    && e.lineNo == 1 + Count(s, '\n') && e.colNo == ColumnAfter(s)
    && (e.UnexpectedClosingBrace? ==> state.braceStack == [])
    && (e.MismatchedClosingBrace? ==>
      state.braceStack != [] && PairedBrace(state.braceStack[|state.braceStack| - 1]) == Success(e.expected))
  }

  /**
   * One turn of the loop over `text`: it reads one more character, or
   * raises at a code brace that the matching of the code braces read so
   * far rejects.
   */
  method WalkStep(state: CodeState, text: string) returns (err: Option<WalkError>)
    requires WalkedTo(state, text) && state.index < |text|
    modifies state
    ensures err.None? ==> WalkedTo(state, text) && state.index == old(state.index) + 1
    ensures err.Some? ==> Raised(state, text, err.value) && state.index == old(state.index)
  {
    var i := state.index;
    var c := text[i];
    ghost var s := text[..i];
    ghost var lx, stack := state.Lex(), state.braceStack;
    assert text[..i + 1] == s + [c];
    err := state.Advance(c);
    LexSnoc(s, c);
    CodeBracesSnoc(s, c);
    ColumnSnoc(s, c);
    CountSnoc(s, c, '\n');
    if IsBrace(c) && IsCode(lx) {
      MatchBracesSnoc(CodeBraces(s), c);
      assert MatchBraces(CodeBraces(s + [c])) == StackStep(stack, c);
    } else {
      assert CodeBraces(s + [c]) == CodeBraces(s);
    }
  }

  /**
   * `code_walk(text, ...)`: the walk over the whole text, or up to the
   * closing brace that raises `ParsingError`. It raises exactly when the
   * code braces of the text do not match, at the first code brace that
   * the matching rejects, with that brace's line and column.
   */
  method Walk(text: string) returns (state: CodeState, err: Option<WalkError>)
    ensures fresh(state)
    ensures err.None? <==> MatchBraces(CodeBraces(text)).Some?
    ensures err.None? ==> WalkedTo(state, text) && state.index == |text|
    ensures err.Some? ==> Raised(state, text, err.value)
  {
    state := new CodeState();
    err := None;
    assert text[..0] == [];
    while state.index < |text|
      invariant fresh(state) && WalkedTo(state, text) && err.None?
      decreases |text| - state.index
    {
      err := WalkStep(state, text);
      if err.Some? {
        ghost var j := state.index + 1;
        assert text == text[..j] + text[j..];
        CodeBracesFailureIsFinal(text[..j], text[j..]);
        return;
      }
    }
    assert text[..state.index] == text;
    assert MatchBraces(CodeBraces(text)) == Some(state.braceStack);
  }
}
