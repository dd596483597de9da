/**
 * The token rules of cql_lexer.py, and of main.py, which repeats them and
 * adds two comment rules (`comments`). The rules are tried in the order the
 * lexer tries them: the rule functions in definition order, then the
 * operator strings longest regular expression first, so `>=`, `<=` and `<>`
 * are tried before `>`, `<` and `=`. Spaces and tabs are skipped one at a
 * time, a newline run only advances the line counter, and a character no
 * rule matches is reported and skipped.
 */
module Lexer {
  import opened Text

  datatype TokenType =
    | Select | From | Where | Create | Table | Import | Export | Discard | Rename | Print
    | Join | Using | Procedure | Do | End | Call | And | Limit | As
    | Identifier | StringLit | Number
    | Greater | Less | GreaterEq | LessEq | Equals | NotEquals
    | Comma | Semicolon | LParen | RParen | Star

  /** A token's value: its text, the int of a NUMBER without '.', or the text of a NUMBER with one. */
  datatype Value = Lexeme(text: string) | Int(n: nat) | Decimal(digits: string)

  datatype Token = Token(kind: TokenType, value: Value, lineno: nat, lexpos: nat)

  /** The keyword table, keyed by lower-case spelling. */
  const Reserved: map<string, TokenType> := map[
    "select" := Select, "from" := From, "where" := Where, "create" := Create, "table" := Table,
    "import" := Import, "export" := Export, "discard" := Discard, "rename" := Rename, "print" := Print,
    "join" := Join, "using" := Using, "procedure" := Procedure, "do" := Do, "end" := End,
    "call" := Call, "and" := And, "limit" := Limit, "as" := As
  ]

  /** t_IDENTIFIER: `reserved.get(t.value.lower(), 'IDENTIFIER')`. */
  function IdentifierKind(text: string): (k: TokenType)
    ensures k != Identifier <==> Lower(text) in Reserved
  {
    var key := Lower(text);
    if key in Reserved then Reserved[key] else Identifier
  }

  predicate IsIdentStart(c: char) { 'a' <= c <= 'z' || 'A' <= c <= 'Z' || c == '_' }

  predicate IsIdentChar(c: char) { IsIdentStart(c) || IsDigit(c) }

  /** End of the run of identifier characters starting at pos. */
  function IdentEnd(data: string, pos: nat): (e: nat)
    requires pos <= |data|
    ensures pos <= e <= |data|
    ensures forall k :: pos <= k < e ==> IsIdentChar(data[k])
    ensures e == |data| || !IsIdentChar(data[e])
    decreases |data| - pos
  {
    if pos < |data| && IsIdentChar(data[pos]) then IdentEnd(data, pos + 1) else pos
  }

  /** End of the run of decimal digits starting at pos. */
  function DigitsEnd(data: string, pos: nat): (e: nat)
    requires pos <= |data|
    ensures pos <= e <= |data|
    ensures forall k :: pos <= k < e ==> IsDigit(data[k])
    ensures e == |data| || !IsDigit(data[e])
    decreases |data| - pos
  {
    if pos < |data| && IsDigit(data[pos]) then DigitsEnd(data, pos + 1) else pos
  }

  /** End of the run of newlines starting at pos. */
  function NewlinesEnd(data: string, pos: nat): (e: nat)
    requires pos <= |data|
    ensures pos <= e <= |data|
    ensures forall k :: pos <= k < e ==> data[k] == '\n'
    ensures e == |data| || data[e] != '\n'
    decreases |data| - pos
  {
    if pos < |data| && data[pos] == '\n' then NewlinesEnd(data, pos + 1) else pos
  }

  /** End of the line starting at pos (`.` matches anything but a newline). */
  function LineEnd(data: string, pos: nat): (e: nat)
    requires pos <= |data|
    ensures pos <= e <= |data|
    ensures forall k :: pos <= k < e ==> data[k] != '\n'
    ensures e == |data| || data[e] == '\n'
    decreases |data| - pos
  {
    if pos < |data| && data[pos] != '\n' then LineEnd(data, pos + 1) else pos
  }

  /**
   * The body of a string literal closed by quote q, scanned from pos: the
   * lazy match stops at the first unescaped q; a backslash takes the next
   * character with it; a newline or the end of the input means no match.
   * The result is the position just past the closing quote.
   */
  function StringEnd(data: string, pos: nat, q: char): (r: Option<nat>)
    requires pos <= |data|
    ensures r.Some? ==> pos < r.value <= |data| && data[r.value - 1] == q
    decreases |data| - pos
  {
    if pos >= |data| || data[pos] == '\n' then None
    else if data[pos] == q then Some(pos + 1)
    else if data[pos] == '\\' then
      (if pos + 1 < |data| && data[pos + 1] != '\n' then StringEnd(data, pos + 2, q) else None)
    else StringEnd(data, pos + 1, q)
  }

  /** A "-}" starts at position k. */
  predicate ClosesAt(data: string, k: nat)
  {
    k + 1 < |data| && data[k] == '-' && data[k + 1] == '}'
  }

  /** The lazy end of a `{- ... -}` comment: just past the first "-}" at or after pos, or None when there is none. */
  function BlockEnd(data: string, pos: nat): (r: Option<nat>)
    requires pos <= |data|
    ensures r.Some? ==> pos + 2 <= r.value <= |data| && ClosesAt(data, r.value - 2)
    ensures r.Some? ==> forall k :: pos <= k < r.value - 2 ==> !ClosesAt(data, k)
    ensures r.None? ==> forall k :: pos <= k < |data| ==> !ClosesAt(data, k)
    decreases |data| - pos
  {
    if pos + 1 >= |data| then None
    else if data[pos] == '-' && data[pos + 1] == '}' then Some(pos + 2)
    else BlockEnd(data, pos + 1)
  }

  /** The operator whose two-character pattern is c followed by d, if any. */
  function TwoCharOperator(c: char, d: char): Option<TokenType>
  {
    if c == '>' && d == '=' then Some(GreaterEq)
    else if c == '<' && d == '=' then Some(LessEq)
    else if c == '<' && d == '>' then Some(NotEquals)
    else None
  }

  /** The operator whose one-character pattern is c, if any. */
  function OneCharOperator(c: char): Option<TokenType>
  {
    if c == '(' then Some(LParen)
    else if c == ')' then Some(RParen)
    else if c == '>' then Some(Greater)
    else if c == '<' then Some(Less)
    else if c == '=' then Some(Equals)
    else if c == ',' then Some(Comma)
    else if c == ';' then Some(Semicolon)
    else None
  }

  datatype Rule = IdentRule | StarRule | StringRule | NumberRule | NewlineRule
                | LineCommentRule | BlockCommentRule | OperatorRule(kind: TokenType)

  /** The first rule that matches at pos, in the lexer's order, and where its match ends. */
  function MatchRule(data: string, pos: nat, comments: bool): (r: Option<(Rule, nat)>)
    requires pos < |data|
    ensures r.Some? ==> pos < r.value.1 <= |data|
    ensures r.Some? && r.value.0 == NumberRule ==> IsDigit(data[pos])
    ensures r.Some? && r.value.0 == StringRule ==> pos + 2 <= r.value.1
  {
    var c := data[pos];
    if IsIdentStart(c) then Some((IdentRule, IdentEnd(data, pos + 1)))
    else if c == '*' then Some((StarRule, pos + 1))
    else if (c == '"' || c == '\'') && StringEnd(data, pos + 1, c).Some? then Some((StringRule, StringEnd(data, pos + 1, c).value))
    else if IsDigit(c) then
      var d := DigitsEnd(data, pos + 1);
      Some((NumberRule, if d < |data| && data[d] == '.' then DigitsEnd(data, d + 1) else d))
    else if c == '\n' then Some((NewlineRule, NewlinesEnd(data, pos + 1)))
    else if comments && c == '-' && pos + 1 < |data| && data[pos + 1] == '-' then Some((LineCommentRule, LineEnd(data, pos + 2)))
    else if comments && c == '{' && pos + 1 < |data| && data[pos + 1] == '-' && BlockEnd(data, pos + 2).Some? then
      Some((BlockCommentRule, BlockEnd(data, pos + 2).value))
    else if pos + 1 < |data| && TwoCharOperator(c, data[pos + 1]).Some? then
      Some((OperatorRule(TwoCharOperator(c, data[pos + 1]).value), pos + 2))
    else if OneCharOperator(c).Some? then Some((OperatorRule(OneCharOperator(c).value), pos + 1))
    else None
  }

  /** What the lexer does at one position: where it goes next, the line count, and the token or illegal character. */
  datatype Step = Step(next: nat, line: nat, token: Option<Token>, illegal: Option<char>)

  function StepAt(data: string, pos: nat, line: nat, comments: bool): (s: Step)
    requires pos < |data|
    ensures pos < s.next <= |data|
    ensures s.token.Some? ==> s.illegal.None? && s.line == line
  {
    if data[pos] == ' ' || data[pos] == '\t' then Step(pos + 1, line, None, None)
    else
      match MatchRule(data, pos, comments)
      case None => Step(pos + 1, line, None, Some(data[pos]))
      case Some((rule, e)) => RuleAction(data, pos, line, rule, e)
  }

  /** The rule's action on its match data[pos..e]: the token it returns, or the line count it updates. */
  function RuleAction(data: string, pos: nat, line: nat, rule: Rule, e: nat): (s: Step)
    requires pos < e <= |data|
    requires rule == NumberRule ==> IsDigit(data[pos])
    requires rule == StringRule ==> pos + 2 <= e
    ensures s.next == e && s.illegal.None?
    ensures s.token.Some? ==> s.line == line
  {
    var text := data[pos..e];
    match rule
    case IdentRule => Step(e, line, Some(Token(IdentifierKind(text), Lexeme(text), line, pos)), None)
    case StarRule => Step(e, line, Some(Token(Star, Lexeme(text), line, pos)), None)
    case StringRule => Step(e, line, Some(Token(StringLit, Lexeme(text[1..|text| - 1]), line, pos)), None)
    case NumberRule =>
      var d := DigitsEnd(data, pos + 1);
      var value := if e == d then Int(DigitsValue(data[pos..d])) else Decimal(text);
      Step(e, line, Some(Token(Number, value, line, pos)), None)
    case NewlineRule => Step(e, line + |text|, None, None)
    case LineCommentRule => Step(e, line, None, None)
    case BlockCommentRule => Step(e, line, None, None)
    case OperatorRule(k) => Step(e, line, Some(Token(k, Lexeme(text), line, pos)), None)
  }

  /** The result of asking the lexer for its next token. */
  datatype Scanned = Scanned(token: Option<Token>, pos: nat, line: nat, illegal: seq<char>)

  /** The next token from pos, with the position and line after it and the illegal characters skipped on the way. */
  function Scan(data: string, pos: nat, line: nat, comments: bool): (r: Scanned)
    requires pos <= |data|
    ensures pos <= r.pos <= |data|
    ensures r.token.None? ==> r.pos == |data|
    ensures r.token.Some? ==> pos < r.pos
    decreases |data| - pos
  {
    if pos == |data| then Scanned(None, pos, line, [])
    else
      var s := StepAt(data, pos, line, comments);
      if s.token.Some? then Scanned(s.token, s.next, s.line, [])
      else
        var rest := Scan(data, s.next, s.line, comments);
        rest.(illegal := (if s.illegal.Some? then [s.illegal.value] else []) + rest.illegal)
  }

  /** The whole token stream from pos on, the illegal characters in order, and the final line count. */
  datatype Lexed = Lexed(tokens: seq<Token>, illegal: seq<char>, line: nat)

  function Lex(data: string, pos: nat, line: nat, comments: bool): Lexed
    requires pos <= |data|
    decreases |data| - pos
  {
    var s := Scan(data, pos, line, comments);
    if s.token.None? then Lexed([], s.illegal, s.line)
    else
      var rest := Lex(data, s.pos, s.line, comments);
      Lexed([s.token.value] + rest.tokens, s.illegal + rest.illegal, rest.line)
  }

  /** Keywords are recognised whatever their case, and any other identifier is an IDENTIFIER. */
  lemma KeywordsIgnoreCase()
    ensures IdentifierKind("SeLeCt") == Select
    ensures IdentifierKind("WHERE") == Where
    ensures IdentifierKind("selection") == Identifier
  {
    assert Lower("SeLeCt") == "select";
    assert Lower("WHERE") == "where";
    assert Lower("selection") == "selection";
  }

  /** Two spellings that lower-case alike get the same token type. */
  lemma SameKindWhenLowerAgrees(a: string, b: string)
    requires Lower(a) == Lower(b)
    ensures IdentifierKind(a) == IdentifierKind(b)
  {
  }

  /** An identifier token carries the longest run of identifier characters, and its type is the keyword lookup of it. */
  lemma IdentifierToken(data: string, pos: nat, line: nat, comments: bool)
    requires pos < |data| && IsIdentStart(data[pos])
    ensures var s := StepAt(data, pos, line, comments);
      && s.token.Some?
      && s.token.value.value == Lexeme(data[pos..s.next])
      && s.token.value.kind == IdentifierKind(data[pos..s.next])
      && (forall k :: pos <= k < s.next ==> IsIdentChar(data[k]))
      && (s.next == |data| || !IsIdentChar(data[s.next]))
  {
  }

  /**
   * At a quote whose literal closes, the token is a STRING whose value is the
   * matched text without the opening and closing quote, which are the same character.
   */
  lemma StringTokenValue(data: string, pos: nat, line: nat, comments: bool)
    requires pos < |data| && (data[pos] == '"' || data[pos] == '\'')
    requires StringEnd(data, pos + 1, data[pos]).Some?
    ensures var s := StepAt(data, pos, line, comments);
      && s.token.Some? && s.token.value.kind == StringLit
      && s.next == StringEnd(data, pos + 1, data[pos]).value
      && data[pos..s.next] == [data[pos]] + s.token.value.value.text + [data[pos]]
  {
    var e := StringEnd(data, pos + 1, data[pos]).value;
    assert MatchRule(data, pos, comments) == Some((StringRule, e));
    assert StepAt(data, pos, line, comments) == RuleAction(data, pos, line, StringRule, e);
    StringAction(data, pos, line, e);
  }

  /** t_STRING's action: the value is the match without its first and last character. */
  lemma StringAction(data: string, pos: nat, line: nat, e: nat)
    requires pos + 2 <= e <= |data| && data[e - 1] == data[pos]
    ensures var s := RuleAction(data, pos, line, StringRule, e);
      && s.token.Some? && s.token.value.kind == StringLit
      && data[pos..e] == [data[pos]] + s.token.value.value.text + [data[pos]]
  {
    var text := data[pos..e];
    assert text == [text[0]] + text[1..|text| - 1] + [text[|text| - 1]];
  }

  /** A body with no quote of its kind, backslash or newline scans to the closing quote. */
  lemma {:induction false} StringEndPlain(data: string, pos: nat, q: char, n: nat)
    requires q != '\n' && pos + n < |data| && data[pos + n] == q
    requires forall k :: pos <= k < pos + n ==> data[k] != q && data[k] != '\\' && data[k] != '\n'
    ensures StringEnd(data, pos, q) == Some(pos + n + 1)
    decreases n
  {
    if n > 0 {
      StringEndPlain(data, pos + 1, q, n - 1);
    }
  }

  /** Quoting a plain text and lexing it gives a STRING token holding the text: t_STRING undoes the quoting. */
  lemma StringRoundTrip(s: string, q: char, line: nat, comments: bool)
    requires q == '"' || q == '\''
    requires forall k :: 0 <= k < |s| ==> s[k] != q && s[k] != '\\' && s[k] != '\n'
    ensures var data := [q] + s + [q];
      StepAt(data, 0, line, comments) == Step(|data|, line, Some(Token(StringLit, Lexeme(s), line, 0)), None)
  {
    var data := [q] + s + [q];
    StringEndPlain(data, 1, q, |s|);
    assert data[0..|data|][1..|data| - 1] == s;
  }

  /** The digits of a natural number lex back to a NUMBER token with that integer value. */
  lemma NumberRoundTrip(n: nat, line: nat, comments: bool)
    ensures var data := NatToString(n);
      StepAt(data, 0, line, comments) == Step(|data|, line, Some(Token(Number, Int(n), line, 0)), None)
  {
    var data := NatToString(n);
    NatToStringRoundTrip(n);
    DigitsToEnd(data, 1);
    assert data[0..|data|] == data;
  }

  /** In a string of digits, the digit run from pos reaches the end. */
  lemma {:induction false} DigitsToEnd(data: string, pos: nat)
    requires pos <= |data| && AllDigits(data)
    ensures DigitsEnd(data, pos) == |data|
    decreases |data| - pos
  {
    if pos < |data| {
      DigitsToEnd(data, pos + 1);
    }
  }

  /** A NUMBER token without '.' has the integer value of its digits; one with '.' keeps its text. */
  lemma NumberTokenValue(data: string, pos: nat, line: nat, comments: bool)
    requires pos < |data| && IsDigit(data[pos])
    ensures var s := StepAt(data, pos, line, comments);
      && s.token.Some? && s.token.value.kind == Number
      && ('.' !in data[pos..s.next] ==> AllDigits(data[pos..s.next]) && s.token.value.value == Int(DigitsValue(data[pos..s.next])))
      && ('.' in data[pos..s.next] ==> s.token.value.value == Decimal(data[pos..s.next]))
  {
    var s := StepAt(data, pos, line, comments);
    var d := DigitsEnd(data, pos + 1);
    if s.next != d {
      assert data[pos..s.next][d - pos] == '.';
    } else {
      assert forall k :: 0 <= k < s.next - pos ==> data[pos..s.next][k] == data[pos + k];
    }
  }

  /** A run of k newlines yields no token and adds k to the line count. */
  lemma NewlinesCounted(data: string, pos: nat, line: nat, comments: bool)
    requires pos < |data| && data[pos] == '\n'
    ensures var s := StepAt(data, pos, line, comments);
      && s.token.None? && s.illegal.None?
      && s.line == line + (s.next - pos)
      && (forall k :: pos <= k < s.next ==> data[k] == '\n')
      && (s.next == |data| || data[s.next] != '\n')
  {
  }

  /** A space or a tab yields nothing and moves one character on. */
  lemma BlanksIgnored(data: string, pos: nat, line: nat, comments: bool)
    requires pos < |data| && (data[pos] == ' ' || data[pos] == '\t')
    ensures StepAt(data, pos, line, comments) == Step(pos + 1, line, None, None)
    ensures Scan(data, pos, line, comments) == Scan(data, pos + 1, line, comments)
  {
  }

  /** A character no rule matches is reported, exactly it is skipped, and lexing goes on from the next one. */
  lemma IllegalSkipsOne(data: string, pos: nat, line: nat, comments: bool)
    requires pos < |data| && data[pos] != ' ' && data[pos] != '\t'
    requires MatchRule(data, pos, comments).None?
    ensures StepAt(data, pos, line, comments) == Step(pos + 1, line, None, Some(data[pos]))
    ensures var rest := Scan(data, pos + 1, line, comments);
      Scan(data, pos, line, comments) == rest.(illegal := [data[pos]] + rest.illegal)
  {
  }

  /** Wherever `>=`, `<=` or `<>` appears, it is lexed as one two-character token. */
  lemma TwoCharOperatorAt(data: string, pos: nat, line: nat, comments: bool)
    requires pos + 1 < |data| && TwoCharOperator(data[pos], data[pos + 1]).Some?
    ensures StepAt(data, pos, line, comments)
         == Step(pos + 2, line, Some(Token(TwoCharOperator(data[pos], data[pos + 1]).value, Lexeme(data[pos..pos + 2]), line, pos)), None)
  {
  }

  /** A one-character operator not followed by the second half of a two-character one is a token on its own. */
  lemma OneCharOperatorAt(data: string, pos: nat, line: nat, comments: bool)
    requires pos < |data| && OneCharOperator(data[pos]).Some?
    requires pos + 1 == |data| || TwoCharOperator(data[pos], data[pos + 1]).None?
    ensures StepAt(data, pos, line, comments)
         == Step(pos + 1, line, Some(Token(OneCharOperator(data[pos]).value, Lexeme(data[pos..pos + 1]), line, pos)), None)
  {
  }

  /** With the comment rules, `--` skips to the end of its line wherever it appears; without them its '-' is illegal. */
  lemma LineCommentAt(data: string, pos: nat, line: nat)
    requires pos + 1 < |data| && data[pos] == '-' && data[pos + 1] == '-'
    ensures StepAt(data, pos, line, true) == Step(LineEnd(data, pos + 2), line, None, None)
    ensures StepAt(data, pos, line, false) == Step(pos + 1, line, None, Some('-'))
  {
  }

  /**
   * With the comment rules, `{-` skips to just past the first "-}" after it;
   * when there is none, its '{' is illegal.
   */
  lemma BlockCommentAt(data: string, pos: nat, line: nat)
    requires pos + 1 < |data| && data[pos] == '{' && data[pos + 1] == '-'
    ensures BlockEnd(data, pos + 2).Some? ==> StepAt(data, pos, line, true) == Step(BlockEnd(data, pos + 2).value, line, None, None)
    ensures BlockEnd(data, pos + 2).None? ==> StepAt(data, pos, line, true) == Step(pos + 1, line, None, Some('{'))
  {
  }

  /** Examples: `>=` and `<>` are single tokens, while `> =` is `>` then `=`. */
  lemma TwoCharOperatorsFirst(line: nat, comments: bool)
    ensures StepAt(">=", 0, line, comments) == Step(2, line, Some(Token(GreaterEq, Lexeme(">="), line, 0)), None)
    ensures StepAt("<>", 0, line, comments) == Step(2, line, Some(Token(NotEquals, Lexeme("<>"), line, 0)), None)
    ensures StepAt("> =", 0, line, comments) == Step(1, line, Some(Token(Greater, Lexeme(">"), line, 0)), None)
  {
    assert ">="[0..2] == ">=";
    assert "<>"[0..2] == "<>";
    assert "> ="[0..1] == ">";
  }

  /** Example: `--x` is skipped up to its newline with the comment rules, and its '-' is illegal without them. */
  lemma LineComments(line: nat)
    ensures StepAt("--x\n", 0, line, true) == Step(3, line, None, None)
    ensures StepAt("--x\n", 0, line, false) == Step(1, line, None, Some('-'))
  {
    var data := "--x\n";
    assert LineEnd(data, 3) == 3;
    assert LineEnd(data, 2) == 3;
  }

  /** Example: `{-a-}b-}` ends at the first "-}", and an unclosed `{-` leaves its '{' illegal. */
  lemma BlockComments(line: nat)
    ensures StepAt("{-a-}b-}", 0, line, true) == Step(5, line, None, None)
    ensures StepAt("{-}", 0, line, true) == Step(1, line, None, Some('{'))
  {
    var data := "{-a-}b-}";
    assert BlockEnd(data, 3) == Some(5);
    assert BlockEnd(data, 2) == Some(5);
    var open := "{-}";
    assert BlockEnd(open, 2) == None;
  }

  /**
   * The lexer object: the input, the position and the line counter that the
   * rule actions t_newline and t_error update.
   */
  class Lexer {
    const lexdata: string
    const comments: bool
    var lexpos: nat
    var lineno: nat

    constructor(data: string, comments: bool)
      ensures lexdata == data && this.comments == comments && lexpos == 0 && lineno == 1
    {
      lexdata := data;
      this.comments := comments;
      lexpos := 0;
      lineno := 1;
    }

    /** t_newline: `t.lexer.lineno += len(t.value)`. */
    method Newline(text: string)
      modifies this
      ensures lineno == old(lineno) + |text| && lexpos == old(lexpos)
    {
      lineno := lineno + |text|;
    }

    /** t_error: the illegal character is reported and `skip(1)` moves past it. */
    method Error() returns (c: char)
      requires lexpos < |lexdata|
      modifies this
      ensures c == lexdata[old(lexpos)] && lexpos == old(lexpos) + 1 && lineno == old(lineno)
    {
      c := lexdata[lexpos];
      lexpos := lexpos + 1;
    }

    /**
     * One position of lexer.token() that yields no token: a blank is
     * skipped, a newline run goes to t_newline, a comment is discarded, and
     * a character no rule matches goes to t_error.
     */
    method Discarded() returns (skipped: seq<char>)
      requires lexpos < |lexdata| && StepAt(lexdata, lexpos, lineno, comments).token.None?
      modifies this
      ensures var s := StepAt(lexdata, old(lexpos), old(lineno), comments);
        lexpos == s.next && lineno == s.line && skipped == (if s.illegal.Some? then [s.illegal.value] else [])
    {
      var c := lexdata[lexpos];
      if c == ' ' || c == '\t' {
        lexpos := lexpos + 1;
        return [];
      }
      StepOfRule(lexdata, lexpos, lineno, comments);
      var m := MatchRule(lexdata, lexpos, comments);
      if m.None? {
        var bad := Error();
        return [bad];
      }
      var (rule, e) := m.value;
      if rule == NewlineRule {
        Newline(lexdata[lexpos..e]);
      }
      lexpos := e;
      return [];
    }

    /**
     * lexer.token(): skips blanks, discarded newline and comment matches and
     * illegal characters until a rule yields a token or the input ends.
     */
    method NextToken() returns (tok: Option<Token>, illegal: seq<char>)
      requires lexpos <= |lexdata|
      modifies this
      ensures var s := Scan(lexdata, old(lexpos), old(lineno), comments);
        tok == s.token && lexpos == s.pos && lineno == s.line && illegal == s.illegal
    {
      ghost var start := Scan(lexdata, lexpos, lineno, comments);
      illegal := [];
      while lexpos < |lexdata|
        invariant lexpos <= |lexdata|
        invariant ScannedAfter(start, illegal, Scan(lexdata, lexpos, lineno, comments))
        decreases |lexdata| - lexpos
      {
        var step := StepAt(lexdata, lexpos, lineno, comments);
        if step.token.Some? {
          lexpos := step.next;
          return step.token, illegal;
        }
        ScanSkips(lexdata, lexpos, lineno, comments);
        ghost var here := Scan(lexdata, lexpos, lineno, comments);
        var skipped := Discarded();
        ghost var rest := Scan(lexdata, lexpos, lineno, comments);
        assert here == rest.(illegal := skipped + rest.illegal);
        ScannedAfterAppend(start, illegal, skipped, rest);
        illegal := illegal + skipped;
      }
      return None, illegal;
    }
  }

  /** The scan from the start is `rest` with `skipped` illegal characters in front. */
  ghost predicate ScannedAfter(start: Scanned, skipped: seq<char>, rest: Scanned)
  {
    start == rest.(illegal := skipped + rest.illegal)
  }

  lemma ScannedAfterAppend(start: Scanned, skipped: seq<char>, more: seq<char>, rest: Scanned)
    requires ScannedAfter(start, skipped, rest.(illegal := more + rest.illegal))
    ensures ScannedAfter(start, skipped + more, rest)
  {
    assert skipped + (more + rest.illegal) == skipped + more + rest.illegal;
  }

  /** A position that yields no token: the scan goes on from where the step leaves off. */
  lemma ScanSkips(data: string, pos: nat, line: nat, comments: bool)
    requires pos < |data| && StepAt(data, pos, line, comments).token.None?
    ensures var s := StepAt(data, pos, line, comments);
      var rest := Scan(data, s.next, s.line, comments);
      Scan(data, pos, line, comments) == rest.(illegal := (if s.illegal.Some? then [s.illegal.value] else []) + rest.illegal)
  {
  }

  /** What one step does, by the rule that matched. */
  lemma StepOfRule(data: string, pos: nat, line: nat, comments: bool)
    requires pos < |data| && data[pos] != ' ' && data[pos] != '\t'
    ensures var s := StepAt(data, pos, line, comments);
      var m := MatchRule(data, pos, comments);
      && (m.None? ==> s == Step(pos + 1, line, None, Some(data[pos])))
      && (m.Some? && m.value.0 == NewlineRule ==> s == Step(m.value.1, line + (m.value.1 - pos), None, None))
      && (m.Some? && (m.value.0 == LineCommentRule || m.value.0 == BlockCommentRule) ==> s == Step(m.value.1, line, None, None))
      && (m.Some? && m.value.0 !in {NewlineRule, LineCommentRule, BlockCommentRule} ==> s.token.Some? && s.next == m.value.1)
  {
  }

  /** Runs the lexer over the whole input, collecting every token and every illegal character. */
  method Tokenize(data: string, comments: bool) returns (tokens: seq<Token>, illegal: seq<char>, line: nat)
    ensures Lexed(tokens, illegal, line) == Lex(data, 0, 1, comments)
  {
    var lexer := new Lexer(data, comments);
    ghost var total := Lex(data, 0, 1, comments);
    tokens, illegal := [], [];
    assert LexedAfter(total, tokens, illegal, total);
    while true
      invariant lexer.lexdata == data && lexer.comments == comments && lexer.lexpos <= |data|
      invariant LexedAfter(total, tokens, illegal, Lex(data, lexer.lexpos, lexer.lineno, comments))
      decreases |data| - lexer.lexpos
    {
      LexStep(total, tokens, illegal, data, lexer.lexpos, lexer.lineno, comments);
      var tok, skipped := lexer.NextToken();
      illegal := illegal + skipped;
      if tok.None? {
        return tokens, illegal, lexer.lineno;
      }
      tokens := tokens + [tok.value];
    }
  }

  /** The stream gathered so far followed by the rest of it is the whole stream. */
  ghost predicate LexedAfter(total: Lexed, tokens: seq<Token>, illegal: seq<char>, rest: Lexed)
  {
    total == Lexed(tokens + rest.tokens, illegal + rest.illegal, rest.line)
  }

  /** One scan moves its token and illegal characters from the rest of the stream to the part gathered. */
  lemma LexStep(total: Lexed, tokens: seq<Token>, illegal: seq<char>, data: string, pos: nat, line: nat, comments: bool)
    requires pos <= |data|
    requires LexedAfter(total, tokens, illegal, Lex(data, pos, line, comments))
    ensures var s := Scan(data, pos, line, comments);
      if s.token.None? then total == Lexed(tokens, illegal + s.illegal, s.line)
      else LexedAfter(total, tokens + [s.token.value], illegal + s.illegal, Lex(data, s.pos, s.line, comments))
  {
    var s := Scan(data, pos, line, comments);
    LexUnfold(data, pos, line, comments);
    if s.token.Some? {
      GatherToken(total, tokens, illegal, s, Lex(data, pos, line, comments), Lex(data, s.pos, s.line, comments));
    }
  }

  /** Moving one scanned token from the rest of the stream to the part gathered keeps the whole stream. */
  lemma GatherToken(total: Lexed, tokens: seq<Token>, illegal: seq<char>, s: Scanned, whole: Lexed, rest: Lexed)
    requires LexedAfter(total, tokens, illegal, whole)
    requires s.token.Some? && whole == Lexed([s.token.value] + rest.tokens, s.illegal + rest.illegal, rest.line)
    ensures LexedAfter(total, tokens + [s.token.value], illegal + s.illegal, rest)
  {
    assert tokens + ([s.token.value] + rest.tokens) == tokens + [s.token.value] + rest.tokens;
    assert illegal + (s.illegal + rest.illegal) == illegal + s.illegal + rest.illegal;
  }

  /** One unfolding of Lex: the scan's token, then the rest of the stream from where the scan stopped. */
  lemma LexUnfold(data: string, pos: nat, line: nat, comments: bool)
    requires pos <= |data|
    ensures var s := Scan(data, pos, line, comments);
      var rest := Lex(data, s.pos, s.line, comments);
      Lex(data, pos, line, comments) ==
        if s.token.None? then Lexed([], s.illegal, s.line)
        else Lexed([s.token.value] + rest.tokens, s.illegal + rest.illegal, rest.line)
  {
  }
}
