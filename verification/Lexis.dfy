/** The scanner of stage 10, as functions on the characters still to be read. */
module Lexis {
  import opened Wrappers
  import opened Words
  import opened Ast
  import opened Tokens

  const TEXTLEN: nat := 512

  predicate IsSpace(c: char) {
    c == ' ' || c == '\t' || c == '\n' || c == '\r' || c == '\U{c}'
  }

  predicate IsDigit(c: char) {
    '0' <= c <= '9'
  }

  predicate IsLetter(c: char) {
    'a' <= c <= 'z' || 'A' <= c <= 'Z' || c == '_'
  }

  predicate IsWord(c: char) {
    IsLetter(c) || IsDigit(c)
  }

  const NUL: char := '\0'

  /** `chrpos("0123456789", c)`: like `strchr`, it also finds the NUL that ends the string. */
  function DigitValue(c: char): Option<nat> {
    if IsDigit(c) then Some(c as int - '0' as int) else if c == NUL then Some(10) else None
  }

  /** What is left to read after the first character of `s` was read and put back: a NUL is
      taken for nothing put back. */
  function PutBack(s: string): string {
    if s != [] && s[0] == NUL then s[1..] else s
  }

  function Skip(s: string): (r: string)
    ensures |r| <= |s| && (r != [] ==> !IsSpace(r[0]))
  {
    if s != [] && IsSpace(s[0]) then Skip(s[1..]) else s
  }

  function ScanInt(s: string, val: nat): (r: (nat, string))
    ensures |r.1| <= |s|
  {
    if s == [] || DigitValue(s[0]).None? then (val, PutBack(s))
    else ScanInt(s[1..], val * 10 + DigitValue(s[0]).value)
  }

  /** The word that `s` begins with, after `buf`; None if it is too long for the buffer. */
  function ScanIdent(s: string, buf: string): (r: Option<(string, string)>)
    ensures r.Some? ==> |r.value.1| <= |s|
  {
    if s == [] || !IsWord(s[0]) then Some((buf, PutBack(s)))
    else if |buf| == TEXTLEN - 1 then None
    else ScanIdent(s[1..], buf + [s[0]])
  }

  function Keyword(s: string): Option<Token> {
    if s == "else" then Some(TElse)
    else if s == "for" then Some(TFor)
    else if s == "if" then Some(TIf)
    else if s == "int" then Some(TInt)
    else if s == "print" then Some(TPrint)
    else if s == "while" then Some(TWhile)
    else None
  }

  /** The end of the input, or a token and what is left after it. */
  datatype Lexed = End | Lexed(token: Token, rest: string)

  /** A one-character token. */
  function Single(c: char): Option<Token> {
    match c
    case '+' => Some(TOp(Add))
    case '-' => Some(TOp(Subtract))
    case '*' => Some(TOp(Multiply))
    case '/' => Some(TOp(Divide))
    case ';' => Some(TSemi)
    case '{' => Some(TLBrace)
    case '}' => Some(TRBrace)
    case '(' => Some(TLParen)
    case ')' => Some(TRParen)
    case _ => None
  }

  /** A token that may go on with '=': alone (None for '!', which may not stand alone), and with it. */
  function Double(c: char): Option<(Option<Token>, Token)> {
    match c
    case '=' => Some((Some(TAssign), TOp(Eq)))
    case '!' => Some((None, TOp(Ne)))
    case '<' => Some((Some(TOp(Lt)), TOp(Le)))
    case '>' => Some((Some(TOp(Gt)), TOp(Ge)))
    case _ => None
  }

  /** `scan`: the next token. None is a fatal error; so is a literal beyond the range of int. */
  function Scan(text: string): (r: Option<Lexed>)
    ensures r.Some? && r.value.Lexed? ==> |r.value.rest| < |text|
  {
    var s := Skip(text);
    if s == [] then Some(End)
    else
      var c, rest := s[0], s[1..];
      if Single(c).Some? then Some(Lexed(Single(c).value, rest))
      else if Double(c).Some? then
        var (alone, both) := Double(c).value;
        if rest != [] && rest[0] == '=' then Some(Lexed(both, rest[1..]))
        else
          var t :- alone;
          Some(Lexed(t, PutBack(rest)))
      else if IsDigit(c) then
        var (v, left) := ScanInt(s, 0);
        if v < TWO_31 then Some(Lexed(TLit(v), left)) else None
      else if IsLetter(c) then
        var (word, left) :- ScanIdent(s, []);
        Some(Lexed(match Keyword(word) case Some(t) => t case None => TIdent(word), left))
      else None
  }

  /** All tokens of a text. */
  function ScanAll(text: string): Option<seq<Token>>
    decreases |text|
  {
    var l :- Scan(text);
    if l.End? then Some([])
    else
      var ts :- ScanAll(l.rest);
      Some([l.token] + ts)
  }

  function Newlines(s: string): nat {
    if s == [] then 0 else Newlines(s[..|s| - 1]) + if s[|s| - 1] == '\n' then 1 else 0
  }

  // ---------- Spelling ----------

  const LOWER: string := "abcdefghijklmnopqrstuvwxyz"
  const UPPER: string := "ABCDEFGHIJKLMNOPQRSTUVWXYZ"
  const DIGITS: string := "0123456789"

  const KEYWORDS: seq<string> := ["else", "for", "if", "int", "print", "while"]

  predicate Letter(c: char) {
    c in LOWER || c in UPPER || c == '_'
  }

  predicate Digit(c: char) {
    c in DIGITS
  }

  predicate LetterOrDigit(c: char) {
    Letter(c) || Digit(c)
  }

  predicate AllDigits(s: string) {
    forall c :: c in s ==> Digit(c)
  }

  /** The number that digits stand for, leading zeros or not. */
  function Number(digits: string): nat
    requires AllDigits(digits)
  {
    if digits == [] then 0
    else
      var last := digits[|digits| - 1];
      assert last in digits;
      CharacterClasses(last);
      Number(digits[..|digits| - 1]) * 10 + (last as int - '0' as int)
  }

  /** Every number has digits. */
  function Digits(n: nat): (r: string)
    ensures r != [] && AllDigits(r) && Number(r) == n
  {
    var last := ('0' as int + n % 10) as char;
    CharacterClasses(last);
    if n < 10 then [last]
    else
      var front := Digits(n / 10);
      assert (front + [last])[..|front|] == front;
      front + [last]
  }

  function OperatorText(op: BinOp): string {
    match op
    case Add => "+" case Subtract => "-" case Multiply => "*" case Divide => "/"
    case Eq => "==" case Ne => "!=" case Lt => "<" case Gt => ">" case Le => "<=" case Ge => ">="
  }

  /** What a token with one spelling looks like. */
  function Fixed(t: Token): string {
    match t
    case TLit(_) => ""
    case TIdent(x) => x
    case TOp(op) => OperatorText(op)
    case TAssign => "=" case TSemi => ";"
    case TLBrace => "{" case TRBrace => "}" case TLParen => "(" case TRParen => ")"
    case TPrint => "print" case TInt => "int" case TIf => "if"
    case TElse => "else" case TWhile => "while" case TFor => "for"
  }

  /** Words that start with a letter and fit into the buffer. */
  predicate IsName(word: string) {
    1 <= |word| <= 511 && Letter(word[0]) && forall c :: c in word ==> LetterOrDigit(c)
  }

  /** Literals are digits, and names are no keywords. */
  predicate IsSpelling(word: string, t: Token) {
    match t
    case TLit(v) => word != [] && AllDigits(word) && Number(word) == v
    case TIdent(x) => word == x && IsName(x) && x !in KEYWORDS
    case _ => word == Fixed(t)
  }

  /** Would a token go on with the character that follows it? */
  predicate GoesOn(t: Token, c: char) {
    match t
    case TLit(_) => Digit(c)
    case TIdent(_) | TPrint | TInt | TIf | TElse | TWhile | TFor => LetterOrDigit(c)
    case TAssign => c == '='
    case TOp(op) => (op == Lt || op == Gt) && c == '='
    case _ => false
  }

  /** Spaces, tabs, newlines, carriage returns and form feeds. */
  predicate Blank(s: string) {
    forall c :: c in s ==> c in [' ', '\t', '\n', '\r', '\U{c}']
  }

  /** A token as it is written, with the space before it. */
  datatype Piece = Piece(space: string, word: string, token: Token)

  function Text(ps: seq<Piece>, tail: string): string {
    if ps == [] then tail else ps[0].space + (ps[0].word + Text(ps[1..], tail))
  }

  /** Space is only needed where a token would go on with the next one's first character. */
  predicate Legible(ps: seq<Piece>, tail: string) {
    if ps == [] then Blank(tail)
    else
      && Blank(ps[0].space) && IsSpelling(ps[0].word, ps[0].token)
      && StopsBefore(ps[0].token, Text(ps[1..], tail))
      && Legible(ps[1..], tail)
  }

  predicate StopsBefore(t: Token, rest: string) {
    rest != [] ==> !GoesOn(t, rest[0]) && rest[0] != '\0'
  }

  function TokensOf(ps: seq<Piece>): seq<Token> {
    seq(|ps|, i requires 0 <= i < |ps| => ps[i].token)
  }

  // ---------- Character classes ----------

  lemma LowerAt(i: nat)
    requires i < 26
    ensures LOWER[i] as int == 'a' as int + i
  {
  }

  lemma UpperAt(i: nat)
    requires i < 26
    ensures UPPER[i] as int == 'A' as int + i
  {
  }

  lemma DigitAt(i: nat)
    requires i < 10
    ensures DIGITS[i] as int == '0' as int + i
  {
  }

  lemma InRange(s: string, first: char, c: char)
    requires forall i :: 0 <= i < |s| ==> s[i] as int == first as int + i
    ensures c in s <==> first as int <= c as int < first as int + |s|
  {
    if first as int <= c as int < first as int + |s| {
      assert s[c as int - first as int] == c;
    }
  }

  /** The scanner's tests find the letters and digits, listed one by one. */
  lemma CharacterClasses(c: char)
    ensures IsLetter(c) <==> Letter(c)
    ensures IsDigit(c) <==> Digit(c)
    ensures IsWord(c) <==> LetterOrDigit(c)
  {
    assert IsDigit(c) <==> Digit(c) by {
      forall i | 0 <= i < 10 ensures DIGITS[i] as int == '0' as int + i { DigitAt(i); }
      InRange(DIGITS, '0', c);
    }
    assert 'a' <= c <= 'z' <==> c in LOWER by {
      forall i | 0 <= i < 26 ensures LOWER[i] as int == 'a' as int + i { LowerAt(i); }
      InRange(LOWER, 'a', c);
    }
    assert 'A' <= c <= 'Z' <==> c in UPPER by {
      forall i | 0 <= i < 26 ensures UPPER[i] as int == 'A' as int + i { UpperAt(i); }
      InRange(UPPER, 'A', c);
    }
  }

  lemma Classes()
    ensures forall c :: IsLetter(c) <==> Letter(c)
    ensures forall c :: IsDigit(c) <==> Digit(c)
    ensures forall c :: IsWord(c) <==> LetterOrDigit(c)
  {
    hide Letter, Digit, LetterOrDigit, IsLetter, IsDigit, IsWord;
    forall c: char
      ensures IsLetter(c) <==> Letter(c)
      ensures IsDigit(c) <==> Digit(c)
      ensures IsWord(c) <==> LetterOrDigit(c)
    {
      CharacterClasses(c);
    }
  }

  lemma KeywordsListed(word: string)
    ensures Keyword(word).Some? <==> word in KEYWORDS
  {
  }

  // ---------- Round trip ----------

  lemma FirstBlank(space: string, text: string)
    requires Blank(space) && space <= text && (space == [] ==> text == [])
    ensures text != [] ==> IsSpace(text[0])
  {
    if space != [] {
      assert text[0] == space[0] && space[0] in space;
      var blanks := [' ', '\t', '\n', '\r', '\U{c}'];
      assert space[0] in blanks;
      var i :| 0 <= i < |blanks| && blanks[i] == space[0];
      assert i == 0 || i == 1 || i == 2 || i == 3 || i == 4;
    }
  }

  lemma {:induction false} SkipBlank(space: string, s: string)
    requires Blank(space)
    ensures Skip(space + s) == Skip(s)
  {
    if space == [] {
      assert space + s == s;
    } else {
      FirstBlank(space, space);
      assert (space + s)[1..] == space[1..] + s;
      SkipBlank(space[1..], s);
    }
  }

  lemma ScanSkips(space: string, s: string)
    requires Blank(space)
    ensures Scan(space + s) == Scan(s)
  {
    hide Skip, ScanInt, ScanIdent, Single, Double, Keyword;
    SkipBlank(space, s);
  }

  lemma {:induction false} ScanDigits(digits: string, rest: string)
    requires AllDigits(digits)
    ensures ScanInt(digits + rest, 0) == ScanInt(rest, Number(digits))
    decreases |digits|
  {
    hide Letter, Digit;
    Classes();
    if digits == [] {
      assert digits + rest == rest;
    } else {
      var front, last := digits[..|digits| - 1], digits[|digits| - 1];
      assert digits + rest == front + ([last] + rest);
      ScanDigits(front, [last] + rest);
      assert ([last] + rest)[1..] == rest;
    }
  }

  lemma {:induction false} ScanWord(word: string, buf: string, rest: string)
    requires forall c :: c in word ==> IsWord(c)
    requires |buf| + |word| < TEXTLEN
    requires rest == [] || (!IsWord(rest[0]) && rest[0] != NUL)
    ensures ScanIdent(word + rest, buf) == Some((buf + word, rest))
    decreases |word|
  {
    if word == [] {
      assert word + rest == rest && buf + word == buf;
    } else {
      assert (word + rest)[1..] == word[1..] + rest;
      assert buf + [word[0]] + word[1..] == buf + word;
      ScanWord(word[1..], buf + [word[0]], rest);
    }
  }

  lemma WordToken(word: string, rest: string)
    requires IsName(word) && (rest == [] || (!LetterOrDigit(rest[0]) && rest[0] != NUL))
    ensures Scan(word + rest) == Some(Lexed(match Keyword(word) case Some(t) => t case None => TIdent(word), rest))
  {
    hide ScanIdent, Keyword, Letter, Digit;
    Classes();
    ScanWord(word, [], rest);
    assert [] + word == word;
    var s := word + rest;
    assert s[0] == word[0];
    assert Skip(s) == s;
    assert Single(s[0]).None? && Double(s[0]).None? && !IsDigit(s[0]);
  }

  lemma KeywordToken(word: string, rest: string)
    requires word in KEYWORDS && (rest == [] || (!LetterOrDigit(rest[0]) && rest[0] != NUL))
    ensures Keyword(word).Some? && Scan(word + rest) == Some(Lexed(Keyword(word).value, rest))
  {
    hide Scan;
    KeywordsListed(word);
    WordToken(word, rest);
  }

  lemma NumberToken(word: string, v: Int32, rest: string)
    requires IsSpelling(word, TLit(v)) && StopsBefore(TLit(v), rest)
    ensures Scan(word + rest) == Some(Lexed(TLit(v), rest))
  {
    hide Letter, Digit;
    Classes();
    ScanDigits(word, rest);
    var s := word + rest;
    assert s[0] == word[0] && word[0] in word;
    assert ScanInt(s, 0) == (v, rest);
    assert Skip(s) == s;
  }

  predicate IsSymbol(t: Token) {
    t.TOp? || t == TAssign || t == TSemi || t == TLBrace || t == TRBrace || t == TLParen || t == TRParen
  }

  /** How the scanner tells the symbols apart: by one character, or by that and an '='. */
  lemma Symbols(t: Token)
    requires IsSymbol(t)
    ensures var word := Fixed(t);
            word != [] && !IsSpace(word[0]) &&
            var single, double := Single(word[0]), Double(word[0]);
            if |word| == 2 then word[1] == '=' && single.None? && double.Some? && double.value.1 == t
            else
              && |word| == 1
              && (single == Some(t) || (single.None? && double.Some? && double.value.0 == Some(t) && GoesOn(t, '=')))
  {
  }

  lemma SymbolToken(t: Token, rest: string)
    requires IsSymbol(t) && StopsBefore(t, rest)
    ensures Scan(Fixed(t) + rest) == Some(Lexed(t, rest))
  {
    hide Fixed, Single, Double, GoesOn, IsSymbol;
    Symbols(t);
    var word, s := Fixed(t), Fixed(t) + rest;
    assert s[0] == word[0];
    assert Skip(s) == s;
    if |word| == 1 {
      assert s[1..] == rest;
    } else {
      assert s[1..] == ['='] + rest;
      assert s[1..][1..] == rest;
    }
  }

  /** One token is read back, and the scanner stops where it ends. */
  lemma TokenRoundTrip(word: string, t: Token, rest: string)
    requires IsSpelling(word, t) && StopsBefore(t, rest)
    ensures Scan(word + rest) == Some(Lexed(t, rest))
  {
    hide Letter, Digit, Scan, AllDigits, Number;
    match t
    case TLit(v) => NumberToken(word, v, rest);
    case TIdent(x) => KeywordsListed(x); WordToken(x, rest);
    case TPrint => KeywordToken("print", rest);
    case TInt => KeywordToken("int", rest);
    case TIf => KeywordToken("if", rest);
    case TElse => KeywordToken("else", rest);
    case TWhile => KeywordToken("while", rest);
    case TFor => KeywordToken("for", rest);
    case _ => SymbolToken(t, rest);
  }

  /** Whatever the spacing, scanning a legible text gives back its tokens and then the end. */
  lemma {:induction false} TextRoundTrip(ps: seq<Piece>, tail: string)
    requires Legible(ps, tail)
    ensures ScanAll(Text(ps, tail)) == Some(TokensOf(ps))
    decreases |ps|
  {
    hide Scan, IsSpelling, GoesOn;
    if ps == [] {
      ScanSkips(tail, []);
      assert tail + [] == tail;
      ScanEmpty();
    } else {
      var rest := Text(ps[1..], tail);
      TokenRoundTrip(ps[0].word, ps[0].token, rest);
      ScanSkips(ps[0].space, ps[0].word + rest);
      TextRoundTrip(ps[1..], tail);
      assert TokensOf(ps) == [ps[0].token] + TokensOf(ps[1..]);
    }
  }

  lemma ScanEmpty()
    ensures Scan([]) == Some(End)
  {
  }

  /** In particular any text with some space between the tokens. */
  lemma {:induction false} SpacedRoundTrip(ps: seq<Piece>, tail: string)
    requires forall i :: 0 <= i < |ps| ==> Blank(ps[i].space) && IsSpelling(ps[i].word, ps[i].token)
    requires Blank(tail) && forall i :: 0 < i < |ps| ==> ps[i].space != ""
    ensures Legible(ps, tail) && ScanAll(Text(ps, tail)) == Some(TokensOf(ps))
    decreases |ps|
  {
    hide IsSpelling, Letter, Digit;
    Classes();
    if ps != [] {
      assert forall i :: 0 <= i < |ps[1..]| ==> ps[1..][i] == ps[i + 1];
      SpacedRoundTrip(ps[1..], tail);
      var rest := Text(ps[1..], tail);
      if |ps| > 1 {
        FirstBlank(ps[1].space, rest);
      } else {
        FirstBlank(tail, rest);
      }
    }
    TextRoundTrip(ps, tail);
  }

  // ---------- Whatever can be scanned is legible ----------

  lemma {:induction false} SkipReads(s: string) returns (space: string)
    ensures Blank(space) && s == space + Skip(s)
  {
    space := [];
    if s != [] && IsSpace(s[0]) {
      space := SkipReads(s[1..]);
      space := [s[0]] + space;
    }
  }

  lemma {:induction false} IntReads(s: string, val: nat) returns (digits: string)
    requires '\0' !in s
    ensures var rest := ScanInt(s, val).1;
            AllDigits(digits) && s == digits + rest && (rest != [] ==> !IsDigit(rest[0]))
    ensures s != [] && IsDigit(s[0]) ==> digits != []
  {
    hide Letter, Digit;
    Classes();
    digits := [];
    if s != [] && IsDigit(s[0]) {
      digits := IntReads(s[1..], val * 10 + DigitValue(s[0]).value);
      digits := [s[0]] + digits;
    }
  }

  lemma {:induction false} IdentReads(s: string, buf: string) returns (word: string)
    requires '\0' !in s && ScanIdent(s, buf).Some? && |buf| < TEXTLEN
    ensures var rest := ScanIdent(s, buf).value.1;
            s == word + rest && |buf| + |word| < TEXTLEN && (rest != [] ==> !IsWord(rest[0]))
    ensures forall c :: c in word ==> IsWord(c)
    ensures s != [] && IsWord(s[0]) ==> word != []
  {
    hide Letter, Digit;
    Classes();
    word := [];
    if s != [] && IsWord(s[0]) {
      word := IdentReads(s[1..], buf + [s[0]]);
      word := [s[0]] + word;
    }
  }

  lemma KeywordSpelling(word: string)
    requires Keyword(word).Some?
    ensures var t := Keyword(word).value;
            IsSpelling(word, t) && forall c :: GoesOn(t, c) <==> LetterOrDigit(c)
  {
    hide LetterOrDigit;
  }

  /** The token that `Scan` returns is spelled by the characters it took. */
  lemma ScanReads(text: string) returns (space: string, word: string)
    requires '\0' !in text && Scan(text).Some?
    ensures Scan(text).value.End? ==> Blank(text)
    ensures Scan(text).value.Lexed? ==>
              var l := Scan(text).value;
              && text == space + (word + l.rest) && Blank(space)
              && IsSpelling(word, l.token) && StopsBefore(l.token, l.rest)
  {
    hide Scan, Skip, IsSpelling, StopsBefore;
    space := SkipReads(text);
    word := [];
    var s := Skip(text);
    ScanSkips(space, s);
    if s == [] {
      ScanEmpty();
      assert text == space;
    } else {
      assert '\0' !in s;
      word := TokenReads(s);
    }
  }

  lemma TokenReads(s: string) returns (word: string)
    requires '\0' !in s && s != [] && !IsSpace(s[0]) && Scan(s).Some?
    ensures Scan(s).value.Lexed?
    ensures var l := Scan(s).value; IsSpelling(word, l.token) && s == word + l.rest && StopsBefore(l.token, l.rest)
  {
    hide ScanInt, ScanIdent, Keyword, Number;
    assert Skip(s) == s;
    var c, rest := s[0], s[1..];
    if Single(c).Some? {
      word := [c];
    } else if Double(c).Some? {
      word := if rest != [] && rest[0] == '=' then [c, '='] else [c];
    } else if IsDigit(c) {
      word := LiteralReads(s);
    } else {
      word := WordReads(s);
    }
  }

  lemma LiteralReads(s: string) returns (word: string)
    requires '\0' !in s && s != [] && IsDigit(s[0]) && Scan(s).Some?
    ensures Scan(s).value.Lexed?
    ensures var l := Scan(s).value; IsSpelling(word, l.token) && s == word + l.rest && StopsBefore(l.token, l.rest)
  {
    hide Number, Letter, Digit;
    Classes();
    assert Skip(s) == s;
    word := IntReads(s, 0);
    ScanDigits(word, ScanInt(s, 0).1);
  }

  lemma WordReads(s: string) returns (word: string)
    requires '\0' !in s && s != [] && IsLetter(s[0]) && Scan(s).Some?
    ensures Scan(s).value.Lexed?
    ensures var l := Scan(s).value; IsSpelling(word, l.token) && s == word + l.rest && StopsBefore(l.token, l.rest)
  {
    hide ScanIdent, Keyword, Letter, Digit, IsSpelling, GoesOn;
    Classes();
    assert Skip(s) == s;
    word := IdentReads(s, []);
    var left := ScanIdent(s, []).value.1;
    ScanWord(word, [], left);
    assert [] + word == word;
    KeywordsListed(word);
    if Keyword(word).Some? {
      KeywordSpelling(word);
    } else {
      NameSpelling(word);
    }
  }

  lemma NameSpelling(word: string)
    requires IsName(word) && word !in KEYWORDS
    ensures IsSpelling(word, TIdent(word)) && forall c :: GoesOn(TIdent(word), c) <==> LetterOrDigit(c)
  {
    hide LetterOrDigit, Letter;
  }

  /** A text that can be scanned is a legible spelling of its tokens. */
  lemma {:induction false} TextReads(text: string) returns (ps: seq<Piece>, tail: string)
    requires '\0' !in text && ScanAll(text).Some?
    ensures Legible(ps, tail) && Text(ps, tail) == text && Some(TokensOf(ps)) == ScanAll(text)
    decreases |text|
  {
    hide Scan, IsSpelling, GoesOn;
    var space, word := ScanReads(text);
    var l := Scan(text).value;
    if l.End? {
      ps, tail := [], text;
      assert TokensOf(ps) == [];
    } else {
      assert '\0' !in l.rest by {
        assert text == (space + word) + l.rest;
      }
      ps, tail := TextReads(l.rest);
      var first := Piece(space, word, l.token);
      var all := [first] + ps;
      assert all[1..] == ps;
      assert TokensOf(all) == [l.token] + TokensOf(ps);
      ps := all;
    }
  }

  /** What the scanner makes of a text without NUL: exactly the tokens of which it is a
      legible spelling. */
  lemma ScanIff(text: string, ts: seq<Token>)
    requires '\0' !in text
    ensures ScanAll(text) == Some(ts) <==> exists ps, tail :: LegibleText(text, ps, tail) && TokensOf(ps) == ts
  {
    if ScanAll(text) == Some(ts) {
      var ps, tail := TextReads(text);
      assert LegibleText(text, ps, tail);
    }
    forall ps, tail | LegibleText(text, ps, tail) && TokensOf(ps) == ts
      ensures ScanAll(text) == Some(ts)
    {
      TextRoundTrip(ps, tail);
    }
  }

  predicate LegibleText(text: string, ps: seq<Piece>, tail: string) {
    Legible(ps, tail) && Text(ps, tail) == text
  }

  // ---------- Words that are too long ----------

  lemma {:induction false} ScanLongWord(word: string, buf: string, rest: string)
    requires forall c :: c in word ==> IsWord(c)
    requires |buf| < TEXTLEN <= |buf| + |word|
    ensures ScanIdent(word + rest, buf) == None
    decreases |word|
  {
    assert (word + rest)[1..] == word[1..] + rest;
    if |buf| < TEXTLEN - 1 {
      ScanLongWord(word[1..], buf + [word[0]], rest);
    }
  }

  /** A word that does not fit into the buffer is an error, whatever follows. */
  lemma LongWord(word: string, rest: string)
    requires 512 <= |word| && Letter(word[0]) && forall c :: c in word ==> LetterOrDigit(c)
    ensures Scan(word + rest) == None
  {
    hide ScanIdent, Letter, Digit;
    Classes();
    ScanLongWord(word, [], rest);
    var s := word + rest;
    assert s[0] == word[0];
    assert Skip(s) == s;
    assert Single(s[0]).None? && Double(s[0]).None? && !IsDigit(s[0]);
  }

  // ---------- NUL characters ----------

  /** A NUL after digits is taken for a digit of value ten. */
  lemma NulAfterDigits(digits: string, rest: string)
    requires AllDigits(digits)
    ensures ScanInt(digits + (['\0'] + rest), 0) == ScanInt(rest, Number(digits) * 10 + 10)
  {
    ScanDigits(digits, ['\0'] + rest);
    assert (['\0'] + rest)[1..] == rest;
  }

  /** A NUL after a word is lost. */
  lemma {:induction false} NulAfterWord(word: string, buf: string, rest: string)
    requires |buf| + |word| <= 511 && forall c :: c in word ==> LetterOrDigit(c)
    ensures ScanIdent(word + (['\0'] + rest), buf) == Some((buf + word, rest))
    decreases |word|
  {
    hide Letter, Digit;
    Classes();
    var s := word + (['\0'] + rest);
    if word == [] {
      assert s == ['\0'] + rest && s[1..] == rest && buf + word == buf;
      assert !IsWord(s[0]);
    } else {
      assert s[1..] == word[1..] + (['\0'] + rest);
      assert buf + [word[0]] + word[1..] == buf + word;
      NulAfterWord(word[1..], buf + [word[0]], rest);
    }
  }

  // ---------- Lines ----------

  lemma {:induction false} NewlinesCounted(s: string)
    ensures Newlines(s) == multiset(s)['\n']
  {
    if s != [] {
      NewlinesCounted(s[..|s| - 1]);
      assert s == s[..|s| - 1] + [s[|s| - 1]];
    }
  }
}
