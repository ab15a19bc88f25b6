/** The scanner as it runs: one character of put-back, a line counter, and a buffer for words. */
module Scanner {
  import opened Wrappers
  import opened Words
  import opened Tokens
  import opened Lexis

  /** What `fgetc` returns. */
  datatype Char = Eof | Ch(c: char)

  lemma NumberStep(c: char, rest: string, val: nat)
    requires DigitValue(c).Some?
    ensures ScanInt([c] + rest, val) == ScanInt(rest, val * 10 + DigitValue(c).value)
  {
    assert ([c] + rest)[1..] == rest;
  }

  lemma NumberEnd(s: string, val: nat)
    requires s == [] || DigitValue(s[0]).None?
    ensures ScanInt(s, val) == (val, PutBack(s))
  {
  }

  lemma SkipChar(c: char, rest: string)
    ensures Skip([c] + rest) == if IsSpace(c) then Skip(rest) else [c] + rest
  {
    assert ([c] + rest)[1..] == rest;
  }

  lemma SkipEnd()
    ensures Skip([]) == []
  {
  }

  class Scanner {
    const infile: string
    var pos: nat
    var putback: Option<Char>
    var line: nat

    /** `init`: a newline is put back before anything was read. */
    constructor (infile: string)
      ensures Valid() && this.infile == infile && Pending() == "\n" + infile
    {
      this.infile := infile;
      pos := 0;
      putback := Some(Ch('\n'));
      line := 1;
    }

    /** Line numbers count each newline once, when it is read from the file. */
    ghost predicate Valid()
      reads this
    {
      && pos <= |infile|
      && line == 1 + Newlines(infile[..pos])
      && (putback == Some(Eof) ==> pos == |infile|)
    }

    /** The characters still to be read. */
    ghost function Pending(): string
      requires Valid()
      reads this
    {
      (if putback.Some? && putback.value.Ch? then [putback.value.c] else []) + infile[pos..]
    }

    method Next() returns (c: Char)
      requires Valid()
      modifies this
      ensures Valid() && putback.None?
      ensures old(Pending()) == if c.Eof? then [] else [c.c] + Pending()
      ensures c.Eof? ==> Pending() == []
    {
      if putback.Some? {
        c := putback.value;
        putback := None;
      } else if pos == |infile| {
        c := Eof;
      } else {
        c := Ch(infile[pos]);
        assert infile[..pos + 1][..pos] == infile[..pos];
        if infile[pos] == '\n' {
          line := line + 1;
        }
        pos := pos + 1;
      }
    }

    /** `putback`: storing a NUL stores nothing. */
    method PutBackChar(c: Char)
      requires Valid() && putback.None? && (c.Eof? ==> Pending() == [])
      modifies this`putback
      ensures Valid()
      ensures Pending() == PutBack(Read(c, old(Pending())))
    {
      ghost var rest := infile[pos..];
      assert [] + rest == rest;
      match c
      case Eof =>
        putback := Some(c);
      case Ch(x) =>
        assert ([x] + rest)[1..] == rest;
        if x == NUL {
          putback := None;
        } else {
          putback := Some(c);
        }
    }

    /** What was still to be read before `c` was. */
    ghost function Read(c: Char, rest: string): string {
      if c.Eof? then [] else [c.c] + rest
    }

    method SkipSpace() returns (c: Char)
      requires Valid()
      modifies this
      ensures Valid() && putback.None? && (c.Eof? ==> Pending() == [])
      ensures Read(c, Pending()) == Skip(old(Pending()))
    {
      hide Skip, Newlines, IsSpace;
      ghost var start := Pending();
      c := Next();
      while c.Ch? && IsSpace(c.c)
        invariant Valid() && putback.None? && (c.Eof? ==> Pending() == [])
        invariant Skip(start) == Skip(Read(c, Pending()))
        decreases |Read(c, Pending())|
      {
        SkipChar(c.c, Pending());
        c := Next();
      }
      if c.Ch? {
        SkipChar(c.c, Pending());
      } else {
        SkipEnd();
      }
    }

    method ScanNumber(first: Char) returns (val: nat)
      requires Valid() && putback.None? && (first.Eof? ==> Pending() == [])
      modifies this
      ensures Valid()
      ensures ScanInt(Read(first, old(Pending())), 0) == (val, Pending())
    {
      hide ScanInt, DigitValue;
      ghost var start := Read(first, Pending());
      var c := first;
      val := 0;
      while c.Ch? && DigitValue(c.c).Some?
        invariant Valid() && putback.None? && (c.Eof? ==> Pending() == [])
        invariant ScanInt(start, 0) == ScanInt(Read(c, Pending()), val)
        decreases |Read(c, Pending())|
      {
        NumberStep(c.c, Pending(), val);
        val := val * 10 + DigitValue(c.c).value;
        c := Next();
      }
      NumberEnd(Read(c, Pending()), val);
      PutBackChar(c);
    }

    method ScanName(first: Char) returns (word: Option<string>)
      requires Valid() && putback.None? && (first.Eof? ==> Pending() == [])
      modifies this
      ensures Valid()
      ensures match ScanIdent(Read(first, old(Pending())), [])
              case None => word.None?
              case Some((w, rest)) => word == Some(w) && Pending() == rest
    {
      ghost var start := Read(first, Pending());
      var c := first;
      var buf := [];
      while c.Ch? && IsWord(c.c)
        invariant Valid() && putback.None? && (c.Eof? ==> Pending() == [])
        invariant ScanIdent(start, []) == ScanIdent(Read(c, Pending()), buf)
        decreases |Read(c, Pending())|
      {
        if |buf| == TEXTLEN - 1 {
          return None;
        }
        assert Read(c, Pending())[1..] == Pending();
        buf := buf + [c.c];
        c := Next();
      }
      PutBackChar(c);
      return Some(buf);
    }

    /** `keyword`: switch on the first letter, then compare. */
    method FindKeyword(s: string) returns (t: Option<Token>)
      ensures t == Keyword(s)
    {
      if s == [] {
        return None;
      }
      match s[0]
      case 'e' => t := if s == "else" then Some(TElse) else None;
      case 'f' => t := if s == "for" then Some(TFor) else None;
      case 'i' => t := if s == "if" then Some(TIf) else if s == "int" then Some(TInt) else None;
      case 'p' => t := if s == "print" then Some(TPrint) else None;
      case 'w' => t := if s == "while" then Some(TWhile) else None;
      case _ => t := None;
    }

    /** `scan`. */
    method ScanToken() returns (r: Option<Option<Token>>)
      requires Valid()
      modifies this
      ensures Valid()
      ensures match Scan(old(Pending()))
              case None => r.None?
              case Some(End) => r == Some(None) && pos == |infile| && Pending() == []
              case Some(Lexed(t, rest)) => r == Some(Some(t)) && Pending() == rest
    {
      hide Single, Double, ScanInt, ScanIdent, Keyword, Skip;
      var c := SkipSpace();
      if c.Eof? {
        return Some(None);
      }
      ghost var rest := Pending();
      assert Read(c, rest)[1..] == rest;
      if Single(c.c).Some? {
        return Some(Single(c.c));
      }
      if Double(c.c).Some? {
        r := ScanDouble(c.c);
      } else if IsDigit(c.c) {
        var v := ScanNumber(c);
        r := if v < TWO_31 then Some(Some(TLit(v))) else None;
      } else if IsLetter(c.c) {
        var word := ScanName(c);
        if word.None? {
          return None;
        }
        var k := FindKeyword(word.value);
        r := Some(Some(if k.Some? then k.value else TIdent(word.value)));
      } else {
        r := None;
      }
    }

    /** The tokens that may go on with '='. */
    method ScanDouble(first: char) returns (r: Option<Option<Token>>)
      requires Valid() && putback.None? && Double(first).Some?
      modifies this
      ensures Valid()
      ensures var (alone, both) := Double(first).value;
              var rest := old(Pending());
              if rest != [] && rest[0] == '=' then r == Some(Some(both)) && Pending() == rest[1..]
              else if alone.None? then r.None?
              else r == Some(Some(alone.value)) && Pending() == PutBack(rest)
    {
      hide Double;
      var (alone, both) := Double(first).value;
      var c := Next();
      if c == Ch('=') {
        return Some(Some(both));
      }
      if alone.None? {
        return None;
      }
      PutBackChar(c);
      return Some(Some(alone.value));
    }
  }

  /** A whole file, token by token until T_EOF: its tokens, and the number of its last line. */
  method ScanFile(infile: string) returns (ts: Option<seq<Token>>, line: nat)
    ensures ts == ScanAll("\n" + infile) == ScanAll(infile)
    ensures ts.Some? ==> line == 1 + multiset(infile)['\n']
  {
    var s := new Scanner(infile);
    ScanSkips("\n", infile);
    var done := [];
    PrependNone(ScanAll(infile));
    assert s.Pending() == "\n" + infile && ScanAll("\n" + infile) == ScanAll(infile);
    while true
      invariant s.Valid() && s.infile == infile && fresh(s)
      invariant ScanAll(infile) == Prepend(done, ScanAll(s.Pending()))
      decreases |s.Pending()|
    {
      ghost var before := s.Pending();
      var t := s.ScanToken();
      if t.None? {
        return None, s.line;
      }
      if t.value.None? {
        assert done + [] == done;
        assert infile[..s.pos] == infile;
        NewlinesCounted(infile);
        return Some(done), s.line;
      }
      PrependOne(done, t.value.value, ScanAll(s.Pending()));
      done := done + [t.value.value];
    }
  }

  function Prepend(done: seq<Token>, more: Option<seq<Token>>): Option<seq<Token>> {
    var ts :- more;
    Some(done + ts)
  }

  lemma PrependNone(more: Option<seq<Token>>)
    ensures Prepend([], more) == more
  {
    if more.Some? {
      assert [] + more.value == more.value;
    }
  }

  lemma PrependOne(done: seq<Token>, t: Token, more: Option<seq<Token>>)
    ensures Prepend(done, Prepend([t], more)) == Prepend(done + [t], more)
  {
    if more.Some? {
      assert done + ([t] + more.value) == done + [t] + more.value;
    }
  }
}
