/** The shell's parser: tokens, the recursive descent over a command line, and the in-place
    termination of the words it found.

    A command line is a string, a cursor into it an index, and the character at its end is
    the terminating NUL. Words are kept as the pair of their start and end, as the parser
    keeps them. Calls of `panic` are the failing results. */
module ShellParser {

  const MAXARGS: int := 10

  // ---------------------------------------------------------------- characters and tokens

  predicate IsSpace(c: char) {
    c == ' ' || c == '\t' || c == '\r' || c == '\n' || c == '\U{000B}'
  }

  predicate IsSymbol(c: char) {
    c == '<' || c == '|' || c == '>' || c == '&' || c == ';' || c == '(' || c == ')'
  }

  predicate IsWordChar(c: char) {
    !IsSpace(c) && !IsSymbol(c)
  }

  function At(s: string, i: int): char
    requires 0 <= i <= |s|
  {
    if i < |s| then s[i] else '\0'
  }

  /** The first position from `i` on that is not white space. */
  function Skip(s: string, i: int): (j: int)
    requires 0 <= i <= |s|
    ensures i <= j <= |s| && (j < |s| ==> !IsSpace(s[j]))
    decreases |s| - i
  {
    if i < |s| && IsSpace(s[i]) then Skip(s, i + 1) else i
  }

  /** Everything that is passed over is white space. */
  lemma {:induction false} SkipsSpaces(s: string, i: int)
    requires 0 <= i <= |s|
    ensures forall k :: i <= k < Skip(s, i) ==> IsSpace(s[k])
    decreases |s| - i
  {
    if i < |s| && IsSpace(s[i]) {
      SkipsSpaces(s, i + 1);
    }
  }

  /** The first position from `i` on that is not in a word. */
  function WordEnd(s: string, i: int): (j: int)
    requires 0 <= i <= |s|
    ensures i <= j <= |s| && (j < |s| ==> !IsWordChar(s[j]))
    ensures forall k :: i <= k < j ==> IsWordChar(s[k])
    decreases |s| - i
  {
    if i < |s| && IsWordChar(s[i]) then WordEnd(s, i + 1) else i
  }

  /** `s[q..eq]` is a whole word. */
  ghost predicate IsWord(s: string, q: int, eq: int) {
    && 0 <= q < eq <= |s|
    && (forall k :: q <= k < eq ==> IsWordChar(s[k]))
    && (eq < |s| ==> !IsWordChar(s[eq]))
  }

  /** What `gettoken` finds: the kind of token, where it starts and ends, and the new cursor. */
  datatype Lex = Lex(tok: char, q: int, eq: int, next: int)

  function Token(s: string, i: int): (t: Lex)
    requires 0 <= i <= |s|
    ensures i <= t.q <= t.eq <= t.next <= |s|
    ensures t.tok != '\0' ==> t.q < t.eq
    ensures t.tok == 'a' ==> IsWord(s, t.q, t.eq)
  {
    var q := Skip(s, i);
    var c := At(s, q);
    if c == '\0' then Lex(c, q, q, Skip(s, q))
    else if c == '>' && At(s, q + 1) == '>' then Lex('+', q, q + 2, Skip(s, q + 2))
    else if IsSymbol(c) then Lex(c, q, q + 1, Skip(s, q + 1))
    else Lex('a', q, WordEnd(s, q), Skip(s, WordEnd(s, q)))
  }

  /** The test of `peek` at a position that is not white space. */
  predicate Sees(s: string, i: int, toks: set<char>)
    requires 0 <= i <= |s|
  {
    At(s, i) != '\0' && At(s, i) in toks
  }

  // ---------------------------------------------------------------- commands

  /** How a file is opened. Nothing that the parser makes is an `Append`. */
  datatype Mode = In | Out | Append
  datatype Span = Span(q: int, eq: int)
  datatype Cmd<W> =
    | Exec(argv: seq<W>)
    | Redir(cmd: Cmd<W>, file: W, mode: Mode)
    | Pipe(left: Cmd<W>, right: Cmd<W>)
    | List(left: Cmd<W>, right: Cmd<W>)
    | Back(cmd: Cmd<W>)

  datatype Error = Syntax | MissingFile | MissingParen | TooManyArgs | Leftovers
  datatype Result = Ok(cmd: Cmd<Span>, next: int) | Fail(error: Error)

  /** Fill the next entry of `argv` in the command that the redirections are around. */
  function AddArg(c: Cmd<Span>, w: Span): Cmd<Span> {
    match c
    case Exec(argv) => Exec(argv + [w])
    case Redir(d, file, mode) => Redir(AddArg(d, w), file, mode)
    case _ => c
  }

  /** Redirections around a simple command with `argc` arguments. */
  ghost predicate Simple(c: Cmd<Span>, argc: int) {
    match c
    case Exec(argv) => |argv| == argc
    case Redir(d, _, _) => Simple(d, argc)
    case _ => false
  }

  /** Every span is a whole word of `s`, and no command has MAXARGS arguments. */
  ghost predicate Spans(s: string, c: Cmd<Span>) {
    match c
    case Exec(argv) => |argv| < MAXARGS && forall k :: 0 <= k < |argv| ==> IsWord(s, argv[k].q, argv[k].eq)
    case Redir(d, file, mode) => Spans(s, d) && IsWord(s, file.q, file.eq) && mode != Append
    case Pipe(l, r) => Spans(s, l) && Spans(s, r)
    case List(l, r) => Spans(s, l) && Spans(s, r)
    case Back(d) => Spans(s, d)
  }

  lemma {:induction false} AddArgSpans(s: string, c: Cmd<Span>, w: Span, argc: int)
    requires Spans(s, c) && Simple(c, argc) && argc + 1 < MAXARGS && IsWord(s, w.q, w.eq)
    ensures Spans(s, AddArg(c, w)) && Simple(AddArg(c, w), argc + 1)
  {
    hide IsWord;
    if c.Redir? {
      AddArgSpans(s, c.cmd, w, argc);
    }
  }

  // ---------------------------------------------------------------- the grammar

  ghost predicate Parsed(s: string, i: int, r: Result) {
    r.Ok? ==> i <= r.next <= |s| && Spans(s, r.cmd)
  }

  function Redirs(s: string, i: int, c: Cmd<Span>): (r: Result)
    requires 0 <= i <= |s| && Spans(s, c)
    ensures Parsed(s, i, r)
    ensures forall argc :: Simple(c, argc) && r.Ok? ==> Simple(r.cmd, argc)
    decreases |s| - i
  {
    hide IsWord;
    var j := Skip(s, i);
    if !Sees(s, j, {'<', '>'}) then Ok(c, j)
    else
      var op := Token(s, j);
      var file := Token(s, op.next);
      if file.tok != 'a' then Fail(MissingFile)
      else Redirs(s, file.next, Redir(c, Span(file.q, file.eq), if op.tok == '<' then In else Out))
  }

  /** A simple command after `argc` arguments, before the redirections that may follow them. */
  function ExecRest(s: string, i: int, c: Cmd<Span>, argc: int): (r: Result)
    requires 0 <= i <= |s| && Spans(s, c) && Simple(c, argc)
    ensures Parsed(s, i, r)
    decreases |s| - i, 1
  {
    hide Redirs, Spans, Simple;
    match Redirs(s, i, c)
    case Fail(e) => Fail(e)
    case Ok(d, j) => Args(s, j, d, argc)
  }

  function Args(s: string, i: int, c: Cmd<Span>, argc: int): (r: Result)
    requires 0 <= i <= |s| && Spans(s, c) && Simple(c, argc)
    ensures Parsed(s, i, r)
    decreases |s| - i, 0
  {
    hide IsWord, Spans, Simple;
    var j := Skip(s, i);
    if Sees(s, j, {'|', ')', '&', ';'}) then Ok(c, j)
    else
      var t := Token(s, j);
      if t.tok == '\0' then Ok(c, t.next)
      else if t.tok != 'a' then Fail(Syntax)
      else if argc + 1 >= MAXARGS then Fail(TooManyArgs)
      else
        AddArgSpans(s, c, Span(t.q, t.eq), argc);
        ExecRest(s, t.next, AddArg(c, Span(t.q, t.eq)), argc + 1)
  }

  function Execs(s: string, i: int): (r: Result)
    requires 0 <= i <= |s|
    ensures Parsed(s, i, r)
    decreases |s| - i, 1
  {
    hide ExecRest;
    var j := Skip(s, i);
    if Sees(s, j, {'('}) then Block(s, j) else ExecRest(s, j, Exec([]), 0)
  }

  function Block(s: string, i: int): (r: Result)
    requires 0 <= i <= |s| && Sees(s, i, {'('})
    ensures Parsed(s, i, r)
    decreases |s| - i, 0
  {
    hide IsWord, Redirs, Spans;
    match Line(s, Token(s, i).next)
    case Fail(e) => Fail(e)
    case Ok(c, j) =>
      var k := Skip(s, j);
      if !Sees(s, k, {')'}) then Fail(MissingParen) else Redirs(s, Token(s, k).next, c)
  }

  function Pipes(s: string, i: int): (r: Result)
    requires 0 <= i <= |s|
    ensures Parsed(s, i, r)
    decreases |s| - i, 2
  {
    hide IsWord;
    match Execs(s, i)
    case Fail(e) => Fail(e)
    case Ok(c, j) =>
      var k := Skip(s, j);
      if !Sees(s, k, {'|'}) then Ok(c, k)
      else
        match Pipes(s, Token(s, k).next)
        case Fail(e) => Fail(e)
        case Ok(d, m) => Ok(Pipe(c, d), m)
  }

  function Line(s: string, i: int): (r: Result)
    requires 0 <= i <= |s|
    ensures Parsed(s, i, r)
    decreases |s| - i, 4
  {
    hide IsWord;
    match Pipes(s, i)
    case Fail(e) => Fail(e)
    case Ok(c, j) => LineRest(s, j, c)
  }

  /** A line after its first pipeline `c`. */
  function LineRest(s: string, i: int, c: Cmd<Span>): (r: Result)
    requires 0 <= i <= |s| && Spans(s, c)
    ensures Parsed(s, i, r)
    decreases |s| - i, 3
  {
    hide IsWord;
    var j := Skip(s, i);
    if Sees(s, j, {'&'}) then LineRest(s, Token(s, j).next, Back(c))
    else if !Sees(s, j, {';'}) then Ok(c, j)
    else
      match Line(s, Token(s, j).next)
      case Fail(e) => Fail(e)
      case Ok(d, k) => Ok(List(c, d), k)
  }

  function Command(s: string): (r: Result)
    ensures Parsed(s, 0, r)
  {
    match Line(s, 0)
    case Fail(e) => Fail(e)
    case Ok(c, j) => if Skip(s, j) != |s| then Fail(Leftovers) else Ok(c, |s|)
  }

  // ---------------------------------------------------------------- the parser

  /** The parser works with a cursor that every call moves. Each method computes the function
      of the grammar that it is named for. */
  class Parser {
    const s: string
    var ps: int

    ghost predicate Valid()
      reads this
    {
      0 <= ps <= |s|
    }

    constructor (s: string)
      ensures Valid() && this.s == s && ps == 0
    {
      this.s, ps := s, 0;
    }

    method Gettoken() returns (tok: char, q: int, eq: int)
      requires Valid()
      modifies this
      ensures Valid() && Lex(tok, q, eq, ps) == Token(s, old(ps))
    {
      var p := ps;
      while p < |s| && IsSpace(s[p])
        invariant ps <= p <= |s| && Skip(s, p) == Skip(s, ps)
        modifies {}
      {
        p := p + 1;
      }
      q := p;
      tok := At(s, p);
      if tok == '\0' {
      } else if tok == '>' {
        p := p + 1;
        if At(s, p) == '>' {
          tok := '+';
          p := p + 1;
        }
      } else if IsSymbol(tok) {
        p := p + 1;
      } else {
        tok := 'a';
        while p < |s| && !IsSpace(s[p]) && !IsSymbol(s[p])
          invariant q <= p <= |s| && WordEnd(s, p) == WordEnd(s, q)
          modifies {}
        {
          p := p + 1;
        }
      }
      eq := p;
      while p < |s| && IsSpace(s[p])
        invariant eq <= p <= |s| && Skip(s, p) == Skip(s, eq)
        modifies {}
      {
        p := p + 1;
      }
      ps := p;
    }

    method Peek(toks: set<char>) returns (sees: bool)
      requires Valid()
      modifies this
      ensures Valid() && ps == Skip(s, old(ps)) && sees == Sees(s, ps, toks)
    {
      var p := ps;
      while p < |s| && IsSpace(s[p])
        invariant ps <= p <= |s| && Skip(s, p) == Skip(s, ps)
        modifies {}
      {
        p := p + 1;
      }
      ps := p;
      sees := At(s, p) != '\0' && At(s, p) in toks;
    }

    method ParseRedirs(cmd: Cmd<Span>) returns (r: Result)
      requires Valid() && Spans(s, cmd)
      modifies this
      ensures Valid() && r == Redirs(s, old(ps), cmd) && (r.Ok? ==> ps == r.next)
    {
      hide Skip, Token, IsWord;
      var c := cmd;
      while true
        invariant Valid() && Spans(s, c) && Redirs(s, ps, c) == Redirs(s, old(ps), cmd)
        decreases |s| - ps
      {
        var more := Peek({'<', '>'});
        if !more {
          return Ok(c, ps);
        }
        var tok, q, eq;
        tok, q, eq := Gettoken();
        var op := tok;
        tok, q, eq := Gettoken();
        if tok != 'a' {
          return Fail(MissingFile);
        }
        c := Redir(c, Span(q, eq), if op == '<' then In else Out);
      }
      assert false;
    }

    method ParseExec() returns (r: Result)
      requires Valid()
      modifies this
      ensures Valid() && r == Execs(s, old(ps)) && (r.Ok? ==> ps == r.next)
      decreases |s| - ps, 1
    {
      var block := Peek({'('});
      if block {
        r := ParseBlock();
        return;
      }
      r := ParseArgs();
    }

    method ParseArgs() returns (r: Result)
      requires Valid()
      modifies this
      ensures Valid() && r == ExecRest(s, old(ps), Exec([]), 0) && (r.Ok? ==> ps == r.next)
    {
      hide Skip, Token, IsWord, Redirs, Spans, Simple;
      NoArgs(s);
      var argc := 0;
      r := ParseRedirs(Exec([]));
      while r.Ok?
        invariant Valid()
        invariant r.Ok? ==> ps == r.next && Spans(s, r.cmd) && Simple(r.cmd, argc)
        invariant ExecRest(s, old(ps), Exec([]), 0) == match r case Fail(_) => r case Ok(c, _) => Args(s, ps, c, argc)
        decreases r.Ok?, |s| - ps
      {
        var ret := r.cmd;
        var stop := Peek({'|', ')', '&', ';'});
        if stop {
          return Ok(ret, ps);
        }
        var tok, q, eq;
        tok, q, eq := Gettoken();
        if tok == '\0' {
          return Ok(ret, ps);
        }
        if tok != 'a' {
          return Fail(Syntax);
        }
        ghost var before := ret;
        ret := AddArg(ret, Span(q, eq));
        argc := argc + 1;
        if argc >= MAXARGS {
          return Fail(TooManyArgs);
        }
        AddArgSpans(s, before, Span(q, eq), argc - 1);
        r := ParseRedirs(ret);
      }
    }

    method ParseBlock() returns (r: Result)
      requires Valid() && Sees(s, ps, {'('})
      modifies this
      ensures Valid() && r == Block(s, old(ps)) && (r.Ok? ==> ps == r.next)
      decreases |s| - ps, 0
    {
      hide Redirs, Spans, IsWord, Line;
      var tok, q, eq := Gettoken();
      r := ParseLine();
      if r.Fail? {
        return;
      }
      var cmd := r.cmd;
      var closed := Peek({')'});
      if !closed {
        return Fail(MissingParen);
      }
      tok, q, eq := Gettoken();
      r := ParseRedirs(cmd);
    }

    method ParsePipe() returns (r: Result)
      requires Valid()
      modifies this
      ensures Valid() && r == Pipes(s, old(ps)) && (r.Ok? ==> ps == r.next)
      decreases |s| - ps, 2
    {
      hide Spans, IsWord, Execs;
      r := ParseExec();
      if r.Fail? {
        return;
      }
      var cmd := r.cmd;
      var more := Peek({'|'});
      if more {
        var tok, q, eq := Gettoken();
        r := ParsePipe();
        return if r.Fail? then r else Ok(Pipe(cmd, r.cmd), r.next);
      }
      return Ok(cmd, ps);
    }

    method ParseLine() returns (r: Result)
      requires Valid()
      modifies this
      ensures Valid() && r == Line(s, old(ps)) && (r.Ok? ==> ps == r.next)
      decreases |s| - ps, 3
    {
      hide IsWord, Pipes;
      r := ParsePipe();
      if r.Fail? {
        return;
      }
      var cmd := r.cmd;
      var back := Peek({'&'});
      while back
        invariant Valid() && Spans(s, cmd) && old(ps) <= ps && LineRest(s, ps, cmd) == Line(s, old(ps))
        invariant ps == Skip(s, ps) && back == Sees(s, ps, {'&'})
        decreases |s| - ps
      {
        var tok, q, eq := Gettoken();
        cmd := Back(cmd);
        back := Peek({'&'});
      }
      var more := Peek({';'});
      if more {
        var tok, q, eq := Gettoken();
        r := ParseLine();
        return if r.Fail? then r else Ok(List(cmd, r.cmd), r.next);
      }
      return Ok(cmd, ps);
    }
  }

  lemma NoArgs(s: string)
    ensures Spans(s, Exec([])) && Simple(Exec([]), 0)
  {}

  // ---------------------------------------------------------------- termination of the words

  /** The text of a span. */
  function Sub(s: string, w: Span): string {
    if 0 <= w.q <= w.eq <= |s| then s[w.q..w.eq] else ""
  }

  function Subs(s: string, ws: seq<Span>): (r: seq<string>)
    ensures |r| == |ws| && forall k :: 0 <= k < |ws| ==> r[k] == Sub(s, ws[k])
  {
    if ws == [] then [] else Subs(s, ws[..|ws| - 1]) + [Sub(s, ws[|ws| - 1])]
  }

  /** A command with each span replaced by its token. */
  function Text(s: string, c: Cmd<Span>): Cmd<string> {
    match c
    case Exec(argv) => Exec(Subs(s, argv))
    case Redir(d, file, mode) => Redir(Text(s, d), Sub(s, file), mode)
    case Pipe(l, r) => Pipe(Text(s, l), Text(s, r))
    case List(l, r) => List(Text(s, l), Text(s, r))
    case Back(d) => Back(Text(s, d))
  }

  /** The C string at a position of a buffer. */
  function StringAt(b: seq<char>, q: int): string
    requires 0 <= q
    decreases |b| - q
  {
    if q < |b| && b[q] != '\0' then [b[q]] + StringAt(b, q + 1) else ""
  }

  function StringsAt(b: seq<char>, ws: seq<Span>): (r: seq<string>)
    requires forall k :: 0 <= k < |ws| ==> 0 <= ws[k].q
    ensures |r| == |ws| && forall k :: 0 <= k < |ws| ==> r[k] == StringAt(b, ws[k].q)
  {
    if ws == [] then [] else StringsAt(b, ws[..|ws| - 1]) + [StringAt(b, ws[|ws| - 1].q)]
  }

  /** A command with each span replaced by the C string that starts where it starts: what the
      shell passes on once the words are terminated. */
  function Strings(b: seq<char>, s: string, c: Cmd<Span>): Cmd<string>
    requires Spans(s, c)
  {
    match c
    case Exec(argv) => Exec(StringsAt(b, argv))
    case Redir(d, file, mode) => Redir(Strings(b, s, d), StringAt(b, file.q), mode)
    case Pipe(l, r) => Pipe(Strings(b, s, l), Strings(b, s, r))
    case List(l, r) => List(Strings(b, s, l), Strings(b, s, r))
    case Back(d) => Back(Strings(b, s, d))
  }

  /** The positions where a command's words end. */
  ghost function Ends(c: Cmd<Span>): set<int> {
    match c
    case Exec(argv) => set k | 0 <= k < |argv| :: argv[k].eq
    case Redir(d, file, _) => Ends(d) + {file.eq}
    case Pipe(l, r) => Ends(l) + Ends(r)
    case List(l, r) => Ends(l) + Ends(r)
    case Back(d) => Ends(d)
  }

  /** No word ends inside a word. */
  lemma {:induction false} EndsOutside(s: string, c: Cmd<Span>, e: int)
    requires Spans(s, c) && e in Ends(c)
    ensures 0 <= e <= |s| && (e < |s| ==> !IsWordChar(s[e]))
  {
    match c
    case Exec(_) =>
    case Redir(d, file, _) => if e in Ends(d) { EndsOutside(s, d, e); }
    case Pipe(l, r) => if e in Ends(l) { EndsOutside(s, l, e); } else { EndsOutside(s, r, e); }
    case List(l, r) => if e in Ends(l) { EndsOutside(s, l, e); } else { EndsOutside(s, r, e); }
    case Back(d) => EndsOutside(s, d, e);
  }

  /** The buffer with a NUL at each of `ends` and the line `s` elsewhere. */
  ghost predicate Cut(s: string, b: seq<char>, ends: set<int>) {
    && |s| < |b|
    && (forall k :: 0 <= k < |b| && k in ends ==> b[k] == '\0')
    && (forall k :: 0 <= k < |s| && k !in ends ==> b[k] == s[k])
    && (forall k :: 0 <= k < |s| && k in ends ==> !IsWordChar(s[k]))
    && (forall k :: 0 <= k < |s| ==> s[k] != '\0')
  }

  lemma {:induction false} WordReads(s: string, b: seq<char>, ends: set<int>, w: Span, q: int)
    requires Cut(s, b, ends) && IsWord(s, w.q, w.eq) && w.eq in ends && w.q <= q <= w.eq
    ensures StringAt(b, q) == s[q..w.eq]
    decreases w.eq - q
  {
    if q < w.eq {
      WordReads(s, b, ends, w, q + 1);
    }
  }

  /** In a buffer that is cut at all the ends, every word reads as exactly its own token. */
  lemma {:induction false} CommandReads(s: string, b: seq<char>, ends: set<int>, c: Cmd<Span>)
    requires Cut(s, b, ends) && Spans(s, c) && Ends(c) <= ends
    ensures Strings(b, s, c) == Text(s, c)
  {
    match c
    case Exec(argv) =>
      forall k | 0 <= k < |argv| ensures StringAt(b, argv[k].q) == Sub(s, argv[k]) {
        assert argv[k].eq in Ends(c);
        WordReads(s, b, ends, argv[k], argv[k].q);
      }
    case Redir(d, file, _) =>
      CommandReads(s, b, ends, d);
      WordReads(s, b, ends, file, file.q);
    case Pipe(l, r) => CommandReads(s, b, ends, l); CommandReads(s, b, ends, r);
    case List(l, r) => CommandReads(s, b, ends, l); CommandReads(s, b, ends, r);
    case Back(d) => CommandReads(s, b, ends, d);
  }

  /** Write a NUL at every word's end. */
  method Nulterminate(buf: array<char>, c: Cmd<Span>, ghost s: string)
    requires |s| < buf.Length && Spans(s, c)
    modifies buf
    ensures forall k :: 0 <= k < buf.Length ==> buf[k] == if k in Ends(c) then '\0' else old(buf[k])
    decreases c
  {
    hide IsWordChar;
    match c
    case Exec(argv) =>
      var i := 0;
      while i < |argv|
        invariant 0 <= i <= |argv|
        invariant forall k :: 0 <= k < buf.Length ==>
                    buf[k] == if exists j :: 0 <= j < i && argv[j].eq == k then '\0' else old(buf[k])
      {
        assert IsWord(s, argv[i].q, argv[i].eq);
        buf[argv[i].eq] := '\0';
        i := i + 1;
      }
    case Redir(d, file, _) =>
      Nulterminate(buf, d, s);
      buf[file.eq] := '\0';
    case Pipe(l, r) =>
      Nulterminate(buf, l, s);
      Nulterminate(buf, r, s);
    case List(l, r) =>
      Nulterminate(buf, l, s);
      Nulterminate(buf, r, s);
    case Back(d) =>
      Nulterminate(buf, d, s);
  }

  /** Parse the C string in `buf`, whose length is `len`, and terminate its words in place. */
  method ParseCmd(buf: array<char>, ghost len: int) returns (r: Result)
    requires 0 <= len < buf.Length && buf[len] == '\0' && forall k :: 0 <= k < len ==> buf[k] != '\0'
    modifies buf
    ensures r == Command(old(buf[..len]))
    ensures r.Fail? ==> buf[..] == old(buf[..])
    ensures r.Ok? ==> Strings(buf[..], old(buf[..len]), r.cmd) == Text(old(buf[..len]), r.cmd)
  {
    hide Line, Spans, IsWord, IsWordChar, Strings, Text, Ends, Skip;
    var n := 0;
    while buf[n] != '\0'
      invariant 0 <= n <= len && buf[..] == old(buf[..])
      decreases len - n
    {
      n := n + 1;
    }
    var s := buf[..n];
    var p := new Parser(s);
    r := p.ParseLine();
    if r.Fail? {
      return;
    }
    var cmd := r.cmd;
    var more := p.Peek({});
    if p.ps != n {
      return Fail(Leftovers);
    }
    r := Ok(cmd, n);
    Nulterminate(buf, cmd, s);
    forall k | 0 <= k < |s| && k in Ends(cmd) ensures !IsWordChar(s[k]) {
      EndsOutside(s, cmd, k);
    }
    CommandReads(s, buf[..], Ends(cmd), cmd);
  }

  // ---------------------------------------------------------------- printing

  /** A word: no white space, no symbol, no NUL. */
  ghost predicate Clean(w: string) {
    w != "" && forall k :: 0 <= k < |w| ==> w[k] !in " \t\r\n\U{000B}" && w[k] !in "<|>&;()" && w[k] != '\0'
  }

  /** The two sets of characters of the parser. */
  lemma Characters(c: char)
    ensures IsSpace(c) <==> c in " \t\r\n\U{000B}"
    ensures IsSymbol(c) <==> c in "<|>&;()"
  {}

  lemma CleanChars(w: string, k: int)
    requires Clean(w) && 0 <= k < |w|
    ensures IsWordChar(w[k]) && w[k] != '\0'
  {
    Characters(w[k]);
  }

  /** Clean words only, and fewer than MAXARGS arguments. */
  ghost predicate Printable(t: Cmd<string>) {
    match t
    case Exec(argv) => |argv| < MAXARGS && forall k :: 0 <= k < |argv| ==> Clean(argv[k])
    case Redir(c, file, _) => Printable(c) && Clean(file)
    case Pipe(l, r) => Printable(l) && Printable(r)
    case List(l, r) => Printable(l) && Printable(r)
    case Back(c) => Printable(c)
  }

  /** The loosest construct a command is: 0 a command, 1 a pipeline, 2 a background command,
      3 a list. */
  function Level(t: Cmd<string>): int {
    match t
    case Exec(_) => 0
    case Redir(_, _, _) => 0
    case Pipe(_, _) => 1
    case Back(_) => 2
    case List(_, _) => 3
  }

  function Operator(mode: Mode): string {
    match mode
    case In => "<"
    case Out => ">"
    case Append => ">>"
  }

  function Plain(mode: Mode): Mode {
    if mode == Append then Out else mode
  }

  /** A command with its `>>` redirections taken for `>`. */
  function Erased(t: Cmd<string>): Cmd<string> {
    match t
    case Exec(_) => t
    case Redir(c, file, mode) => Redir(Erased(c), file, Plain(mode))
    case Pipe(l, r) => Pipe(Erased(l), Erased(r))
    case List(l, r) => List(Erased(l), Erased(r))
    case Back(c) => Back(Erased(c))
  }

  /** The tokens of a command where the grammar has a construct of `level`. */
  function Flat(t: Cmd<string>, level: int): seq<string>
    decreases t, 1
  {
    if Level(t) <= level then Tokens(t) else ["("] + Tokens(t) + [")"]
  }

  function Tokens(t: Cmd<string>): seq<string>
    decreases t, 0
  {
    match t
    case Exec(argv) => argv
    case Redir(c, file, mode) => Flat(c, 0) + [Operator(mode), file]
    case Pipe(l, r) => Flat(l, 0) + ["|"] + Flat(r, 1)
    case Back(c) => Flat(c, 2) + ["&"]
    case List(l, r) => Flat(l, 2) + [";"] + Flat(r, 3)
  }

  /** The white space before token `k`, and after the last one. */
  function Gap(gaps: seq<string>, k: int): string {
    if 0 <= k < |gaps| then gaps[k] else ""
  }

  /** Tokens with white space around them. */
  function Render(ts: seq<string>, gaps: seq<string>): string {
    if ts == [] then Gap(gaps, 0) else Render(ts[..|ts| - 1], gaps) + ts[|ts| - 1] + Gap(gaps, |ts|)
  }

  /** A blank after every token. */
  function Blanks(n: nat): seq<string> {
    seq(n + 1, k => if k == 0 then "" else " ")
  }

  function Print(t: Cmd<string>): string {
    Render(Flat(t, 3), Blanks(|Flat(t, 3)|))
  }

  ghost predicate IsOperator(w: string) {
    w == "<" || w == "|" || w == ">" || w == "&" || w == ";" || w == "(" || w == ")" || w == ">>"
  }

  ghost predicate Lexical(ts: seq<string>) {
    forall k :: 0 <= k < |ts| ==> Clean(ts[k]) || IsOperator(ts[k])
  }

  /** Tokens that need white space between them: two words, and two that would make `>>`. */
  ghost predicate RunTogether(v: string, w: string) {
    (Clean(v) && Clean(w)) || (v == ">" && (w == ">" || w == ">>"))
  }

  /** White space wherever the tokens need it; any amount of it, anywhere. */
  ghost predicate Spaced(ts: seq<string>, gaps: seq<string>) {
    && |gaps| == |ts| + 1
    && (forall j, k :: 0 <= j < |gaps| && 0 <= k < |gaps[j]| ==> gaps[j][k] in " \t\r\n\U{000B}")
    && (forall k :: 0 < k < |ts| && RunTogether(ts[k - 1], ts[k]) ==> gaps[k] != "")
  }

  ghost predicate Good(ts: seq<string>, gaps: seq<string>) {
    Lexical(ts) && Spaced(ts, gaps)
  }

  lemma BlanksSpaced(ts: seq<string>)
    ensures Spaced(ts, Blanks(|ts|))
  {}

  lemma Operatives()
    ensures forall mode :: IsOperator(Operator(mode))
    ensures IsOperator("(") && IsOperator(")") && IsOperator("|") && IsOperator("&") && IsOperator(";")
  {}

  lemma {:induction false} FlatGood(t: Cmd<string>, level: int)
    requires Printable(t)
    ensures Lexical(Flat(t, level))
    decreases t
  {
    hide Clean, IsOperator;
    Operatives();
    match t
    case Exec(_) =>
    case Redir(c, _, _) => FlatGood(c, 0);
    case Pipe(l, r) => FlatGood(l, 0); FlatGood(r, 1);
    case Back(c) => FlatGood(c, 2);
    case List(l, r) => FlatGood(l, 2); FlatGood(r, 3);
  }

  // ---------------------------------------------------------------- reading printed tokens

  /** Where token `k` starts. */
  ghost function Pos(ts: seq<string>, gaps: seq<string>, k: int): int
    requires 0 <= k <= |ts|
  {
    if k == 0 then |Gap(gaps, 0)| else Pos(ts, gaps, k - 1) + |ts[k - 1]| + |Gap(gaps, k)|
  }

  lemma {:induction false} PosPrefix(ts: seq<string>, us: seq<string>, gaps: seq<string>, k: int)
    requires 0 <= k <= |ts| <= |us| && ts == us[..|ts|]
    ensures Pos(ts, gaps, k) == Pos(us, gaps, k)
  {
    if k > 0 {
      PosPrefix(ts, us, gaps, k - 1);
    }
  }

  lemma {:induction false} RenderSize(ts: seq<string>, gaps: seq<string>)
    ensures |Render(ts, gaps)| == Pos(ts, gaps, |ts|)
  {
    if ts != [] {
      RenderSize(ts[..|ts| - 1], gaps);
      PosPrefix(ts[..|ts| - 1], ts, gaps, |ts| - 1);
    }
  }

  /** The line starts with the first gap. */
  lemma {:induction false} RenderFront(ts: seq<string>, gaps: seq<string>)
    ensures Gap(gaps, 0) <= Render(ts, gaps)
  {
    if ts != [] {
      RenderFront(ts[..|ts| - 1], gaps);
    }
  }

  lemma {:induction false} RenderAt(ts: seq<string>, gaps: seq<string>, k: int)
    requires 0 <= k < |ts|
    ensures 0 <= Pos(ts, gaps, k) <= Pos(ts, gaps, k + 1) <= |Render(ts, gaps)| == Pos(ts, gaps, |ts|)
    ensures Render(ts, gaps)[Pos(ts, gaps, k)..Pos(ts, gaps, k + 1)] == ts[k] + Gap(gaps, k + 1)
  {
    hide Render, Pos;
    var n := |ts| - 1;
    var init := ts[..n];
    RenderStep(ts, gaps);
    if k < n {
      RenderAt(init, gaps, k);
      PosPrefix(init, ts, gaps, k);
      PosPrefix(init, ts, gaps, k + 1);
      SliceOfFront(Render(init, gaps), ts[n] + Gap(gaps, n + 1), Pos(ts, gaps, k), Pos(ts, gaps, k + 1));
    }
  }

  lemma RenderStep(ts: seq<string>, gaps: seq<string>)
    requires ts != []
    ensures var n := |ts| - 1;
            && Render(ts, gaps) == Render(ts[..n], gaps) + (ts[n] + Gap(gaps, n + 1))
            && |Render(ts[..n], gaps)| == Pos(ts, gaps, n) && |Render(ts, gaps)| == Pos(ts, gaps, n + 1)
            && Render(ts, gaps)[Pos(ts, gaps, n)..] == ts[n] + Gap(gaps, n + 1)
  {
    RenderSize(ts, gaps);
    RenderSize(ts[..|ts| - 1], gaps);
    PosPrefix(ts[..|ts| - 1], ts, gaps, |ts| - 1);
  }

  lemma SliceOfFront(a: string, b: string, i: int, j: int)
    requires 0 <= i <= j <= |a|
    ensures (a + b)[i..j] == a[i..j]
  {}

  /** White space is skipped whole. */
  lemma {:induction false} SkipOver(s: string, i: int, j: int)
    requires 0 <= i <= j <= |s| && forall k :: i <= k < j ==> IsSpace(s[k])
    ensures Skip(s, i) == Skip(s, j)
    decreases j - i
  {
    if i < j {
      SkipOver(s, i + 1, j);
    }
  }

  lemma GapSpaces(ts: seq<string>, gaps: seq<string>, j: int, k: int)
    requires Spaced(ts, gaps) && 0 <= j <= |ts| && 0 <= k < |Gap(gaps, j)|
    ensures IsSpace(Gap(gaps, j)[k])
  {
    Characters(gaps[j][k]);
  }

  lemma {:induction false} WordEndAt(s: string, i: int, j: int)
    requires 0 <= i <= j <= |s| && (forall k :: i <= k < j ==> IsWordChar(s[k])) && (j < |s| ==> !IsWordChar(s[j]))
    ensures WordEnd(s, i) == j
    decreases j - i
  {
    if i < j {
      WordEndAt(s, i + 1, j);
    }
  }

  ghost function Kind(w: string): char
    requires w != ""
  {
    if w == ">>" then '+' else if IsSymbol(w[0]) then w[0] else 'a'
  }

  /** The position `p` is where token `k`, or the end, is. */
  ghost predicate AtToken(ts: seq<string>, k: int, s: string, p: int)
    requires 0 <= k <= |ts|
  {
    && 0 <= p <= |s| && Skip(s, p) == p
    && (if k == |ts| then p == |s| else ts[k] != "" && p < |s| && s[p] == ts[k][0] && s[p] != '\0')
  }

  /** The first character of a token. */
  lemma FirstChar(w: string)
    requires Clean(w) || IsOperator(w)
    ensures w != "" && w[0] != '\0' && !IsSpace(w[0])
    ensures Clean(w) ==> IsWordChar(w[0])
    ensures !Clean(w) ==> IsSymbol(w[0])
  {
    Characters(w[0]);
  }

  lemma TokenStart(ts: seq<string>, gaps: seq<string>, k: int)
    requires Good(ts, gaps) && 0 <= k <= |ts|
    ensures AtToken(ts, k, Render(ts, gaps), Pos(ts, gaps, k))
  {
    hide Clean, IsOperator, Spaced;
    RenderSize(ts, gaps);
    if k < |ts| {
      RenderAt(ts, gaps, k);
      FirstChar(ts[k]);
      var s, p := Render(ts, gaps), Pos(ts, gaps, k);
      assert s[p] == s[p..Pos(ts, gaps, k + 1)][0] == (ts[k] + Gap(gaps, k + 1))[0];
    }
  }

  /** From the end of token `k` the cursor comes to the next one; the character there is white
      space, or the first of the next token. */
  lemma GapAfter(ts: seq<string>, gaps: seq<string>, k: int)
    requires Good(ts, gaps) && 0 <= k < |ts|
    ensures var s, e := Render(ts, gaps), Pos(ts, gaps, k) + |ts[k]|;
            && 0 <= e <= Pos(ts, gaps, k + 1) <= |s| && Skip(s, e) == Pos(ts, gaps, k + 1)
            && (Gap(gaps, k + 1) != "" ==> e < |s| && IsSpace(s[e]))
            && (Gap(gaps, k + 1) == "" ==> e == Pos(ts, gaps, k + 1))
  {
    hide Clean, IsOperator, Lexical, Spaced, IsSpace;
    var s, e, next := Render(ts, gaps), Pos(ts, gaps, k) + |ts[k]|, Pos(ts, gaps, k + 1);
    RenderAt(ts, gaps, k);
    TokenStart(ts, gaps, k + 1);
    var piece, gap := s[Pos(ts, gaps, k)..next], Gap(gaps, k + 1);
    assert piece == ts[k] + gap;
    forall j | e <= j < next ensures IsSpace(s[j]) {
      assert s[j] == piece[j - Pos(ts, gaps, k)] == gap[j - e];
      GapSpaces(ts, gaps, k + 1, j - e);
    }
    SkipOver(s, e, next);
  }

  /** The character after a token does not belong to it. */
  lemma TokenEnds(ts: seq<string>, gaps: seq<string>, k: int)
    requires Good(ts, gaps) && 0 <= k < |ts|
    ensures var s, e := Render(ts, gaps), Pos(ts, gaps, k) + |ts[k]|;
            && 0 <= e <= |s|
            && (Clean(ts[k]) && e < |s| ==> !IsWordChar(s[e]))
            && (ts[k] == ">" ==> At(s, e) != '>')
  {
    hide Clean, IsOperator, Render, Pos, Skip;
    GapAfter(ts, gaps, k);
    TokenStart(ts, gaps, k + 1);
    if Gap(gaps, k + 1) == "" && k + 1 < |ts| {
      assert !RunTogether(ts[k], ts[k + 1]);
      FirstChar(ts[k + 1]);
      if ts[k] == ">" {
        NotArrow(ts[k + 1]);
      }
    }
  }

  lemma NotArrow(w: string)
    requires (Clean(w) || IsOperator(w)) && w != ">" && w != ">>"
    ensures w != "" && w[0] != '>'
  {
    FirstChar(w);
  }

  /** Reading token `k` moves the cursor from where it starts to where the next one starts. */
  lemma TokenAt(ts: seq<string>, gaps: seq<string>, k: int)
    requires Good(ts, gaps) && 0 <= k < |ts|
    ensures var s, p := Render(ts, gaps), Pos(ts, gaps, k);
            && 0 <= p <= |s| && ts[k] != ""
            && Token(s, p) == Lex(Kind(ts[k]), p, p + |ts[k]|, Pos(ts, gaps, k + 1))
            && Sub(s, Span(p, p + |ts[k]|)) == ts[k]
  {
    hide Render, Pos, Good, Skip;
    TokenStart(ts, gaps, k);
    GapAfter(ts, gaps, k);
    TokenEnds(ts, gaps, k);
    TokenText(ts, gaps, k);
    LexAt(Render(ts, gaps), Pos(ts, gaps, k), ts[k]);
  }

  lemma TokenText(ts: seq<string>, gaps: seq<string>, k: int)
    requires Good(ts, gaps) && 0 <= k < |ts|
    ensures Clean(ts[k]) || IsOperator(ts[k])
    ensures var s, p := Render(ts, gaps), Pos(ts, gaps, k); 0 <= p && p + |ts[k]| <= |s| && s[p..p + |ts[k]|] == ts[k]
  {
    hide Clean, IsOperator, Spaced;
    RenderAt(ts, gaps, k);
    var s, p, n := Render(ts, gaps), Pos(ts, gaps, k), |ts[k]|;
    var piece := s[p..Pos(ts, gaps, k + 1)];
    assert piece == ts[k] + Gap(gaps, k + 1);
    assert s[p..p + n] == piece[..n] == ts[k];
  }

  /** The token at `p`, where `w` is and the character after it does not belong to it. */
  lemma LexAt(s: string, p: int, w: string)
    requires (Clean(w) || IsOperator(w)) && 0 <= p && p + |w| <= |s| && s[p..p + |w|] == w && Skip(s, p) == p
    requires (Clean(w) && p + |w| < |s| ==> !IsWordChar(s[p + |w|])) && (w == ">" ==> At(s, p + 1) != '>')
    ensures w != "" && Token(s, p) == Lex(Kind(w), p, p + |w|, Skip(s, p + |w|))
  {
    hide Skip;
    FirstChar(w);
    assert s[p] == s[p..p + |w|][0];
    if Clean(w) {
      forall k | p <= k < p + |w| ensures IsWordChar(s[k]) {
        assert s[k] == s[p..p + |w|][k - p];
        CleanChars(w, k - p);
      }
      WordEndAt(s, p, p + |w|);
    } else if w == ">>" {
      assert s[p + 1] == s[p..p + 2][1];
    }
  }

  lemma Look(ts: seq<string>, gaps: seq<string>, k: int, toks: set<char>)
    requires Good(ts, gaps) && 0 <= k <= |ts|
    ensures var s, p := Render(ts, gaps), Pos(ts, gaps, k);
            && 0 <= p <= |s| && Skip(s, p) == p
            && (k < |ts| ==> ts[k] != "" && (Sees(s, p, toks) <==> ts[k][0] in toks))
            && (k == |ts| ==> p == |s| && !Sees(s, p, toks) && Token(s, p) == Lex('\0', p, p, p))
  {
    hide Render, Pos;
    TokenStart(ts, gaps, k);
  }

  ghost function SpanOf(ts: seq<string>, gaps: seq<string>, k: int): Span
    requires 0 <= k < |ts|
  {
    Span(Pos(ts, gaps, k), Pos(ts, gaps, k) + |ts[k]|)
  }

  lemma WordAt(ts: seq<string>, gaps: seq<string>, k: int)
    requires Good(ts, gaps) && 0 <= k < |ts| && Clean(ts[k])
    ensures IsWord(Render(ts, gaps), SpanOf(ts, gaps, k).q, SpanOf(ts, gaps, k).eq) && Sub(Render(ts, gaps), SpanOf(ts, gaps, k)) == ts[k]
  {
    hide Token, Render, Pos, IsWord, Sub, Good, Clean;
    CleanNotOperator(ts[k]);
    TokenAt(ts, gaps, k);
  }

  lemma RedirStep(ts: seq<string>, gaps: seq<string>, k: int, c: Cmd<Span>, mode: Mode)
    requires Good(ts, gaps) && 0 <= k && k + 1 < |ts| && ts[k] == Operator(mode) && Clean(ts[k + 1]) && Spans(Render(ts, gaps), c)
    ensures var s := Render(ts, gaps);
            && 0 <= Pos(ts, gaps, k) <= |s| && 0 <= Pos(ts, gaps, k + 2) <= |s| && Spans(s, Redir(c, SpanOf(ts, gaps, k + 1), Plain(mode)))
            && Redirs(s, Pos(ts, gaps, k), c) == Redirs(s, Pos(ts, gaps, k + 2), Redir(c, SpanOf(ts, gaps, k + 1), Plain(mode)))
  {
    hide Token, Skip, Render, Pos, IsWord, Good, Clean;
    CleanNotOperator(ts[k + 1]);
    Look(ts, gaps, k, {'<', '>'});
    TokenAt(ts, gaps, k);
    TokenAt(ts, gaps, k + 1);
    WordAt(ts, gaps, k + 1);
  }

  lemma RedirStop(ts: seq<string>, gaps: seq<string>, k: int, c: Cmd<Span>)
    requires Good(ts, gaps) && 0 <= k <= |ts| && (k < |ts| ==> ts[k] != "<" && ts[k] != ">" && ts[k] != ">>") && Spans(Render(ts, gaps), c)
    ensures 0 <= Pos(ts, gaps, k) <= |Render(ts, gaps)| && Redirs(Render(ts, gaps), Pos(ts, gaps, k), c) == Ok(c, Pos(ts, gaps, k))
  {
    hide Token, Skip, Render, Pos, IsWord, Spans;
    Look(ts, gaps, k, {'<', '>'});
    if k < |ts| {
      assert ts[k][0] != '<' && ts[k][0] != '>' by {
        if |ts[k]| == 1 {
          assert ts[k] == [ts[k][0]];
        }
      }
    }
  }

  lemma ArgStep(ts: seq<string>, gaps: seq<string>, k: int, c: Cmd<Span>, argc: int)
    requires Good(ts, gaps) && 0 <= k < |ts| && Clean(ts[k]) && Spans(Render(ts, gaps), c) && Simple(c, argc)
    requires argc + 1 < MAXARGS
    ensures var s, d := Render(ts, gaps), AddArg(c, SpanOf(ts, gaps, k));
            && 0 <= Pos(ts, gaps, k) <= |s| && 0 <= Pos(ts, gaps, k + 1) <= |s| && Spans(s, d) && Simple(d, argc + 1)
            && ExecRest(s, Pos(ts, gaps, k), c, argc) == ExecRest(s, Pos(ts, gaps, k + 1), d, argc + 1)
  {
    hide Token, Skip, Render, Pos, IsWord, Redirs, Spans, Simple, Good, Clean;
    CleanNotOperator(ts[k]);
    RedirStop(ts, gaps, k, c);
    Look(ts, gaps, k, {'|', ')', '&', ';'});
    TokenAt(ts, gaps, k);
    WordAt(ts, gaps, k);
    AddArgSpans(Render(ts, gaps), c, SpanOf(ts, gaps, k), argc);
  }

  lemma ArgRefused(ts: seq<string>, gaps: seq<string>, k: int, c: Cmd<Span>, argc: int)
    requires Good(ts, gaps) && 0 <= k < |ts| && Clean(ts[k]) && Spans(Render(ts, gaps), c) && Simple(c, argc)
    requires argc + 1 >= MAXARGS
    ensures 0 <= Pos(ts, gaps, k) <= |Render(ts, gaps)|
    ensures ExecRest(Render(ts, gaps), Pos(ts, gaps, k), c, argc) == Fail(TooManyArgs)
  {
    hide Token, Skip, Render, Pos, IsWord, Redirs, Spans, Simple, Good, Clean;
    CleanNotOperator(ts[k]);
    RedirStop(ts, gaps, k, c);
    Look(ts, gaps, k, {'|', ')', '&', ';'});
    TokenAt(ts, gaps, k);
  }

  /** Nothing follows, or one of `toks` does. */
  ghost predicate Follows(ts: seq<string>, k: int, toks: set<string>)
    requires 0 <= k <= |ts|
  {
    k < |ts| ==> ts[k] in toks
  }

  lemma ExecStop(ts: seq<string>, gaps: seq<string>, k: int, c: Cmd<Span>, argc: int)
    requires Good(ts, gaps) && 0 <= k <= |ts| && Follows(ts, k, {"|", ")", "&", ";"}) && Spans(Render(ts, gaps), c) && Simple(c, argc)
    ensures 0 <= Pos(ts, gaps, k) <= |Render(ts, gaps)| && ExecRest(Render(ts, gaps), Pos(ts, gaps, k), c, argc) == Ok(c, Pos(ts, gaps, k))
  {
    hide Token, Skip, Render, Pos, IsWord, Redirs, Spans, Simple;
    RedirStop(ts, gaps, k, c);
    Look(ts, gaps, k, {'|', ')', '&', ';'});
  }

  lemma SubsSnoc(s: string, ws: seq<Span>, w: Span)
    ensures Subs(s, ws + [w]) == Subs(s, ws) + [Sub(s, w)]
  {
    assert (ws + [w])[..|ws|] == ws;
  }

  lemma {:induction false} ArgsAt(ts: seq<string>, gaps: seq<string>, k: int, m: int, argv: seq<string>) returns (c: seq<Span>)
    requires Good(ts, gaps) && 0 <= k <= m <= |ts| && ts[k..m] == argv && Printable(Exec(argv))
    ensures var s := Render(ts, gaps);
            && 0 <= Pos(ts, gaps, k) <= |s| && 0 <= Pos(ts, gaps, m) <= |s| && |c| == |argv| && Spans(s, Exec(c)) && Subs(s, c) == argv
            && ExecRest(s, Pos(ts, gaps, k), Exec([]), 0) == ExecRest(s, Pos(ts, gaps, m), Exec(c), |c|)
    decreases m - k
  {
    hide Render, Pos, IsWord, ExecRest, Spans, Clean, Sub, Subs, Good;
    if k == m {
      c := [];
      NoArgs(Render(ts, gaps));
      Look(ts, gaps, k, {});
    } else {
      assert ts[k..m - 1] == argv[..m - 1 - k];
      var d := ArgsAt(ts, gaps, k, m - 1, argv[..m - 1 - k]);
      assert ts[m - 1] == argv[m - 1 - k];
      ArgStep(ts, gaps, m - 1, Exec(d), |d|);
      WordAt(ts, gaps, m - 1);
      c := d + [SpanOf(ts, gaps, m - 1)];
      SubsSnoc(Render(ts, gaps), d, SpanOf(ts, gaps, m - 1));
    }
  }

  /** A command that has been read up to the redirections that may follow it: in parentheses,
      or simple with `argc` arguments. */
  ghost function Tail(s: string, i: int, c: Cmd<Span>, block: bool, argc: int): Result
    requires 0 <= i <= |s| && Spans(s, c) && (block || Simple(c, argc))
  {
    if block then Redirs(s, i, c) else ExecRest(s, i, c, argc)
  }

  lemma TailStep(ts: seq<string>, gaps: seq<string>, k: int, c: Cmd<Span>, mode: Mode, block: bool, argc: int)
    requires Good(ts, gaps) && 0 <= k && k + 1 < |ts| && ts[k] == Operator(mode) && Clean(ts[k + 1])
    requires Spans(Render(ts, gaps), c) && (block || Simple(c, argc))
    ensures var s, d := Render(ts, gaps), Redir(c, SpanOf(ts, gaps, k + 1), Plain(mode));
            && 0 <= Pos(ts, gaps, k) <= |s| && 0 <= Pos(ts, gaps, k + 2) <= |s| && Spans(s, d) && (block || Simple(d, argc))
            && Tail(s, Pos(ts, gaps, k), c, block, argc) == Tail(s, Pos(ts, gaps, k + 2), d, block, argc)
  {
    hide Render, Pos, Redirs, Args;
    RedirStep(ts, gaps, k, c, mode);
  }

  lemma TailStop(ts: seq<string>, gaps: seq<string>, k: int, c: Cmd<Span>, block: bool, argc: int)
    requires Good(ts, gaps) && 0 <= k <= |ts| && Follows(ts, k, {"|", ")", "&", ";"})
    requires Spans(Render(ts, gaps), c) && (block || Simple(c, argc))
    ensures 0 <= Pos(ts, gaps, k) <= |Render(ts, gaps)| && Tail(Render(ts, gaps), Pos(ts, gaps, k), c, block, argc) == Ok(c, Pos(ts, gaps, k))
  {
    hide Render, Pos, Redirs, ExecRest, Spans;
    if block {
      RedirStop(ts, gaps, k, c);
    } else {
      ExecStop(ts, gaps, k, c, argc);
    }
  }

  // ---------------------------------------------------------------- one construct at a time

  ghost predicate Bounded(ts: seq<string>, gaps: seq<string>, k: int)
    requires 0 <= k <= |ts|
  {
    0 <= Pos(ts, gaps, k) <= |Render(ts, gaps)|
  }

  lemma InBounds(ts: seq<string>, gaps: seq<string>, k: int)
    requires Good(ts, gaps) && 0 <= k <= |ts|
    ensures Bounded(ts, gaps, k)
  {
    hide Render, Pos;
    Look(ts, gaps, k, {});
  }

  lemma BlockStart(ts: seq<string>, gaps: seq<string>, k: int, m: int, c: Cmd<Span>)
    requires Good(ts, gaps) && 0 <= k && k + 1 < m <= |ts| && ts[k] == "(" && ts[m - 1] == ")"
    requires Bounded(ts, gaps, k) && Bounded(ts, gaps, k + 1) && Bounded(ts, gaps, m) && Line(Render(ts, gaps), Pos(ts, gaps, k + 1)) == Ok(c, Pos(ts, gaps, m - 1))
    ensures Execs(Render(ts, gaps), Pos(ts, gaps, k)) == Redirs(Render(ts, gaps), Pos(ts, gaps, m), c)
  {
    hide Token, Skip, Render, Pos, IsWord, Redirs, Spans, Line;
    Look(ts, gaps, k, {'('});
    TokenAt(ts, gaps, k);
    Look(ts, gaps, m - 1, {')'});
    TokenAt(ts, gaps, m - 1);
  }

  lemma NotBlock(ts: seq<string>, gaps: seq<string>, k: int)
    requires Good(ts, gaps) && 0 <= k <= |ts| && (k < |ts| ==> ts[k] != "(") && Bounded(ts, gaps, k)
    ensures Execs(Render(ts, gaps), Pos(ts, gaps, k)) == ExecRest(Render(ts, gaps), Pos(ts, gaps, k), Exec([]), 0)
  {
    hide Token, Skip, Render, Pos, IsWord, ExecRest, Block;
    Look(ts, gaps, k, {'('});
    if k < |ts| && |ts[k]| == 1 {
      assert ts[k] == [ts[k][0]];
    }
  }

  lemma PipeJoin(ts: seq<string>, gaps: seq<string>, k: int, p: int, m: int, c: Cmd<Span>, d: Cmd<Span>)
    requires Good(ts, gaps) && 0 <= k <= p < m <= |ts| && ts[p] == "|" && Bounded(ts, gaps, k) && Bounded(ts, gaps, p + 1)
    requires Execs(Render(ts, gaps), Pos(ts, gaps, k)) == Ok(c, Pos(ts, gaps, p)) && Pipes(Render(ts, gaps), Pos(ts, gaps, p + 1)) == Ok(d, Pos(ts, gaps, m))
    ensures Pipes(Render(ts, gaps), Pos(ts, gaps, k)) == Ok(Pipe(c, d), Pos(ts, gaps, m))
  {
    hide Token, Skip, Render, Pos, IsWord, Execs;
    Look(ts, gaps, p, {'|'});
    TokenAt(ts, gaps, p);
  }

  lemma PipeEnd(ts: seq<string>, gaps: seq<string>, k: int, m: int, c: Cmd<Span>)
    requires Good(ts, gaps) && 0 <= k <= m <= |ts| && Follows(ts, m, {")", "&", ";"}) && Bounded(ts, gaps, k)
    requires Execs(Render(ts, gaps), Pos(ts, gaps, k)) == Ok(c, Pos(ts, gaps, m))
    ensures Pipes(Render(ts, gaps), Pos(ts, gaps, k)) == Ok(c, Pos(ts, gaps, m))
  {
    hide Token, Skip, Render, Pos, IsWord, Execs;
    Look(ts, gaps, m, {'|'});
  }

  lemma BackJoin(ts: seq<string>, gaps: seq<string>, p: int, c: Cmd<Span>)
    requires Good(ts, gaps) && 0 <= p < |ts| && ts[p] == "&" && Bounded(ts, gaps, p) && Bounded(ts, gaps, p + 1) && Spans(Render(ts, gaps), c)
    ensures LineRest(Render(ts, gaps), Pos(ts, gaps, p), c) == LineRest(Render(ts, gaps), Pos(ts, gaps, p + 1), Back(c))
  {
    hide Token, Skip, Render, Pos, IsWord, Line;
    Look(ts, gaps, p, {'&'});
    TokenAt(ts, gaps, p);
  }

  lemma ListJoin(ts: seq<string>, gaps: seq<string>, p: int, m: int, c: Cmd<Span>, d: Cmd<Span>)
    requires Good(ts, gaps) && 0 <= p < m <= |ts| && ts[p] == ";" && Bounded(ts, gaps, p) && Bounded(ts, gaps, p + 1) && Spans(Render(ts, gaps), c)
    requires Line(Render(ts, gaps), Pos(ts, gaps, p + 1)) == Ok(d, Pos(ts, gaps, m))
    ensures LineRest(Render(ts, gaps), Pos(ts, gaps, p), c) == Ok(List(c, d), Pos(ts, gaps, m))
  {
    hide Token, Skip, Render, Pos, IsWord, Line;
    Look(ts, gaps, p, {'&'});
    Look(ts, gaps, p, {';'});
    TokenAt(ts, gaps, p);
  }

  lemma LineEnd(ts: seq<string>, gaps: seq<string>, m: int, c: Cmd<Span>)
    requires Good(ts, gaps) && 0 <= m <= |ts| && Follows(ts, m, {")"}) && Bounded(ts, gaps, m) && Spans(Render(ts, gaps), c)
    ensures LineRest(Render(ts, gaps), Pos(ts, gaps, m), c) == Ok(c, Pos(ts, gaps, m))
  {
    hide Token, Skip, Render, Pos, IsWord, Line;
    Look(ts, gaps, m, {'&'});
    Look(ts, gaps, m, {';'});
  }

  // ---------------------------------------------------------------- the round trip

  ghost predicate Reads(ts: seq<string>, gaps: seq<string>, c: Cmd<Span>, t: Cmd<string>) {
    Spans(Render(ts, gaps), c) && Text(Render(ts, gaps), c) == Erased(t)
  }

  lemma Split(ts: seq<string>, k: int, m: int, a: seq<string>, x: string, b: seq<string>)
    requires 0 <= k <= m <= |ts| && ts[k..m] == a + [x] + b
    ensures var p := k + |a|; p < m && ts[k..p] == a && ts[p] == x && ts[p + 1..m] == b
  {
    var p := k + |a|;
    assert ts[k..p] == ts[k..m][..|a|];
    assert ts[p] == ts[k..m][|a|];
    assert ts[p + 1..m] == ts[k..m][|a| + 1..];
  }

  lemma SimpleAt(ts: seq<string>, gaps: seq<string>, k: int, m: int, argv: seq<string>) returns (ws: seq<Span>)
    requires Good(ts, gaps) && 0 <= k <= m <= |ts| && ts[k..m] == argv && Printable(Exec(argv)) && (m < |ts| ==> ts[m] != "(")
    ensures Bounded(ts, gaps, k) && Bounded(ts, gaps, m) && Spans(Render(ts, gaps), Exec(ws)) && Subs(Render(ts, gaps), ws) == argv
    ensures Execs(Render(ts, gaps), Pos(ts, gaps, k)) == ExecRest(Render(ts, gaps), Pos(ts, gaps, m), Exec(ws), |ws|)
  {
    hide Render, Pos, Execs, ExecRest, IsWord, Clean, Good, Subs, Spans;
    ws := ArgsAt(ts, gaps, k, m, argv);
    if k < m {
      assert ts[k] == argv[0];
      CleanNotOperator(argv[0]);
    }
    NotBlock(ts, gaps, k);
  }

  lemma CleanNotOperator(w: string)
    requires Clean(w)
    ensures w != "(" && w != "<" && w != ">" && w != ">>" && w != "" && IsWordChar(w[0])
  {
    CleanChars(w, 0);
  }

  /** The tokens from `k` to `m` are read as the command `c`, up to redirections that may follow. */
  ghost predicate ExecReads(ts: seq<string>, gaps: seq<string>, k: int, m: int, t: Cmd<string>, c: Cmd<Span>, block: bool, argc: int)
    requires 0 <= k <= m <= |ts|
  {
    && Bounded(ts, gaps, k) && Bounded(ts, gaps, m) && Reads(ts, gaps, c, t) && (block || Simple(c, argc))
    && Execs(Render(ts, gaps), Pos(ts, gaps, k)) == Tail(Render(ts, gaps), Pos(ts, gaps, m), c, block, argc)
  }

  lemma ExecRedir(ts: seq<string>, gaps: seq<string>, k: int, m: int, t: Cmd<string>, c: Cmd<Span>, mode: Mode, block: bool, argc: int)
    requires Good(ts, gaps) && 0 <= k <= m && m + 1 < |ts| && ts[m] == Operator(mode) && Clean(ts[m + 1])
    requires ExecReads(ts, gaps, k, m, t, c, block, argc)
    ensures ExecReads(ts, gaps, k, m + 2, Redir(t, ts[m + 1], mode), Redir(c, SpanOf(ts, gaps, m + 1), Plain(mode)), block, argc)
  {
    hide Render, Pos, Execs, Tail, IsWord, Good, Clean;
    TailStep(ts, gaps, m, c, mode, block, argc);
    WordAt(ts, gaps, m + 1);
  }

  lemma ExecBlock(ts: seq<string>, gaps: seq<string>, k: int, m: int, t: Cmd<string>, c: Cmd<Span>)
    requires Good(ts, gaps) && 0 <= k && k + 1 < m <= |ts| && ts[k] == "(" && ts[m - 1] == ")"
    requires Bounded(ts, gaps, k + 1) && Reads(ts, gaps, c, t) && Line(Render(ts, gaps), Pos(ts, gaps, k + 1)) == Ok(c, Pos(ts, gaps, m - 1))
    ensures ExecReads(ts, gaps, k, m, t, c, true, 0)
  {
    hide Render, Pos, Execs, Redirs, Good, Line, Spans, Text, Simple;
    InBounds(ts, gaps, k);
    InBounds(ts, gaps, m);
    BlockStart(ts, gaps, k, m, c);
  }

  lemma ExecAt(ts: seq<string>, gaps: seq<string>, k: int, m: int, t: Cmd<string>) returns (c: Cmd<Span>, block: bool, argc: int)
    requires Good(ts, gaps) && 0 <= k <= m <= |ts| && ts[k..m] == Flat(t, 0) && Printable(t) && (m < |ts| ==> ts[m] != "(")
    ensures ExecReads(ts, gaps, k, m, t, c, block, argc)
    decreases t, (4 - Level(t)) % 4
  {
    hide Render, Pos, Good, Clean, ExecReads, Reads, Line, Bounded, Flat, Tokens, Spans;
    match t
    case Exec(argv) =>
      assert Flat(t, 0) == argv by { SimpleFlat(argv); }
      var ws := SimpleAt(ts, gaps, k, m, argv);
      c, block, argc := Exec(ws), false, |ws|;
      ExecSimple(ts, gaps, k, m, argv, ws);
    case Redir(d, file, mode) =>
      RedirSplit(ts, k, m, d, file, mode);
      var e;
      e, block, argc := ExecAt(ts, gaps, k, m - 2, d);
      ExecRedir(ts, gaps, k, m - 2, d, e, mode, block, argc);
      c := Redir(e, SpanOf(ts, gaps, m - 1), Plain(mode));
    case _ =>
      BlockSplit(ts, k, m, t);
      c := LineAt(ts, gaps, k + 1, m - 1, t);
      ExecBlock(ts, gaps, k, m, t, c);
      block, argc := true, 0;
  }

  lemma SimpleFlat(argv: seq<string>)
    ensures Flat(Exec(argv), 0) == argv
  {}

  lemma RedirSplit(ts: seq<string>, k: int, m: int, t: Cmd<string>, file: string, mode: Mode)
    requires 0 <= k <= m <= |ts| && ts[k..m] == Flat(Redir(t, file, mode), 0)
    ensures k + 2 <= m && ts[k..m - 2] == Flat(t, 0) && ts[m - 2] == Operator(mode) != "(" && ts[m - 1] == file
  {
    var a := Flat(t, 0);
    assert ts[k..m] == a + [Operator(mode), file];
    Split(ts, k, m, a, Operator(mode), [file]);
    assert ts[m - 1] == ts[m - 1..m][0];
  }

  lemma BlockSplit(ts: seq<string>, k: int, m: int, t: Cmd<string>)
    requires 0 <= k <= m <= |ts| && ts[k..m] == Flat(t, 0) && Level(t) > 0
    ensures k + 2 <= m && ts[k] == "(" && ts[k + 1..m - 1] == Flat(t, 3) && ts[m - 1] == ")"
  {
    hide Tokens;
    Split(ts, k, m, [], "(", Tokens(t) + [")"]);
    Split(ts, k + 1, m, Tokens(t), ")", []);
  }

  lemma ExecSimple(ts: seq<string>, gaps: seq<string>, k: int, m: int, argv: seq<string>, ws: seq<Span>)
    requires 0 <= k <= m <= |ts| && Bounded(ts, gaps, k) && Bounded(ts, gaps, m) && Spans(Render(ts, gaps), Exec(ws)) && Subs(Render(ts, gaps), ws) == argv
    requires Execs(Render(ts, gaps), Pos(ts, gaps, k)) == ExecRest(Render(ts, gaps), Pos(ts, gaps, m), Exec(ws), |ws|)
    ensures ExecReads(ts, gaps, k, m, Exec(argv), Exec(ws), false, |ws|)
  {
    hide Render, Pos, Execs, ExecRest, IsWord, Subs;
  }

  lemma PipeAt(ts: seq<string>, gaps: seq<string>, k: int, m: int, t: Cmd<string>) returns (c: Cmd<Span>)
    requires Good(ts, gaps) && 0 <= k <= m <= |ts| && ts[k..m] == Flat(t, 1) && Printable(t) && Follows(ts, m, {")", "&", ";"})
    ensures Bounded(ts, gaps, k) && Reads(ts, gaps, c, t) && Pipes(Render(ts, gaps), Pos(ts, gaps, k)) == Ok(c, Pos(ts, gaps, m))
    decreases t, (5 - Level(t)) % 4
  {
    hide Render, Pos, Execs, Pipes, Tail, IsWord;
    InBounds(ts, gaps, k);
    var block, argc;
    if t.Pipe? {
      var p := k + |Flat(t.left, 0)|;
      Split(ts, k, m, Flat(t.left, 0), "|", Flat(t.right, 1));
      InBounds(ts, gaps, p + 1);
      c, block, argc := ExecAt(ts, gaps, k, p, t.left);
      TailStop(ts, gaps, p, c, block, argc);
      var d := PipeAt(ts, gaps, p + 1, m, t.right);
      PipeJoin(ts, gaps, k, p, m, c, d);
      c := Pipe(c, d);
    } else {
      c, block, argc := ExecAt(ts, gaps, k, m, t);
      TailStop(ts, gaps, m, c, block, argc);
      PipeEnd(ts, gaps, k, m, c);
    }
  }

  lemma BackAt(ts: seq<string>, gaps: seq<string>, k: int, m: int, t: Cmd<string>) returns (c: Cmd<Span>)
    requires Good(ts, gaps) && 0 <= k <= m <= |ts| && ts[k..m] == Flat(t, 2) && Printable(t) && Follows(ts, m, {")", "&", ";"})
    ensures Bounded(ts, gaps, k) && Bounded(ts, gaps, m) && Reads(ts, gaps, c, t)
    ensures Line(Render(ts, gaps), Pos(ts, gaps, k)) == LineRest(Render(ts, gaps), Pos(ts, gaps, m), c)
    decreases t, (6 - Level(t)) % 4
  {
    hide Render, Pos, Pipes, LineRest, IsWord;
    InBounds(ts, gaps, k);
    InBounds(ts, gaps, m);
    if t.Back? {
      Split(ts, k, m, Flat(t.cmd, 2), "&", []);
      var d := BackAt(ts, gaps, k, m - 1, t.cmd);
      BackJoin(ts, gaps, m - 1, d);
      c := Back(d);
    } else {
      c := PipeAt(ts, gaps, k, m, t);
    }
  }

  lemma LineAt(ts: seq<string>, gaps: seq<string>, k: int, m: int, t: Cmd<string>) returns (c: Cmd<Span>)
    requires Good(ts, gaps) && 0 <= k <= m <= |ts| && ts[k..m] == Flat(t, 3) && Printable(t) && Follows(ts, m, {")"})
    ensures Bounded(ts, gaps, k) && Reads(ts, gaps, c, t) && Line(Render(ts, gaps), Pos(ts, gaps, k)) == Ok(c, Pos(ts, gaps, m))
    decreases t, (7 - Level(t)) % 4
  {
    hide Render, Pos, Line, LineRest, IsWord;
    InBounds(ts, gaps, k);
    InBounds(ts, gaps, m);
    if t.List? {
      var p := k + |Flat(t.left, 2)|;
      Split(ts, k, m, Flat(t.left, 2), ";", Flat(t.right, 3));
      InBounds(ts, gaps, p + 1);
      c := BackAt(ts, gaps, k, p, t.left);
      var d := LineAt(ts, gaps, p + 1, m, t.right);
      ListJoin(ts, gaps, p, m, c, d);
      c := List(c, d);
    } else {
      c := BackAt(ts, gaps, k, m, t);
      LineEnd(ts, gaps, m, c);
    }
  }

  /** White space in front of a line makes no difference. */
  lemma LineFrom(s: string, i: int)
    requires 0 <= i <= |s| && Skip(s, 0) == Skip(s, i) == i
    ensures Execs(s, 0) == Execs(s, i) && Line(s, 0) == Line(s, i)
  {
    hide ExecRest, Block, LineRest;
  }

  /** Parsing a command written with any white space, of blanks, tabs, newlines and the like, in
      front, between and behind its tokens, gives the command back, but for `>>`, which is
      parsed as `>`. Only words, and arrows, need white space between them. */
  lemma ReadsBack(t: Cmd<string>, gaps: seq<string>)
    requires Printable(t) && Spaced(Flat(t, 3), gaps)
    ensures var s := Render(Flat(t, 3), gaps); Command(s).Ok? && Text(s, Command(s).cmd) == Erased(t)
  {
    hide Line, Render, Pos, Skip, Text, Flat, Lexical, Spaced, Erased;
    var ts := Flat(t, 3);
    FlatGood(t, 3);
    assert ts[0..|ts|] == ts;
    var c := LineAt(ts, gaps, 0, |ts|, t);
    Look(ts, gaps, |ts|, {});
    FrontSkipped(ts, gaps);
    LineFrom(Render(ts, gaps), Pos(ts, gaps, 0));
  }

  lemma FrontSkipped(ts: seq<string>, gaps: seq<string>)
    requires Good(ts, gaps)
    ensures var s, p := Render(ts, gaps), Pos(ts, gaps, 0); 0 <= p <= |s| && Skip(s, 0) == Skip(s, p) == p
  {
    hide Lexical, Spaced, IsSpace, Render, Skip;
    var s, p := Render(ts, gaps), Pos(ts, gaps, 0);
    RenderFront(ts, gaps);
    Look(ts, gaps, 0, {});
    forall k | 0 <= k < p ensures IsSpace(s[k]) {
      GapSpaces(ts, gaps, 0, k);
    }
    SkipOver(s, 0, p);
  }

  /** What line `s` is a way to write. */
  ghost predicate Means(s: string, t: Cmd<string>) {
    Command(s).Ok? && Text(s, Command(s).cmd) == t
  }

  lemma MeansThree(t: Cmd<string>, u: string, v: string, w: string)
    requires Printable(t) && Flat(t, 3) == [u, v, w] && !RunTogether(u, v) && !RunTogether(v, w)
    ensures Means(u + v + w, Erased(t))
  {
    hide Command, Text, Erased, Flat, Printable, RunTogether;
    var gaps, ts := ["", "", "", ""], [u, v, w];
    assert ts[..2] == [u, v] && [u, v][..1] == [u] && [u][..0] == [];
    assert Render([], gaps) == "" && Render([u], gaps) == u && Render([u, v], gaps) == u + v;
    assert Render(ts, gaps) == u + v + w;
    ReadsBack(t, gaps);
  }

  /** Every operator between two words, without any white space, and two words with some. */
  lemma Operators(v: string, w: string)
    requires Clean(v) && Clean(w)
    ensures Means(v + "<" + w, Redir(Exec([v]), w, In)) && Means(v + ">" + w, Redir(Exec([v]), w, Out))
    ensures Means(v + ">>" + w, Redir(Exec([v]), w, Out))
    ensures Means(v + "|" + w, Pipe(Exec([v]), Exec([w]))) && Means(v + ";" + w, List(Exec([v]), Exec([w])))
    ensures Means("\t" + v + "\r" + w + "\n&\U{000B}", Back(Exec([v, w])))
  {
    hide Command, Text, Clean, Flat;
    NotTogether(v, w);
    TwoWords(v, w);
    MeansThree(Redir(Exec([v]), w, In), v, "<", w);
    MeansThree(Redir(Exec([v]), w, Out), v, ">", w);
    MeansThree(Redir(Exec([v]), w, Append), v, ">>", w);
    MeansThree(Pipe(Exec([v]), Exec([w])), v, "|", w);
    MeansThree(List(Exec([v]), Exec([w])), v, ";", w);
    WhiteSpace(v, w);
  }

  lemma TwoWords(v: string, w: string)
    ensures forall mode :: Flat(Redir(Exec([v]), w, mode), 3) == [v, Operator(mode), w]
    ensures Flat(Pipe(Exec([v]), Exec([w])), 3) == [v, "|", w] && Flat(List(Exec([v]), Exec([w])), 3) == [v, ";", w]
    ensures Flat(Back(Exec([v, w])), 3) == [v, w, "&"] && Erased(Back(Exec([v, w]))) == Back(Exec([v, w]))
  {
    var x, y := Exec([v]), Exec([w]);
    forall t: Cmd<string>, level | t == x || t == y || t == Exec([v, w])
      ensures 0 <= level ==> Flat(t, level) == t.argv && Erased(t) == t
    {}
    forall mode ensures Flat(Redir(x, w, mode), 3) == [v, Operator(mode), w] {
      assert Tokens(Redir(x, w, mode)) == Flat(x, 0) + [Operator(mode), w];
    }
    assert Tokens(Pipe(x, y)) == Flat(x, 0) + ["|"] + Flat(y, 1);
    assert Tokens(List(x, y)) == Flat(x, 2) + [";"] + Flat(y, 3);
    assert Tokens(Back(Exec([v, w]))) == Flat(Exec([v, w]), 2) + ["&"];
  }

  lemma NotTogether(v: string, w: string)
    requires Clean(v) && Clean(w)
    ensures forall op :: op in ["<", ">", ">>", "|", ";", "&"] ==> !RunTogether(v, op) && !RunTogether(op, w)
  {
    CleanNotOperator(v);
    CleanNotOperator(w);
    forall op | op in ["<", ">", ">>", "|", ";", "&"] ensures !Clean(op) {
      assert op[0] in "<|>&;()";
    }
  }

  lemma WhiteSpace(v: string, w: string)
    requires Clean(v) && Clean(w)
    ensures Means("\t" + v + "\r" + w + "\n&\U{000B}", Back(Exec([v, w])))
  {
    hide Command, Text, Clean;
    TwoWords(v, w);
    var t := Back(Exec([v, w]));
    var gaps, ts := ["\t", "\r", "\n", "\U{000B}"], [v, w, "&"];
    assert Flat(t, 3) == ts && Erased(t) == t;
    assert ts[..2] == [v, w] && [v, w][..1] == [v] && [v][..0] == [];
    assert Render([], gaps) == "\t" && Render([v], gaps) == "\t" + v + "\r";
    assert Render([v, w], gaps) == "\t" + v + "\r" + w + "\n";
    assert Render(ts, gaps) == "\t" + v + "\r" + w + "\n" + "&" + "\U{000B}" == "\t" + v + "\r" + w + "\n&\U{000B}";
    assert Spaced(ts, gaps);
    ReadsBack(t, gaps);
  }

  /** Parsing the printed form of a command gives the command back, but for `>>`. */
  lemma RoundTrip(t: Cmd<string>)
    requires Printable(t)
    ensures Command(Print(t)).Ok? && Text(Print(t), Command(Print(t)).cmd) == Erased(t)
  {
    hide Command, Text, Erased, Flat, Render, Blanks, Spaced;
    BlanksSpaced(Flat(t, 3));
    ReadsBack(t, Blanks(|Flat(t, 3)|));
  }

  /** What the parser accepts has only clean words and fewer than MAXARGS arguments, so that
      the printable commands are exactly those that it can produce. */
  lemma {:induction false} ParsedPrintable(s: string, c: Cmd<Span>)
    requires Spans(s, c) && forall k :: 0 <= k < |s| ==> s[k] != '\0'
    ensures Printable(Text(s, c))
  {
    match c
    case Exec(argv) =>
      forall k | 0 <= k < |argv| ensures Clean(Sub(s, argv[k])) {
        assert IsWord(s, argv[k].q, argv[k].eq);
      }
    case Redir(d, _, _) => ParsedPrintable(s, d);
    case Pipe(l, r) => ParsedPrintable(s, l); ParsedPrintable(s, r);
    case List(l, r) => ParsedPrintable(s, l); ParsedPrintable(s, r);
    case Back(d) => ParsedPrintable(s, d);
  }

  lemma {:induction false} ParsedPlain(s: string, c: Cmd<Span>)
    requires Spans(s, c)
    ensures Erased(Text(s, c)) == Text(s, c)
  {
    match c
    case Exec(argv) =>
    case Redir(d, _, _) => ParsedPlain(s, d);
    case Pipe(l, r) => ParsedPlain(s, l); ParsedPlain(s, r);
    case List(l, r) => ParsedPlain(s, l); ParsedPlain(s, r);
    case Back(d) => ParsedPlain(s, d);
  }

  lemma {:induction false} ErasedTwice(t: Cmd<string>)
    ensures Erased(Erased(t)) == Erased(t) && (Printable(t) ==> Printable(Erased(t)))
  {
    match t
    case Exec(_) =>
    case Redir(c, _, _) => ErasedTwice(c);
    case Pipe(l, r) => ErasedTwice(l); ErasedTwice(r);
    case List(l, r) => ErasedTwice(l); ErasedTwice(r);
    case Back(c) => ErasedTwice(c);
  }

  /** A line with `>>` in place of any of its `>` parses to the same command. */
  lemma AppendIsWrite(t: Cmd<string>)
    requires Printable(t)
    ensures Command(Print(t)).Ok? && Command(Print(Erased(t))).Ok?
    ensures Text(Print(t), Command(Print(t)).cmd) == Text(Print(Erased(t)), Command(Print(Erased(t))).cmd)
  {
    hide Command, Text, Print, Printable, Erased;
    ErasedTwice(t);
    RoundTrip(t);
    RoundTrip(Erased(t));
  }

  /** Printing what was parsed and parsing that again gives the same command. */
  lemma Reprint(s: string)
    requires Command(s).Ok? && forall k :: 0 <= k < |s| ==> s[k] != '\0'
    ensures var t := Text(s, Command(s).cmd);
            Command(Print(t)).Ok? && Text(Print(t), Command(Print(t)).cmd) == t
  {
    hide Command, Text, Print, Spans, Erased;
    var r := Command(s);
    ParsedPrintable(s, r.cmd);
    ParsedPlain(s, r.cmd);
    RoundTrip(Text(s, r.cmd));
  }

  lemma ExecFails(s: string, e: Error)
    requires Execs(s, 0) == Fail(e)
    ensures Command(s) == Fail(e)
  {
    hide Execs, LineRest;
    assert Pipes(s, 0) == Fail(e);
    assert Line(s, 0) == Fail(e);
  }

  ghost predicate IsRedirection(ts: seq<string>, k: int) {
    0 <= k && k + 1 < |ts| && (ts[k] == "<" || ts[k] == ">" || ts[k] == ">>") && Clean(ts[k + 1])
  }

  /** The number of arguments of the simple command at token `k`, redirections left out. */
  ghost function ArgCount(ts: seq<string>, k: nat): nat
    decreases |ts| - k
  {
    if k >= |ts| then 0
    else if IsRedirection(ts, k) then ArgCount(ts, k + 2)
    else if Clean(ts[k]) then 1 + ArgCount(ts, k + 1)
    else 0
  }

  lemma {:induction false} TooManyFrom(ts: seq<string>, gaps: seq<string>, k: nat, c: Cmd<Span>, argc: int)
    requires Good(ts, gaps) && k <= |ts| && Spans(Render(ts, gaps), c) && Simple(c, argc)
    requires argc < MAXARGS <= argc + ArgCount(ts, k)
    ensures 0 <= Pos(ts, gaps, k) <= |Render(ts, gaps)| && ExecRest(Render(ts, gaps), Pos(ts, gaps, k), c, argc) == Fail(TooManyArgs)
    decreases |ts| - k
  {
    hide Render, Pos, ExecRest, Spans, Good, Clean, AddArg;
    if IsRedirection(ts, k) {
      var mode := if ts[k] == "<" then In else if ts[k] == ">" then Out else Append;
      RedirRest(ts, gaps, k, c, mode, argc);
      TooManyFrom(ts, gaps, k + 2, Redir(c, SpanOf(ts, gaps, k + 1), Plain(mode)), argc);
    } else {
      if argc + 1 >= MAXARGS {
        ArgRefused(ts, gaps, k, c, argc);
      } else {
        ArgStep(ts, gaps, k, c, argc);
        TooManyFrom(ts, gaps, k + 1, AddArg(c, SpanOf(ts, gaps, k)), argc + 1);
      }
    }
  }

  lemma RedirRest(ts: seq<string>, gaps: seq<string>, k: int, c: Cmd<Span>, mode: Mode, argc: int)
    requires Good(ts, gaps) && 0 <= k && k + 1 < |ts| && ts[k] == Operator(mode) && Clean(ts[k + 1])
    requires Spans(Render(ts, gaps), c) && Simple(c, argc)
    ensures var s, d := Render(ts, gaps), Redir(c, SpanOf(ts, gaps, k + 1), Plain(mode));
            && 0 <= Pos(ts, gaps, k) <= |s| && 0 <= Pos(ts, gaps, k + 2) <= |s| && Spans(s, d) && Simple(d, argc)
            && ExecRest(s, Pos(ts, gaps, k), c, argc) == ExecRest(s, Pos(ts, gaps, k + 2), d, argc)
  {
    hide Render, Pos, Redirs, Args, ExecRest;
    TailStep(ts, gaps, k, c, mode, false, argc);
  }

  /** A simple command, anywhere in a line, with MAXARGS arguments or more is refused, whatever
      redirections are among them and whatever follows. */
  lemma TooManyAt(ts: seq<string>, gaps: seq<string>, k: nat)
    requires Good(ts, gaps) && k <= |ts| && MAXARGS <= ArgCount(ts, k)
    ensures 0 <= Pos(ts, gaps, k) <= |Render(ts, gaps)| && Execs(Render(ts, gaps), Pos(ts, gaps, k)) == Fail(TooManyArgs)
  {
    hide ExecRest, Render, Pos, Execs, Good, Clean;
    NoArgs(Render(ts, gaps));
    TooManyFrom(ts, gaps, k, Exec([]), 0);
    if k < |ts| && Clean(ts[k]) {
      CleanNotOperator(ts[k]);
    }
    NotBlock(ts, gaps, k);
  }

  /** At the start of a line, the line is. */
  lemma TooMany(ts: seq<string>, gaps: seq<string>)
    requires Good(ts, gaps) && MAXARGS <= ArgCount(ts, 0)
    ensures Command(Render(ts, gaps)) == Fail(TooManyArgs)
  {
    hide Render, Execs, Command, Good, ArgCount;
    TooManyAt(ts, gaps, 0);
    FrontSkipped(ts, gaps);
    LineFrom(Render(ts, gaps), Pos(ts, gaps, 0));
    ExecFails(Render(ts, gaps), TooManyArgs);
  }
}
