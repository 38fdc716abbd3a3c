/**
  sqlcipher/src/complete.c: does an SQL string end in a semicolon that closes its last statement?

  Reading a C string at or past its end gives NUL.  sqlite3_complete is the loop; Scan and Feed say
  which tokens it sees and how its automaton moves over them.
 */
module Complete {
  import opened SqlText

  datatype Token = SEMI | WS | OTHER | EXPLAIN | CREATE | TEMP | TRIGGER | END

  datatype State = INVALID | START | NORMAL | InEXPLAIN | InCREATE | InTRIGGER | AfterSEMI | AfterEND

  /** The transition table trans[8][8], row by row. */
  function Trans(s: State, t: Token): State {
    if t == WS then s
    else
      match s
      case INVALID => if t == SEMI then START else if t == EXPLAIN then InEXPLAIN
        else if t == CREATE then InCREATE else NORMAL
      case START => if t == SEMI then START else if t == EXPLAIN then InEXPLAIN
        else if t == CREATE then InCREATE else NORMAL
      case NORMAL => if t == SEMI then START else NORMAL
      case InEXPLAIN => if t == SEMI then START else if t == OTHER then InEXPLAIN
        else if t == CREATE then InCREATE else NORMAL
      case InCREATE => if t == SEMI then START else if t == TEMP then InCREATE
        else if t == TRIGGER then InTRIGGER else NORMAL
      case InTRIGGER => if t == SEMI then AfterSEMI else InTRIGGER
      case AfterSEMI => if t == SEMI then AfterSEMI else if t == END then AfterEND else InTRIGGER
      case AfterEND => if t == SEMI then START else InTRIGGER
  }

  function Feed(s: State, toks: seq<Token>): State
    decreases toks
  {
    if toks == [] then s else Feed(Trans(s, toks[0]), toks[1..])
  }

  // ---------------------------------------------------------------------------------------------
  // The scanner

  function ByteAt(z: string, i: nat): char {
    if i < |z| then z[i] else '\0'
  }

  /** (sqlite3CtypeMap[c] & 0x46) != 0 */
  predicate IdChar(c: char) {
    'a' <= c <= 'z' || 'A' <= c <= 'Z' || '0' <= c <= '9' || c == '_' || c == '$' || c >= '\U{0080}'
  }

  function Keyword(w: string): Token {
    if SameWord(w, "create") then CREATE
    else if SameWord(w, "trigger") then TRIGGER
    else if SameWord(w, "temp") || SameWord(w, "temporary") then TEMP
    else if SameWord(w, "end") then END
    else if SameWord(w, "explain") then EXPLAIN
    else OTHER
  }

  /** The first position from i on that holds c, or the end of the string. */
  function Find(z: string, i: nat, c: char): (k: nat)
    requires i <= |z|
    ensures i <= k <= |z|
    decreases |z| - i
  {
    if i == |z| || z[i] == c then i else Find(z, i + 1, c)
  }

  function FindCommentEnd(z: string, i: nat): (k: nat)
    requires i <= |z|
    ensures i <= k <= |z| && (k < |z| ==> k + 1 < |z|)
    decreases |z| - i
  {
    if i == |z| || (z[i] == '*' && ByteAt(z, i + 1) == '/') then i else FindCommentEnd(z, i + 1)
  }

  function FindIdEnd(z: string, i: nat): (k: nat)
    requires i <= |z|
    ensures i <= k <= |z|
    decreases |z| - i
  {
    if i == |z| || !IdChar(z[i]) then i else FindIdEnd(z, i + 1)
  }

  /** A token and where the next one starts; or a line comment, or something else, that never ends. */
  datatype Lexed = Tok(t: Token, next: nat) | OpenLineComment | Unterminated

  function LexSlash(z: string, i: nat): (r: Lexed)
    requires i < |z| && z[i] == '/'
    ensures r.Tok? ==> i < r.next <= |z|
  {
    if ByteAt(z, i + 1) != '*' then Tok(OTHER, i + 1)
    else
      var k := FindCommentEnd(z, i + 2);
      if k == |z| then Unterminated else Tok(WS, k + 2)
  }

  function LexDash(z: string, i: nat): (r: Lexed)
    requires i < |z| && z[i] == '-'
    ensures r.Tok? ==> i < r.next <= |z|
  {
    if ByteAt(z, i + 1) != '-' then Tok(OTHER, i + 1)
    else
      var k := Find(z, i, '\n');
      if k == |z| then OpenLineComment else Tok(WS, k + 1)
  }

  function LexQuoted(z: string, i: nat, close: char): (r: Lexed)
    requires i < |z|
    ensures r.Tok? ==> i < r.next <= |z|
  {
    var k := Find(z, i + 1, close);
    if k == |z| then Unterminated else Tok(OTHER, k + 1)
  }

  function LexWord(z: string, i: nat): (r: Lexed)
    requires i < |z|
    ensures r.Tok? && i < r.next <= |z| && r.t != SEMI && r.t != WS
  {
    var k := FindIdEnd(z, i + 1);
    Tok(Keyword(z[i..k]), k)
  }

  function Lex(z: string, i: nat): (r: Lexed)
    requires i < |z|
    ensures r.Tok? ==> i < r.next <= |z|
  {
    var c := z[i];
    if c == ';' then Tok(SEMI, i + 1)
    else if c == ' ' || c == '\r' || c == '\t' || c == '\n' || c == '\U{000c}' then Tok(WS, i + 1)
    else if c == '/' then LexSlash(z, i)
    else if c == '-' then LexDash(z, i)
    else if c == '[' then LexQuoted(z, i, ']')
    else if c == '`' || c == '"' || c == '\'' then LexQuoted(z, i, c)
    else if IdChar(c) then LexWord(z, i)
    else Tok(OTHER, i + 1)
  }

  datatype Ending = AtEnd | InLineComment | Broken
  datatype Scanned = Scanned(toks: seq<Token>, ending: Ending)

  function Scan(z: string, i: nat): Scanned
    requires i <= |z|
    decreases |z| - i
  {
    if i == |z| then Scanned([], AtEnd)
    else
      match Lex(z, i)
      case OpenLineComment => Scanned([], InLineComment)
      case Unterminated => Scanned([], Broken)
      case Tok(t, next) => var rest := Scan(z, next); Scanned([t] + rest.toks, rest.ending)
  }

  predicate Accepts(z: string) {
    Scan(z, 0).ending != Broken && Feed(INVALID, Scan(z, 0).toks) == START
  }

  /** The switch in the loop of sqlite3_complete: the token at i, with the inner scanning loops. */
  method NextToken(zSql: string, i: nat) returns (r: Lexed)
    requires i < |zSql|
    ensures r == Lex(zSql, i)
  {
    var c, k := zSql[i], i;
    if c == ';' {
      return Tok(SEMI, i + 1);
    } else if c == ' ' || c == '\r' || c == '\t' || c == '\n' || c == '\U{000c}' {
      return Tok(WS, i + 1);
    } else if c == '/' && ByteAt(zSql, i + 1) == '*' {
      k := i + 2;
      while k < |zSql| && (zSql[k] != '*' || ByteAt(zSql, k + 1) != '/')
        invariant i + 2 <= k <= |zSql| && FindCommentEnd(zSql, k) == FindCommentEnd(zSql, i + 2)
      {
        k := k + 1;
      }
      if k == |zSql| { return Unterminated; }
      return Tok(WS, k + 2);
    } else if c == '-' && ByteAt(zSql, i + 1) == '-' {
      while k < |zSql| && zSql[k] != '\n'
        invariant i <= k <= |zSql| && Find(zSql, k, '\n') == Find(zSql, i, '\n')
      {
        k := k + 1;
      }
      if k == |zSql| { return OpenLineComment; }
      return Tok(WS, k + 1);
    } else if c == '[' || c == '`' || c == '"' || c == '\'' {
      r := QuotedToken(zSql, i, if c == '[' then ']' else c);
    } else if IdChar(c) {
      k := i + 1;
      while k < |zSql| && IdChar(zSql[k])
        invariant i < k <= |zSql| && FindIdEnd(zSql, k) == FindIdEnd(zSql, i + 1)
      {
        k := k + 1;
      }
      return Tok(Keyword(zSql[i..k]), k);
    } else {
      return Tok(OTHER, i + 1);
    }
  }

  method QuotedToken(zSql: string, i: nat, close: char) returns (r: Lexed)
    requires i < |zSql|
    ensures r == LexQuoted(zSql, i, close)
  {
    var k := i + 1;
    while k < |zSql| && zSql[k] != close
      invariant i < k <= |zSql| && Find(zSql, k, close) == Find(zSql, i + 1, close)
    {
      k := k + 1;
    }
    r := if k == |zSql| then Unterminated else Tok(OTHER, k + 1);
  }

  /** sqlite3_complete */
  method SqlComplete(zSql: CString) returns (r: bool)
    ensures r == Accepts(zSql)
  {
    var state, i := INVALID, 0;
    while i < |zSql|
      invariant 0 <= i <= |zSql|
      invariant Accepts(zSql) <==> Scan(zSql, i).ending != Broken && Feed(state, Scan(zSql, i).toks) == START
      decreases |zSql| - i
    {
      var lexed := NextToken(zSql, i);
      match lexed {
        case Unterminated => return false;
        case OpenLineComment => return state == START;
        case Tok(token, next) =>
          assert Scan(zSql, i).toks[1..] == Scan(zSql, next).toks;
          state, i := Trans(state, token), next;
      }
    }
    r := state == START;
  }

  // ---------------------------------------------------------------------------------------------
  // Concatenation

  lemma FeedCons(s: State, t: Token, u: seq<Token>)
    ensures Feed(s, [t] + u) == Feed(Trans(s, t), u)
  {
    assert ([t] + u)[1..] == u;
  }

  lemma ScanCons(z: string, i: nat)
    requires i < |z| && Lex(z, i).Tok?
    ensures var l := Lex(z, i); Scan(z, i) == Scanned([l.t] + Scan(z, l.next).toks, Scan(z, l.next).ending)
  {}

  lemma {:induction false} FeedConcat(s: State, t: seq<Token>, u: seq<Token>)
    ensures Feed(s, t + u) == Feed(Feed(s, t), u)
    decreases t
  {
    if t == [] {
      assert t + u == u;
    } else {
      assert (t + u)[1..] == t[1..] + u;
      FeedConcat(Trans(s, t[0]), t[1..], u);
    }
  }

  lemma {:induction false} FindConcat(a: string, b: string, i: nat, c: char)
    requires i <= |a| && Find(a, i, c) < |a|
    ensures Find(a + b, i, c) == Find(a, i, c)
    decreases |a| - i
  {
    if a[i] != c { FindConcat(a, b, i + 1, c); }
  }

  lemma {:induction false} FindCommentEndConcat(a: string, b: string, i: nat)
    requires i <= |a| && FindCommentEnd(a, i) < |a|
    ensures FindCommentEnd(a + b, i) == FindCommentEnd(a, i)
    decreases |a| - i
  {
    if a[i] == '*' && ByteAt(a, i + 1) == '/' {
    } else {
      FindCommentEndConcat(a, b, i + 1);
    }
  }

  lemma {:induction false} FindIdEndConcat(a: string, b: string, i: nat)
    requires i <= |a| && FindIdEnd(a, i) < |a|
    ensures FindIdEnd(a + b, i) == FindIdEnd(a, i)
    decreases |a| - i
  {
    if IdChar(a[i]) { FindIdEndConcat(a, b, i + 1); }
  }

  /** This token does not depend on what follows the string. */
  predicate Settled(l: Lexed, a: string) {
    l.Tok? && (l.next < |a| || l.t == SEMI || l.t == WS)
  }

  lemma LexSlashConcat(a: string, b: string, i: nat)
    requires i < |a| && a[i] == '/' && Settled(LexSlash(a, i), a)
    ensures LexSlash(a + b, i) == LexSlash(a, i)
  {
    if ByteAt(a, i + 1) == '*' { FindCommentEndConcat(a, b, i + 2); }
  }

  lemma LexDashConcat(a: string, b: string, i: nat)
    requires i < |a| && a[i] == '-' && Settled(LexDash(a, i), a)
    ensures LexDash(a + b, i) == LexDash(a, i)
  {
    if ByteAt(a, i + 1) == '-' { FindConcat(a, b, i, '\n'); }
  }

  lemma LexWordConcat(a: string, b: string, i: nat)
    requires i < |a| && Settled(LexWord(a, i), a)
    ensures LexWord(a + b, i) == LexWord(a, i)
  {
    FindIdEndConcat(a, b, i + 1);
    assert (a + b)[i..FindIdEnd(a, i + 1)] == a[i..FindIdEnd(a, i + 1)];
  }

  /** A token that ends before the string does, or that is a semicolon or white space, stays as it is. */
  lemma LexConcat(a: string, b: string, i: nat)
    requires i < |a| && Settled(Lex(a, i), a)
    ensures Lex(a + b, i) == Lex(a, i)
  {
    var c := a[i];
    if c == '/' {
      LexSlashConcat(a, b, i);
    } else if c == '-' {
      LexDashConcat(a, b, i);
    } else if c == '[' {
      FindConcat(a, b, i + 1, ']');
    } else if c == '`' || c == '"' || c == '\'' {
      FindConcat(a, b, i + 1, c);
    } else if IdChar(c) && c != ' ' && c != ';' {
      LexWordConcat(a, b, i);
    }
  }

  /** The tokens of a string and of its tail are the same, moved along. */
  lemma {:induction false} FindShift(a: string, b: string, i: nat, c: char)
    requires i <= |b|
    ensures Find(a + b, |a| + i, c) == |a| + Find(b, i, c)
    decreases |b| - i
  {
    if i < |b| && b[i] != c { FindShift(a, b, i + 1, c); }
  }

  lemma {:induction false} FindCommentEndShift(a: string, b: string, i: nat)
    requires i <= |b|
    ensures FindCommentEnd(a + b, |a| + i) == |a| + FindCommentEnd(b, i)
    decreases |b| - i
  {
    if i < |b| && !(b[i] == '*' && ByteAt(b, i + 1) == '/') { FindCommentEndShift(a, b, i + 1); }
  }

  lemma {:induction false} FindIdEndShift(a: string, b: string, i: nat)
    requires i <= |b|
    ensures FindIdEnd(a + b, |a| + i) == |a| + FindIdEnd(b, i)
    decreases |b| - i
  {
    if i < |b| && IdChar(b[i]) { FindIdEndShift(a, b, i + 1); }
  }

  function Shift(l: Lexed, n: nat): Lexed {
    if l.Tok? then Tok(l.t, l.next + n) else l
  }

  lemma LexWordShift(a: string, b: string, i: nat)
    requires i < |b|
    ensures LexWord(a + b, |a| + i) == Shift(LexWord(b, i), |a|)
  {
    hide Keyword, FindIdEnd;
    FindIdEndShift(a, b, i + 1);
    assert (a + b)[|a| + i..|a| + FindIdEnd(b, i + 1)] == b[i..FindIdEnd(b, i + 1)];
  }

  lemma LexShift(a: string, b: string, i: nat)
    requires i < |b|
    ensures Lex(a + b, |a| + i) == Shift(Lex(b, i), |a|)
  {
    hide LexWord, Find, FindCommentEnd;
    var c := b[i];
    if c == '/' {
      if ByteAt(b, i + 1) == '*' { FindCommentEndShift(a, b, i + 2); }
    } else if c == '-' {
      if ByteAt(b, i + 1) == '-' { FindShift(a, b, i, '\n'); }
    } else if c == '[' {
      FindShift(a, b, i + 1, ']');
    } else if c == '`' || c == '"' || c == '\'' {
      FindShift(a, b, i + 1, c);
    } else if IdChar(c) {
      LexWordShift(a, b, i);
    }
  }

  lemma {:induction false} ScanShift(a: string, b: string, i: nat)
    requires i <= |b|
    ensures Scan(a + b, |a| + i) == Scan(b, i)
    decreases |b| - i
  {
    if i < |b| {
      LexShift(a, b, i);
      if Lex(b, i).Tok? { ScanShift(a, b, Lex(b, i).next); }
    }
  }

  /** START is reached only by a semicolon, and kept only by semicolons and white space. */
  lemma OnlySemiOrSpace(s: State, t: Token)
    requires Trans(s, t) == START
    ensures t == SEMI || t == WS
  {}

  /** If a leaves the automaton in START outside any comment, the tokens of a + b are those of a, then those of b. */
  lemma {:induction false} ScanConcat(a: string, b: string, i: nat, s: State)
    requires i <= |a| && Scan(a, i).ending == AtEnd && Feed(s, Scan(a, i).toks) == START
    ensures Scan(a + b, i) == Scanned(Scan(a, i).toks + Scan(b, 0).toks, Scan(b, 0).ending)
    decreases |a| - i
  {
    if i == |a| {
      ScanShift(a, b, 0);
      assert [] + Scan(b, 0).toks == Scan(b, 0).toks;
    } else {
      ScanConcatStep(a, b, i, s);
      var next := Lex(a, i).next;
      ScanConcat(a, b, next, Trans(s, Lex(a, i).t));
      Assoc([Lex(a, i).t], Scan(a, next).toks, Scan(b, 0).toks);
    }
  }

  lemma Assoc(t: seq<Token>, u: seq<Token>, v: seq<Token>)
    ensures t + (u + v) == t + u + v
  {}

  lemma ScanConcatStep(a: string, b: string, i: nat, s: State)
    requires i < |a| && Scan(a, i).ending == AtEnd && Feed(s, Scan(a, i).toks) == START
    ensures Lex(a, i).Tok?
    ensures var l := Lex(a, i);
            && Scan(a, i).toks == [l.t] + Scan(a, l.next).toks
            && Scan(a, l.next).ending == AtEnd && Feed(Trans(s, l.t), Scan(a, l.next).toks) == START
            && Scan(a + b, i) == Scanned([l.t] + Scan(a + b, l.next).toks, Scan(a + b, l.next).ending)
  {
    var l := Lex(a, i);
    ScanCons(a, i);
    FeedCons(s, l.t, Scan(a, l.next).toks);
    if l.next == |a| { OnlySemiOrSpace(s, l.t); }
    LexConcat(a, b, i);
    ScanCons(a + b, i);
  }

  /** Nothing but white space and comments, the last of which may be an open line comment. */
  predicate Blank(z: string) {
    Scan(z, 0).ending != Broken && forall k :: 0 <= k < |Scan(z, 0).toks| ==> Scan(z, 0).toks[k] == WS
  }

  /** INVALID and START differ only on white space. */
  lemma {:induction false} StartLikeInvalid(toks: seq<Token>)
    ensures Feed(START, toks) == START <==>
      (Feed(INVALID, toks) == START || forall k :: 0 <= k < |toks| ==> toks[k] == WS)
  {
    if toks != [] {
      if toks[0] == WS {
        StartLikeInvalid(toks[1..]);
        assert (forall k :: 0 <= k < |toks| ==> toks[k] == WS) <==>
          (forall k :: 0 <= k < |toks[1..]| ==> toks[1..][k] == WS) by {
          assert forall k :: 1 <= k < |toks| ==> toks[k] == toks[1..][k - 1];
        }
      }
    }
  }

  /**
    After a complete statement list a that does not end in an open line comment, a + b is complete
    exactly when b is complete or blank.
   */
  lemma AcceptsConcat(a: CString, b: CString)
    requires Accepts(a) && Scan(a, 0).ending != InLineComment
    ensures Accepts(a + b) <==> Accepts(b) || Blank(b)
  {
    ScanConcat(a, b, 0, INVALID);
    FeedConcat(INVALID, Scan(a, 0).toks, Scan(b, 0).toks);
    StartLikeInvalid(Scan(b, 0).toks);
  }

  lemma {:induction false} FindThrough(a: string, b: string, i: nat, c: char)
    requires i <= |a| && Find(a, i, c) == |a|
    ensures Find(a + b, i, c) == |a| + Find(b, 0, c)
    decreases |a| - i
  {
    if i < |a| { FindThrough(a, b, i + 1, c); } else { FindShift(a, b, 0, c); }
  }

  /** What is left of b when a line comment that a leaves open has ended. */
  function AfterComment(b: string): (rest: string) {
    var k := Find(b, 0, '\n');
    if k == |b| then "" else b[k + 1..]
  }

  /** The tokens of a + b when a ends inside a line comment. */
  function ThroughComment(a: Scanned, b: string): Scanned {
    if Find(b, 0, '\n') == |b| then Scanned(a.toks, InLineComment)
    else Scanned(a.toks + ([WS] + Scan(AfterComment(b), 0).toks), Scan(AfterComment(b), 0).ending)
  }

  /** An open line comment swallows b up to its first end of line. */
  lemma {:induction false} ScanOpenComment(a: string, b: string, i: nat)
    requires i <= |a| && Scan(a, i).ending == InLineComment
    ensures Scan(a + b, i) == ThroughComment(Scan(a, i), b)
    decreases |a| - i
  {
    if Lex(a, i) == OpenLineComment {
      CommentGoesOn(a, b, i);
    } else {
      var l := Lex(a, i);
      LexConcat(a, b, i);
      ScanOpenComment(a, b, l.next);
      ScanCons(a, i);
      ScanCons(a + b, i);
      Assoc([l.t], Scan(a, l.next).toks, [WS] + Scan(AfterComment(b), 0).toks);
    }
  }

  lemma CommentGoesOn(a: string, b: string, i: nat)
    requires i < |a| && Lex(a, i) == OpenLineComment
    ensures Scan(a + b, i) == ThroughComment(Scan(a, i), b)
  {
    hide Lex, Scan;
    var k := Find(b, 0, '\n');
    CommentThrough(a, b, i);
    ScanOpen(a, i);
    if k < |b| {
      ScanCons(a + b, i);
      ScanTail(a, b, k + 1);
    } else {
      ScanOpen(a + b, i);
    }
  }

  lemma ScanOpen(z: string, i: nat)
    requires i < |z| && Lex(z, i) == OpenLineComment
    ensures Scan(z, i) == Scanned([], InLineComment)
  {
  }

  /** The token at an open line comment, once b follows. */
  lemma CommentThrough(a: string, b: string, i: nat)
    requires i < |a| && Lex(a, i) == OpenLineComment
    ensures Lex(a + b, i) ==
      if Find(b, 0, '\n') == |b| then OpenLineComment else Tok(WS, |a| + Find(b, 0, '\n') + 1)
  {
    FindThrough(a, b, i, '\n');
  }

  lemma ScanTail(a: string, b: string, k: nat)
    requires k <= |b|
    ensures Scan(a + b, |a| + k) == Scan(b[k..], 0)
  {
    hide Scan;
    assert a + b == (a + b[..k]) + b[k..];
    ScanShift(a + b[..k], b[k..], 0);
  }

  /** After a complete statement list a that ends in an open line comment: what follows the comment decides. */
  lemma AcceptsConcatOpen(a: CString, b: CString)
    requires Accepts(a) && Scan(a, 0).ending == InLineComment
    ensures Accepts(a + b) <==> Find(b, 0, '\n') == |b| || Accepts(AfterComment(b)) || Blank(AfterComment(b))
  {
    ScanOpenComment(a, b, 0);
    var toks := Scan(AfterComment(b), 0).toks;
    FeedConcat(INVALID, Scan(a, 0).toks, [WS] + toks);
    FeedCons(START, WS, toks);
    StartLikeInvalid(toks);
  }

  /**
    A complete string stays complete with any complete string after it exactly if it does not end in an
    open line comment: there, the quote that opens the second string may be swallowed, and the one that
    closes it opens another.
   */
  lemma CompleteConcatExactly(a: CString)
    requires Accepts(a)
    ensures (forall b: CString :: Accepts(b) ==> Accepts(a + b)) <==> Scan(a, 0).ending != InLineComment
  {
    if Scan(a, 0).ending == InLineComment {
      QuoteOverLines();
      AcceptsConcatOpen(a, "'\n';");
      assert !Accepts(a + "'\n';");
    } else {
      forall b: CString | Accepts(b) ensures Accepts(a + b) { AcceptsConcat(a, b); }
    }
  }

  /** The shortest such pair. */
  lemma OpenCommentSwallows()
    ensures Accepts(";--") && Accepts("'\n';") && !Accepts(";--" + "'\n';")
    ensures Scan(";--", 0).ending == InLineComment
  {
    OpenAfterSemi();
    QuoteOverLines();
    hide Scan, Feed, AfterComment, Blank;
    AcceptsConcatOpen(";--", "'\n';");
  }

  lemma OpenAfterSemi()
    ensures Accepts(";--") && Scan(";--", 0).ending == InLineComment
  {
    assert Lex(";--", 1) == OpenLineComment by { assert Find(";--", 2, '\n') == 3; }
    ScanOpen(";--", 1);
    ScanCons(";--", 0);
    assert Feed(INVALID, [SEMI]) == START;
  }

  /** A quoted word that contains an end of line. */
  lemma QuoteOverLines()
    ensures Accepts("'\n';") && Find("'\n';", 0, '\n') == 1
    ensures !Accepts(AfterComment("'\n';")) && !Blank(AfterComment("'\n';"))
  {
    assert Lex("'\n';", 0) == Tok(OTHER, 3) by { assert Find("'\n';", 2, '\'') == 2; }
    assert Scan("'\n';", 3) == Scanned([SEMI], AtEnd);
    assert Scan("'\n';", 0).toks == [OTHER, SEMI];
    assert Feed(INVALID, [OTHER, SEMI]) == START by { assert [OTHER, SEMI][1..] == [SEMI]; }
    assert Find("'\n';", 1, '\n') == 1;
    assert AfterComment("'\n';") == "';";
    assert Lex("';", 0) == Unterminated by { assert Find("';", 2, '\'') == 2; assert Find("';", 1, '\'') == 2; }
  }

  // ---------------------------------------------------------------------------------------------
  // The end of a trigger definition

  function WithoutSpace(toks: seq<Token>): seq<Token> {
    if toks == [] then []
    else (if toks[0] == WS then [] else [toks[0]]) + WithoutSpace(toks[1..])
  }

  lemma {:induction false} SpaceIsIgnored(s: State, toks: seq<Token>)
    ensures Feed(s, toks) == Feed(s, WithoutSpace(toks))
    decreases toks
  {
    if toks != [] {
      SpaceIsIgnored(Trans(s, toks[0]), toks[1..]);
      var rest := WithoutSpace(toks[1..]);
      assert WithoutSpace(toks) == if toks[0] == WS then rest else [toks[0]] + rest;
      FeedCons(s, toks[0], rest);
    }
  }

  predicate EndsTrigger(toks: seq<Token>) {
    |toks| >= 3 && toks[|toks| - 3..] == [SEMI, END, SEMI]
  }

  /** SEMI END SEMI ends at no position up to n. */
  predicate NoEndUpTo(toks: seq<Token>, n: nat)
    requires n <= |toks|
  {
    forall k :: 0 <= k <= n ==> !EndsTrigger(toks[..k])
  }

  function Memory(toks: seq<Token>, n: nat): State
    requires n <= |toks|
  {
    if n >= 1 && toks[n - 1] == SEMI then AfterSEMI
    else if n >= 2 && toks[n - 2] == SEMI && toks[n - 1] == END then AfterEND
    else InTRIGGER
  }

  lemma FeedOne(s: State, toks: seq<Token>, n: nat)
    requires 0 < n <= |toks|
    ensures Feed(s, toks[..n]) == Trans(Feed(s, toks[..n - 1]), toks[n - 1])
  {
    assert toks[..n] == toks[..n - 1] + [toks[n - 1]];
    FeedConcat(s, toks[..n - 1], [toks[n - 1]]);
    assert [toks[n - 1]][1..] == [];
  }

  lemma EndsAt(toks: seq<Token>, n: nat)
    requires n <= |toks|
    ensures EndsTrigger(toks[..n]) <==> n >= 3 && toks[n - 3] == SEMI && toks[n - 2] == END && toks[n - 1] == SEMI
  {
    if n >= 3 { assert toks[..n][n - 3..] == [toks[n - 3], toks[n - 2], toks[n - 1]]; }
  }

  /** Inside a trigger the automaton remembers how much of SEMI END SEMI it has just seen. */
  lemma {:induction false} TriggerProgress(toks: seq<Token>, n: nat)
    requires n <= |toks| && WS !in toks && NoEndUpTo(toks, n)
    ensures Feed(InTRIGGER, toks[..n]) == Memory(toks, n)
  {
    if n > 0 {
      TriggerProgress(toks, n - 1);
      FeedOne(InTRIGGER, toks, n);
      EndsAt(toks, n);
    }
  }

  /**
    From inside a trigger definition the automaton first comes back to START at the first SEMI END SEMI
    among the tokens that are not white space, and nowhere before.
   */
  lemma TriggerEndsAtFirstEnd(toks: seq<Token>, n: nat)
    requires n <= |toks| && WS !in toks
    ensures (forall k :: 0 <= k <= n ==> Feed(InTRIGGER, toks[..k]) != START) <==> NoEndUpTo(toks, n)
    ensures n > 0 && NoEndUpTo(toks, n - 1) ==>
      (Feed(InTRIGGER, toks[..n]) == START <==> EndsTrigger(toks[..n]))
  {
    FirstEnd(toks, n);
    if NoEndUpTo(toks, n) {
      forall k | 0 <= k <= n ensures Feed(InTRIGGER, toks[..k]) != START {
        TriggerProgress(toks, k);
      }
    } else {
      var k := FirstEndPosition(toks, n);
      FirstEnd(toks, k);
    }
  }

  lemma FirstEnd(toks: seq<Token>, n: nat)
    requires n <= |toks| && WS !in toks
    ensures n > 0 && NoEndUpTo(toks, n - 1) ==>
      (Feed(InTRIGGER, toks[..n]) == START <==> EndsTrigger(toks[..n]))
  {
    hide Feed, EndsTrigger;
    if n > 0 && NoEndUpTo(toks, n - 1) {
      TriggerProgress(toks, n - 1);
      FeedOne(InTRIGGER, toks, n);
      EndsAt(toks, n);
    }
  }

  lemma {:induction false} FirstEndPosition(toks: seq<Token>, n: nat) returns (k: nat)
    requires n <= |toks| && !NoEndUpTo(toks, n)
    ensures 0 < k <= n && NoEndUpTo(toks, k - 1) && EndsTrigger(toks[..k])
  {
    if n > 0 && !NoEndUpTo(toks, n - 1) {
      k := FirstEndPosition(toks, n - 1);
    } else {
      k := n;
    }
  }
}
