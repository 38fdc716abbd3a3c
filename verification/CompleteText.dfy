/**
  How an SQL text is read, given by the spelling of its pieces and not by the scanner of
  sqlcipher/src/complete.c: the text is cut into blanks, comments, quoted words, words, semicolons and other
  characters, and each piece counts as the token of its spelling.
 */
module CompleteText {
  import opened SqlText
  import opened Complete

  // ---------------------------------------------------------------------------------------------
  // Pieces

  predicate WordChar(c: char) {
    || c in "abcdefghijklmnopqrstuvwxyz" || c in "ABCDEFGHIJKLMNOPQRSTUVWXYZ" || c in "0123456789"
    || c == '_' || c == '$' || c > '\U{007f}'
  }

  predicate IsBlank(p: string) {
    p in [" ", "\r", "\t", "\n", "\U{000c}"]
  }

  /** A slash and a star, and anything up to the first star and slash after them. */
  predicate BlockComment(p: string) {
    && |p| >= 4 && p[..2] == "/*" && p[|p| - 2..] == "*/"
    && forall k :: 2 <= k < |p| - 2 ==> p[k] != '*' || p[k + 1] != '/'
  }

  /** Two dashes and anything up to the end of line. */
  predicate LineComment(p: string) {
    |p| >= 3 && p[..2] == "--" && p[|p| - 1] == '\n' && '\n' !in p[..|p| - 1]
  }

  predicate Between(p: string, open: char, close: char) {
    |p| >= 2 && p[0] == open && p[|p| - 1] == close && close !in p[1..|p| - 1]
  }

  predicate Quoted(p: string) {
    Between(p, '[', ']') || Between(p, '`', '`') || Between(p, '"', '"') || Between(p, '\'', '\'')
  }

  predicate IsWord(p: string) {
    p != "" && forall k :: 0 <= k < |p| ==> WordChar(p[k])
  }

  /** p is the word, in small or in capital letters. */
  predicate Spells(p: string, small: string, capital: string)
    requires |small| == |capital|
  {
    |p| == |small| && forall k :: 0 <= k < |p| ==> p[k] == small[k] || p[k] == capital[k]
  }

  predicate IsKeyword(p: string, t: Token) {
    match t
    case CREATE => Spells(p, "create", "CREATE")
    case TRIGGER => Spells(p, "trigger", "TRIGGER")
    case TEMP => Spells(p, "temp", "TEMP") || Spells(p, "temporary", "TEMPORARY")
    case END => Spells(p, "end", "END")
    case EXPLAIN => Spells(p, "explain", "EXPLAIN")
    case _ => false
  }

  /** Any other single character. */
  predicate IsSign(p: string) {
    |p| == 1 && p[0] !in " \r\t\n\U{000c};[`\"'" && !WordChar(p[0])
  }

  predicate IsPiece(p: string, t: Token) {
    match t
    case SEMI => p == ";"
    case WS => IsBlank(p) || BlockComment(p) || LineComment(p)
    case OTHER => Quoted(p) || IsSign(p) || (IsWord(p) && forall k: Token :: !IsKeyword(p, k))
    case _ => IsKeyword(p, t)
  }

  /** p ends here: words are as long as possible, and no comment begins with a sign. */
  predicate EndsBefore(p: string, rest: string) {
    rest == "" || !((IsWord(p) && WordChar(rest[0])) || p + rest[..1] == "/*" || p + rest[..1] == "--")
  }

  /** A line comment without its end of line. */
  predicate OpenComment(z: string) {
    |z| >= 2 && z[..2] == "--" && '\n' !in z
  }

  /** The text z is made of the pieces, which read as the tokens, and perhaps an open line comment. */
  predicate IsCut(z: string, pieces: seq<string>, toks: seq<Token>, open: bool)
    decreases |pieces|
  {
    if pieces == [] then toks == [] && if open then OpenComment(z) else z == ""
    else
      && toks != [] && pieces[0] <= z && IsPiece(pieces[0], toks[0]) && EndsBefore(pieces[0], z[|pieces[0]|..])
      && IsCut(z[|pieces[0]|..], pieces[1..], toks[1..], open)
  }

  // ---------------------------------------------------------------------------------------------
  // The scanning loops

  lemma {:induction false} FindStops(z: string, i: nat, c: char, m: nat)
    requires i <= m <= |z|
    ensures Find(z, i, c) == m <==> c !in z[i..m] && (m < |z| ==> z[m] == c)
    decreases |z| - i
  {
    if i < |z| && i < m {
      FindStops(z, i + 1, c, m);
      assert z[i..m] == [z[i]] + z[i + 1..m];
    }
  }

  lemma {:induction false} FindCommentEndStops(z: string, i: nat, m: nat)
    requires i <= m < |z|
    ensures FindCommentEnd(z, i) == m <==>
      (forall k :: i <= k < m ==> z[k] != '*' || z[k + 1] != '/') && z[m] == '*' && ByteAt(z, m + 1) == '/'
    decreases |z| - i
  {
    if i < m { FindCommentEndStops(z, i + 1, m); }
  }

  lemma {:induction false} FindIdEndStops(z: string, i: nat, m: nat)
    requires i <= m <= |z|
    ensures FindIdEnd(z, i) == m <==> (forall k :: i <= k < m ==> IdChar(z[k])) && (m < |z| ==> !IdChar(z[m]))
    decreases |z| - i
  {
    if i < m { FindIdEndStops(z, i + 1, m); }
  }

  lemma SmallLetters(c: char)
    ensures c in "abcdefghijklmnopqrstuvwxyz" <==> 'a' <= c <= 'z'
  {
    var s := "abcdefghijklmnopqrstuvwxyz";
    if 'a' <= c <= 'z' { assert s[(c - 'a') as int] == c; }
  }

  lemma CapitalLetters(c: char)
    ensures c in "ABCDEFGHIJKLMNOPQRSTUVWXYZ" <==> 'A' <= c <= 'Z'
  {
    var s := "ABCDEFGHIJKLMNOPQRSTUVWXYZ";
    if 'A' <= c <= 'Z' { assert s[(c - 'A') as int] == c; }
  }

  lemma Digits(c: char)
    ensures c in "0123456789" <==> '0' <= c <= '9'
  {
    var s := "0123456789";
    if '0' <= c <= '9' { assert s[(c - '0') as int] == c; }
  }

  /** The bits of the character table that make an identifier character. */
  lemma IdCharMeaning(c: char)
    ensures IdChar(c) <==> WordChar(c)
  {
    SmallLetters(c);
    CapitalLetters(c);
    Digits(c);
  }

  lemma SpellsMeaning(p: string, small: string, capital: string)
    requires |small| == |capital|
    requires forall k :: 0 <= k < |small| ==> 'a' <= small[k] <= 'z' && capital[k] == small[k] - ' '
    ensures SameWord(p, small) <==> Spells(p, small, capital)
  {
    if |p| == |small| {
      forall k | 0 <= k < |p| ensures Lower(p[k]) == small[k] <==> p[k] == small[k] || p[k] == capital[k] {}
    }
  }

  lemma IdChars()
    ensures forall c: char :: IdChar(c) <==> WordChar(c)
  {
    forall c: char ensures IdChar(c) <==> WordChar(c) { IdCharMeaning(c); }
  }

  // ---------------------------------------------------------------------------------------------
  // One piece

  lemma KeywordMeaning(p: string, t: Token)
    ensures IsKeyword(p, t) <==> Keyword(p) == t && t != OTHER
  {
    SpellsMeaning(p, "create", "CREATE");
    SpellsMeaning(p, "trigger", "TRIGGER");
    SpellsMeaning(p, "temp", "TEMP");
    SpellsMeaning(p, "temporary", "TEMPORARY");
    SpellsMeaning(p, "end", "END");
    SpellsMeaning(p, "explain", "EXPLAIN");
    Different(p);
    SpelledLength(p, "create", "CREATE");
    SpelledLength(p, "trigger", "TRIGGER");
    SpelledLength(p, "temp", "TEMP");
    SpelledLength(p, "temporary", "TEMPORARY");
    SpelledLength(p, "end", "END");
    SpelledLength(p, "explain", "EXPLAIN");
    hide SameWord, Spells;
  }

  lemma SpelledLength(p: string, small: string, capital: string)
    requires |small| == |capital|
    ensures Spells(p, small, capital) ==> |p| == |small|
  {
  }

  /** No word is two keywords. */
  lemma Different(p: string)
    ensures !(Spells(p, "trigger", "TRIGGER") && Spells(p, "explain", "EXPLAIN"))
  {
    if Spells(p, "trigger", "TRIGGER") { assert p[0] == 't' || p[0] == 'T'; }
  }

  /** A keyword is a word. */
  lemma KeywordIsWord(p: string, t: Token)
    requires IsKeyword(p, t)
    ensures IsWord(p)
  {
    forall k | 0 <= k < |p| ensures WordChar(p[k]) {
      SmallLetters(p[k]);
      CapitalLetters(p[k]);
    }
  }

  lemma CommentIsLexed(z: string, p: string)
    requires p <= z && BlockComment(p)
    ensures Lex(z, 0) == Tok(WS, |p|)
  {
    assert z[0] == p[0] == p[..2][0] == '/' && z[1] == p[1] == p[..2][1] == '*';
    assert p[|p| - 2..] == "*/";
    FindCommentEndStops(z, 2, |p| - 2);
  }

  lemma LexedIsComment(z: string)
    requires z != "" && z[0] == '/' && Lex(z, 0).Tok? && Lex(z, 0).t == WS
    ensures BlockComment(z[..Lex(z, 0).next])
  {
    var k := FindCommentEnd(z, 2);
    var p := z[..k + 2];
    FindCommentEndStops(z, 2, k);
    assert p[..2] == "/*" && p[|p| - 2..] == "*/";
  }

  lemma LineIsLexed(z: string, p: string)
    requires p <= z && LineComment(p)
    ensures Lex(z, 0) == Tok(WS, |p|)
  {
    assert z[0] == p[0] == p[..2][0] == '-' && z[1] == p[1] == p[..2][1] == '-';
    assert z[0..|p| - 1] == p[..|p| - 1];
    FindStops(z, 0, '\n', |p| - 1);
  }

  lemma LexedIsLine(z: string)
    requires z != "" && z[0] == '-' && ByteAt(z, 1) == '-'
    ensures Lex(z, 0) == OpenLineComment <==> OpenComment(z)
    ensures Lex(z, 0) != OpenLineComment ==> Lex(z, 0).Tok? && Lex(z, 0).t == WS && LineComment(z[..Lex(z, 0).next])
  {
    var k := Find(z, 0, '\n');
    FindStops(z, 0, '\n', k);
    FindStops(z, 0, '\n', |z|);
    assert z[0..|z|] == z && z[..2] == "--";
    if k < |z| {
      var p := z[..k + 1];
      assert k >= 2 && p[..2] == "--" && p[..|p| - 1] == z[0..k];
    }
  }

  lemma QuotedIsLexed(z: string, p: string, open: char, close: char)
    requires p <= z && Between(p, open, close)
    ensures z != "" && LexQuoted(z, 0, close) == Tok(OTHER, |p|)
  {
    assert z[1..|p| - 1] == p[1..|p| - 1];
    FindStops(z, 1, close, |p| - 1);
  }

  lemma LexedIsQuoted(z: string, close: char)
    requires z != "" && LexQuoted(z, 0, close).Tok?
    ensures LexQuoted(z, 0, close).t == OTHER && Between(z[..LexQuoted(z, 0, close).next], z[0], close)
  {
    var k := Find(z, 1, close);
    FindStops(z, 1, close, k);
    assert z[..k + 1][1..k] == z[1..k];
  }

  lemma WordIsLexed(z: string, p: string)
    requires p <= z && IsWord(p) && EndsBefore(p, z[|p|..])
    ensures Lex(z, 0) == Tok(Keyword(p), |p|)
  {
    NotWordChars();
    IdChars();
    hide WordChar, IdChar, Keyword, FindIdEnd;
    FindIdEndStops(z, 1, |p|);
    assert z[0..|p|] == p && WordChar(p[0]);
    assert |p| < |z| ==> z[|p|..][0] == z[|p|];
  }

  lemma LexedIsWord(z: string)
    requires z != "" && WordChar(z[0])
    ensures Lex(z, 0) == LexWord(z, 0)
    ensures var p := z[..Lex(z, 0).next];
            IsWord(p) && EndsBefore(p, z[|p|..]) && Lex(z, 0).t == Keyword(p)
  {
    NotWordChars();
    IdChars();
    hide WordChar, IdChar, Keyword, FindIdEnd;
    var k := FindIdEnd(z, 1);
    FindIdEndStops(z, 1, k);
    assert z[0..k] == z[..k];
    if k < |z| { assert (z[..k] + z[k..][..1])[0] == z[0]; }
  }

  lemma SignIsLexed(z: string, p: string)
    requires p <= z && IsSign(p) && EndsBefore(p, z[1..])
    ensures Lex(z, 0) == Tok(OTHER, 1)
  {
    IdChars();
    assert p[0] == z[0] && p == [z[0]];
    if |z| > 1 {
      assert z[1..][..1] == [z[1]];
      assert p + [z[1]] == [z[0], z[1]];
    }
  }

  lemma SimpleIsLexed(z: string, p: string, t: Token)
    requires p <= z && ((t == SEMI && p == ";") || (t == WS && IsBlank(p)))
    ensures z != "" && Lex(z, 0) == Tok(t, |p|)
  {
    assert z[0] == p[0];
  }

  lemma QuotedWhole(z: string, p: string)
    requires p <= z && Quoted(p)
    ensures z != "" && Lex(z, 0) == Tok(OTHER, |p|)
  {
    hide LexQuoted, Find;
    assert z[0] == p[0];
    if p[0] == '[' { QuotedIsLexed(z, p, '[', ']'); } else { QuotedIsLexed(z, p, p[0], p[0]); }
  }

  /** A piece is read as its token. */
  lemma PieceIsLexed(z: string, p: string, t: Token)
    requires p <= z && IsPiece(p, t) && EndsBefore(p, z[|p|..])
    ensures z != "" && Lex(z, 0) == Tok(t, |p|)
  {
    hide Lex, WordChar, Keyword, BlockComment, LineComment;
    KeywordMeaning(p, t);
    if t == SEMI || (t == WS && IsBlank(p)) {
      SimpleIsLexed(z, p, t);
    } else if t == WS {
      if BlockComment(p) { CommentIsLexed(z, p); } else { LineIsLexed(z, p); }
    } else if t == OTHER && Quoted(p) {
      QuotedWhole(z, p);
    } else if t == OTHER && IsSign(p) {
      SignIsLexed(z, p);
    } else {
      if t != OTHER { KeywordIsWord(p, t); }
      KeywordMeaning(p, Keyword(p));
      WordIsLexed(z, p);
    }
  }

  /** Only a word or a sign can be cut short. */
  lemma OthersEnd(p: string, rest: string)
    requires p != "" && !WordChar(p[0]) && (|p| > 1 || (p[0] != '/' && p[0] != '-'))
    ensures EndsBefore(p, rest)
  {
    if rest != "" {
      var q := p + rest[..1];
      assert q[0] == p[0] && |q| == |p| + 1;
      assert !IsWord(p);
    }
  }

  lemma NotWordChars()
    ensures forall c :: c in " \r\t\n\U{000c};[`\"'/-" ==> !WordChar(c)
  {
    IdChars();
  }

  lemma KindsOfPieces(p: string)
    ensures Quoted(p) ==> IsPiece(p, OTHER)
    ensures BlockComment(p) || LineComment(p) ==> IsPiece(p, WS)
  {
  }

  lemma LexedIsQuotedPiece(z: string)
    requires z != "" && z[0] in "[`\"'" && Lex(z, 0).Tok?
    ensures var p := z[..Lex(z, 0).next]; IsPiece(p, Lex(z, 0).t) && EndsBefore(p, z[|p|..])
  {
    hide WordChar, Keyword, Find, EndsBefore, IsPiece;
    NotWordChars();
    var p := z[..Lex(z, 0).next];
    LexedIsQuoted(z, if z[0] == '[' then ']' else z[0]);
    KindsOfPieces(p);
    OthersEnd(p, z[|p|..]);
  }

  lemma LexedIsCommentPiece(z: string)
    requires z != "" && Lex(z, 0).Tok?
    requires (z[0] == '/' && Lex(z, 0).t == WS) || (z[0] == '-' && ByteAt(z, 1) == '-')
    ensures var p := z[..Lex(z, 0).next]; IsPiece(p, Lex(z, 0).t) && EndsBefore(p, z[|p|..])
  {
    var l := Lex(z, 0);
    var p := z[..l.next];
    hide Lex, WordChar, EndsBefore, IsPiece;
    if z[0] == '/' { LexedIsComment(z); } else { LexedIsLine(z); }
    hide BlockComment, LineComment;
    CommentStarts(p);
    KindsOfPieces(p);
    NotWordChars();
    OthersEnd(p, z[|p|..]);
  }

  /** What is read as a token is a piece. */
  lemma LexedIsPiece(z: string)
    requires z != "" && Lex(z, 0).Tok?
    ensures var p := z[..Lex(z, 0).next]; IsPiece(p, Lex(z, 0).t) && EndsBefore(p, z[|p|..])
  {
    hide Lex, WordChar, Keyword, EndsBefore, IsPiece;
    if WordChar(z[0]) {
      LexedIsWord(z);
      WordIsPiece(z[..Lex(z, 0).next]);
    } else if z[0] in "[`\"'" {
      LexedIsQuotedPiece(z);
    } else if (z[0] == '/' && Lex(z, 0).t == WS) || (z[0] == '-' && ByteAt(z, 1) == '-') {
      LexedIsCommentPiece(z);
    } else {
      SignIsPiece(z);
    }
  }

  lemma CommentStarts(p: string)
    requires BlockComment(p) || LineComment(p)
    ensures |p| >= 3 && (p[0] == '/' || p[0] == '-')
  {
    assert p[0] == p[..2][0];
  }

  lemma WordIsPiece(p: string)
    requires IsWord(p)
    ensures IsPiece(p, Keyword(p))
  {
    assert Keyword(p) != SEMI && Keyword(p) != WS;
    hide Keyword, WordChar, IsKeyword;
    KeywordMeaning(p, Keyword(p));
    forall t: Token ensures IsKeyword(p, t) ==> t == Keyword(p) { KeywordMeaning(p, t); }
  }

  /** A single character that is read as a token. */
  lemma SignIsPiece(z: string)
    requires z != "" && !WordChar(z[0]) && z[0] !in "[`\"'" && Lex(z, 0).Tok?
    requires (z[0] == '/' ==> Lex(z, 0).t != WS) && !(z[0] == '-' && ByteAt(z, 1) == '-')
    ensures Lex(z, 0).next == 1 && IsPiece(z[..1], Lex(z, 0).t) && EndsBefore(z[..1], z[1..])
  {
    hide WordChar, Keyword, BlockComment, LineComment, Find, FindCommentEnd, FindIdEnd;
    IdCharMeaning(z[0]);
    assert z[..1] == [z[0]] && !IsWord(z[..1]);
    if |z| > 1 {
      assert z[1..][..1] == [z[1]];
      assert z[..1] + [z[1]] == [z[0], z[1]];
    }
  }

  // ---------------------------------------------------------------------------------------------
  // The whole text

  lemma ScanRest(z: string, k: nat)
    requires k <= |z|
    ensures Scan(z, k) == Scan(z[k..], 0)
  {
    assert "" + z == z;
    ScanTail("", z, k);
  }

  /** A text that is read to its end can be cut into the tokens it is read as. */
  lemma {:induction false} ScanIsCut(z: string) returns (pieces: seq<string>)
    requires Scan(z, 0).ending != Broken
    ensures IsCut(z, pieces, Scan(z, 0).toks, Scan(z, 0).ending == InLineComment)
    decreases |z|
  {
    hide Lex, IsPiece, EndsBefore;
    pieces := [];
    if z != "" {
      var l := Lex(z, 0);
      if l.Tok? {
        LexedIsPiece(z);
        ScanCons(z, 0);
        ScanRest(z, l.next);
        var rest := ScanIsCut(z[l.next..]);
        pieces := [z[..l.next]] + rest;
        assert pieces[1..] == rest && Scan(z, 0).toks[1..] == Scan(z, l.next).toks;
      } else {
        OpenIsLexed(z);
      }
    }
  }

  lemma OpenIsLexed(z: string)
    ensures OpenComment(z) <==> z != "" && Lex(z, 0) == OpenLineComment
  {
    hide Find, FindCommentEnd, FindIdEnd, Keyword;
    if z != "" && z[0] == '-' && ByteAt(z, 1) == '-' { LexedIsLine(z); }
    if OpenComment(z) { assert z[0] == z[..2][0] && z[1] == z[..2][1]; }
  }

  /** However a text is cut, it is read as these tokens. */
  lemma {:induction false} CutIsScanned(z: string, pieces: seq<string>, toks: seq<Token>, open: bool)
    requires IsCut(z, pieces, toks, open)
    ensures Scan(z, 0) == Scanned(toks, if open then InLineComment else AtEnd)
    decreases |pieces|
  {
    hide Lex, IsPiece, EndsBefore, OpenComment;
    if pieces == [] {
      OpenIsLexed(z);
    } else {
      var n := |pieces[0]|;
      PieceIsLexed(z, pieces[0], toks[0]);
      CutIsScanned(z[n..], pieces[1..], toks[1..], open);
      ScanCons(z, 0);
      ScanRest(z, n);
      assert toks == [toks[0]] + toks[1..];
    }
  }
}
