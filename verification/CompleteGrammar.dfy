/**
  The language of the automaton in sqlcipher/src/complete.c, given by the form of statements and not by
  states.
 */
module CompleteGrammar {
  import opened SqlText
  import opened Complete
  import opened CompleteText

  predicate Plain(t: seq<Token>) {
    WS !in t && SEMI !in t
  }

  /** EXPLAIN, and then other words such as QUERY PLAN. */
  predicate ExplainHead(t: seq<Token>) {
    t != [] && t[0] == EXPLAIN && forall i :: 1 <= i < |t| ==> t[i] == OTHER
  }

  /** CREATE, perhaps after an EXPLAIN and before TEMP or TEMPORARY: the last CREATE is at k. */
  predicate CreateAt(t: seq<Token>, k: nat) {
    k < |t| && t[k] == CREATE && (k == 0 || ExplainHead(t[..k])) && forall i :: k < i < |t| ==> t[i] == TEMP
  }

  ghost predicate CreateHead(t: seq<Token>) {
    exists k: nat :: CreateAt(t, k)
  }

  /** The words that begin a trigger definition. */
  ghost predicate TriggerHead(t: seq<Token>) {
    t != [] && t[|t| - 1] == TRIGGER && CreateHead(t[..|t| - 1])
  }

  /** The first h tokens begin a trigger definition. */
  ghost predicate HeadEndsAt(t: seq<Token>, h: nat) {
    h <= |t| && TriggerHead(t[..h])
  }

  ghost predicate HasHead(t: seq<Token>) {
    exists h: nat :: HeadEndsAt(t, h)
  }

  /** A trigger definition ends with the first SEMI END SEMI after its head. */
  ghost predicate TriggerBody(t: seq<Token>, h: nat) {
    && HeadEndsAt(t, h) && h < |t|
    && EndsTrigger(t[h..]) && NoEndUpTo(t[h..], |t| - h - 1)
  }

  /**
    One statement with the semicolon that ends it: a trigger definition, or anything else up to its
    first semicolon.
   */
  ghost predicate Statement(t: seq<Token>) {
    && t != [] && WS !in t
    && ((exists h: nat :: TriggerBody(t, h)) || (!HasHead(t) && t[|t| - 1] == SEMI && SEMI !in t[..|t| - 1]))
  }

  ghost predicate Statements(t: seq<Token>) {
    t == [] || exists k: nat :: FirstStatement(t, k) && Statements(t[k..])
  }

  ghost predicate FirstStatement(t: seq<Token>, k: nat) {
    0 < k <= |t| && Statement(t[..k])
  }

  // ---------------------------------------------------------------------------------------------
  // Inside a statement

  lemma ExplainStep(u: seq<Token>, x: Token)
    ensures ExplainHead(u + [x]) <==> (u == [] && x == EXPLAIN) || (ExplainHead(u) && x == OTHER)
  {
    var t := u + [x];
    assert t[|u|] == x;
    if ExplainHead(t) && u != [] { assert forall i :: 0 <= i < |u| ==> u[i] == t[i]; }
  }

  lemma CreateStep(u: seq<Token>, x: Token)
    ensures CreateHead(u + [x]) <==> ((u == [] || ExplainHead(u)) && x == CREATE) || (CreateHead(u) && x == TEMP)
  {
    var t := u + [x];
    assert t[|u|] == x && t[..|u|] == u;
    assert forall i :: 0 <= i < |u| ==> u[i] == t[i];
    if CreateHead(t) {
      var k: nat :| CreateAt(t, k);
      if k < |u| {
        assert t[..k] == u[..k];
        assert CreateAt(u, k);
      }
    }
    if (u == [] || ExplainHead(u)) && x == CREATE { assert CreateAt(t, |u|); }
    if CreateHead(u) && x == TEMP {
      var k: nat :| CreateAt(u, k);
      assert t[..k] == u[..k];
      assert CreateAt(t, k);
    }
  }

  lemma HeadStep(u: seq<Token>, x: Token)
    ensures HasHead(u + [x]) <==> HasHead(u) || (CreateHead(u) && x == TRIGGER)
  {
    var t := u + [x];
    assert t[..|u|] == u && t[..|t|] == t;
    if HasHead(t) {
      var h: nat :| HeadEndsAt(t, h);
      if h <= |u| {
        assert t[..h] == u[..h];
        assert HeadEndsAt(u, h);
      }
    }
    if HasHead(u) {
      var h: nat :| HeadEndsAt(u, h);
      assert t[..h] == u[..h];
      assert HeadEndsAt(t, h);
    }
    if CreateHead(u) && x == TRIGGER { assert HeadEndsAt(t, |t|); }
  }

  /** The state after the first tokens of a statement says what they are. */
  lemma {:induction false} StateMeaning(t: seq<Token>)
    requires Plain(t)
    ensures var s := Feed(START, t);
            && (s == START <==> t == []) && (s == InEXPLAIN <==> ExplainHead(t)) && (s == InCREATE <==> CreateHead(t))
            && (s == InTRIGGER <==> HasHead(t)) && s != INVALID && s != AfterSEMI && s != AfterEND
    decreases |t|
  {
    if t == [] {
      assert !CreateHead(t) && !HasHead(t);
    } else {
      var u, x := t[..|t| - 1], t[|t| - 1];
      assert t == u + [x];
      StateMeaning(u);
      FeedOne(START, t, |t|);
      assert t[..|t|] == t;
      ExplainStep(u, x);
      CreateStep(u, x);
      HeadStep(u, x);
    }
  }

  // ---------------------------------------------------------------------------------------------
  // Whole statements

  /** After the tokens t, and never before, the automaton is back in START. */
  ghost predicate Returns(t: seq<Token>) {
    t != [] && Feed(START, t) == START && forall k :: 0 < k < |t| ==> Feed(START, t[..k]) != START
  }

  lemma HeadIsPlain(t: seq<Token>)
    requires TriggerHead(t)
    ensures Plain(t)
  {
    var u := t[..|t| - 1];
    var k: nat :| CreateAt(u, k);
    forall i | 0 <= i < |t| ensures t[i] != WS && t[i] != SEMI {
      if i < |u| { assert u[i] == t[i]; }
      if i < k { assert u[..k][i] == u[i]; }
    }
  }

  /** From the head of a trigger definition on. */
  lemma AfterHead(t: seq<Token>, h: nat, k: nat)
    requires HeadEndsAt(t, h) && h <= k <= |t|
    ensures Feed(START, t[..k]) == Feed(InTRIGGER, t[h..][..k - h])
  {
    HeadIsPlain(t[..h]);
    assert t[..h][..h] == t[..h];
    assert HeadEndsAt(t[..h], h);
    StateMeaning(t[..h]);
    assert t[..k] == t[..h] + t[h..][..k - h];
    FeedConcat(START, t[..h], t[h..][..k - h]);
  }

  /** A trigger definition is left exactly at its end. */
  lemma TriggerReturns(t: seq<Token>, h: nat)
    requires WS !in t && HeadEndsAt(t, h)
    ensures Returns(t) <==> TriggerBody(t, h)
  {
    var b, n := t[h..], |t| - h;
    forall k | 0 < k <= h ensures Feed(START, t[..k]) != START {
      HeadIsPlain(t[..h]);
      forall i | 0 <= i < k ensures t[i] == t[..h][i] {}
      StateMeaning(t[..k]);
    }
    forall k | h <= k <= |t| ensures Feed(START, t[..k]) == Feed(InTRIGGER, b[..k - h]) { AfterHead(t, h, k); }
    assert t[..|t|] == t && t[..h] != [];
    if n > 0 {
      TriggerEndsAtFirstEnd(b, n - 1);
      TriggerEndsAtFirstEnd(b, n);
      assert b[..n] == b;
      if forall k :: 0 < k < |t| ==> Feed(START, t[..k]) != START {
        forall k | 0 <= k <= n - 1 ensures Feed(InTRIGGER, b[..k]) != START {
          assert Feed(START, t[..k + h]) == Feed(InTRIGGER, b[..k + h - h]);
        }
      }
      if NoEndUpTo(b, n - 1) {
        forall k | h <= k < |t| ensures Feed(START, t[..k]) != START {
          assert Feed(InTRIGGER, b[..k - h]) != START;
        }
      }
    }
  }

  /** Any other statement is left at its first semicolon. */
  lemma PlainReturns(t: seq<Token>)
    requires WS !in t && t != [] && !HasHead(t)
    ensures Returns(t) <==> t[|t| - 1] == SEMI && SEMI !in t[..|t| - 1]
  {
    var n := |t| - 1;
    if SEMI !in t[..n] {
      hide Feed;
      forall k | 0 < k <= n ensures Feed(START, t[..k]) != START {
        NoHeadBefore(t, k);
        assert forall i :: 0 <= i < k ==> t[..k][i] == t[..n][i];
        StateMeaning(t[..k]);
      }
      LastToken(t);
    } else {
      var k := FirstSemi(t[..n]);
      assert t[..n][..k] == t[..k] && t[..n][k] == t[k];
      ReturnsEarlier(t, k);
    }
  }

  /** Outside of a trigger definition the state before the last token is left for START exactly by a semicolon. */
  lemma LastToken(t: seq<Token>)
    requires WS !in t && t != [] && !HasHead(t) && SEMI !in t[..|t| - 1]
    ensures Feed(START, t) == START <==> t[|t| - 1] == SEMI
  {
    hide Feed, HasHead, CreateHead, ExplainHead;
    NoHeadBefore(t, |t| - 1);
    StateMeaning(t[..|t| - 1]);
    FeedOne(START, t, |t|);
    assert t[..|t|] == t;
  }

  lemma ReturnsEarlier(t: seq<Token>, k: nat)
    requires WS !in t && !HasHead(t) && k + 1 < |t| && t[k] == SEMI && SEMI !in t[..k]
    ensures Feed(START, t[..k + 1]) == START
  {
    hide Feed;
    NoHeadBefore(t, k);
    StateMeaning(t[..k]);
    FeedOne(START, t, k + 1);
  }

  lemma NoHeadBefore(t: seq<Token>, k: nat)
    requires k <= |t| && !HasHead(t)
    ensures !HasHead(t[..k])
  {
    hide TriggerHead;
    forall h: nat | h <= k ensures HeadEndsAt(t[..k], h) == HeadEndsAt(t, h) { assert t[..k][..h] == t[..h]; }
  }

  lemma {:induction false} FirstSemi(t: seq<Token>) returns (k: nat)
    requires SEMI in t
    ensures k < |t| && t[k] == SEMI && SEMI !in t[..k]
  {
    var n := |t| - 1;
    if SEMI in t[..n] {
      k := FirstSemi(t[..n]);
      assert t[..n][..k] == t[..k];
    } else {
      k := n;
    }
  }

  /** The automaton returns to START exactly with the end of a statement. */
  lemma ReturnsAtStatement(t: seq<Token>)
    requires WS !in t && t != []
    ensures Returns(t) <==> Statement(t)
  {
    if HasHead(t) {
      forall h: nat | HeadEndsAt(t, h) ensures Returns(t) <==> TriggerBody(t, h) { TriggerReturns(t, h); }
    } else {
      PlainReturns(t);
    }
  }

  lemma {:induction false} FirstReturn(t: seq<Token>, n: nat) returns (k: nat)
    requires 0 < n <= |t| && Feed(START, t[..n]) == START
    ensures 0 < k <= n && Returns(t[..k])
  {
    if j :| 0 < j < n && Feed(START, t[..j]) == START {
      k := FirstReturn(t, j);
    } else {
      k := n;
      forall j | 0 < j < n ensures t[..n][..j] == t[..j] {}
    }
  }

  /** A token list leads the automaton from START to START exactly if it is a list of statements. */
  lemma {:induction false} StatementsAccepted(t: seq<Token>)
    requires WS !in t
    ensures Feed(START, t) == START <==> Statements(t)
    decreases |t|
  {
    if t != [] {
      assert t[..|t|] == t;
      if Feed(START, t) == START {
        var k := FirstReturn(t, |t|);
        ReturnsAtStatement(t[..k]);
        SplitAt(t, k);
        StatementsAccepted(t[k..]);
        assert FirstStatement(t, k);
      }
      if Statements(t) {
        var k: nat :| FirstStatement(t, k) && Statements(t[k..]);
        ReturnsAtStatement(t[..k]);
        SplitAt(t, k);
        StatementsAccepted(t[k..]);
      }
    }
  }

  lemma SplitAt(t: seq<Token>, k: nat)
    requires k <= |t| && Feed(START, t[..k]) == START
    ensures Feed(START, t) == Feed(START, t[k..])
  {
    assert t == t[..k] + t[k..];
    FeedConcat(START, t[..k], t[k..]);
  }

  /** The tokens but for white space are one or more whole statements. */
  ghost predicate WholeStatements(toks: seq<Token>) {
    WithoutSpace(toks) != [] && Statements(WithoutSpace(toks))
  }

  /** The text z can be cut into pieces that make one or more whole statements. */
  ghost predicate IsCutInto(z: string, pieces: seq<string>, toks: seq<Token>, open: bool) {
    IsCut(z, pieces, toks, open) && WholeStatements(toks)
  }

  /**
    sqlite3_complete accepts a string exactly if it can be cut into pieces, perhaps before an open line
    comment, whose tokens, but for white space, are one or more whole statements.
   */
  lemma AcceptsStatements(z: CString)
    ensures Accepts(z) <==> exists pieces, toks, open :: IsCutInto(z, pieces, toks, open)
  {
    hide Statements, Feed, WithoutSpace, IsCut;
    ScannedStatements(Scan(z, 0).toks);
    if Accepts(z) {
      var pieces := ScanIsCut(z);
      assert IsCutInto(z, pieces, Scan(z, 0).toks, Scan(z, 0).ending == InLineComment);
    }
    if pieces, toks, open :| IsCutInto(z, pieces, toks, open) { CutIsScanned(z, pieces, toks, open); }
  }

  lemma ScannedStatements(toks: seq<Token>)
    ensures Feed(INVALID, toks) == START <==> WholeStatements(toks)
  {
    var words := WithoutSpace(toks);
    SpaceIsIgnored(INVALID, toks);
    NoSpaceLeft(toks);
    StatementsAccepted(words);
    if words != [] { StartsAlike(words); }
  }

  lemma {:induction false} NoSpaceLeft(toks: seq<Token>)
    ensures WS !in WithoutSpace(toks)
  {
    if toks != [] { NoSpaceLeft(toks[1..]); }
  }

  lemma StartsAlike(toks: seq<Token>)
    requires toks != [] && toks[0] != WS
    ensures Feed(INVALID, toks) == Feed(START, toks)
  {
  }
}
