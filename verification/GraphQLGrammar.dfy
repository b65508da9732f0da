/** The grammar that the selection parser accepts (internal/importer/graphqlimport/graphqlimport.go:333-444), stated on
    the tokens of a text without the parser. */
module GraphQLGrammar {
  import opened Common
  import opened GraphQLImport

  /** The tokens of a text up to its end or an ellipsis. */
  function Tokens(cs: Classes, s: string): seq<Token>
    decreases |s|
  {
    var (t, rest) := Next(cs, s);
    if t == End then [] else [t] + Tokens(cs, rest)
  }

  /** The current token and those after it. */
  function Ahead(cs: Classes, p: State): seq<Token> {
    if p.cur == End then [] else [p.cur] + Tokens(cs, p.rest)
  }

  lemma AheadAt(cs: Classes, s: string)
    ensures Ahead(cs, At(cs, s)) == Tokens(cs, s)
  {
    hide Next;
  }

  lemma AheadAfter(cs: Classes, p: State)
    requires p.cur != End
    ensures Ahead(cs, p) == [p.cur] + Ahead(cs, After(cs, p))
    ensures Ahead(cs, p) != [] && Ahead(cs, p)[0] == p.cur && Ahead(cs, p)[1..] == Ahead(cs, After(cs, p))
  {
    hide Next;
    AheadAt(cs, p.rest);
  }

  // ----- the tokens of a text -----

  /** Blanks, commas and characters that mean nothing are skipped. */
  lemma SkippedCharacter(cs: Classes, c: char, y: string)
    requires Disjoint(cs) && (cs.isSpace(c) || c == ',' || (!NameStart(cs, c) && !IsPunctuation(c)))
    ensures Tokens(cs, [c] + y) == Tokens(cs, y)
  {
    assert ([c] + y)[1..] == y && Punctuation(c) == End;
  }

  lemma {:induction false} CommentIsLine(line: string, y: string)
    requires '\n' !in line && (y == "" || y[0] == '\n')
    ensures CommentLength(line + y) == |line|
  {
    if line == "" {
      assert line + y == y;
    } else {
      assert (line + y)[1..] == line[1..] + y;
      CommentIsLine(line[1..], y);
    }
  }

  /** So is a comment up to the end of its line. */
  lemma SkippedComment(cs: Classes, line: string, y: string)
    requires Disjoint(cs) && '\n' !in line && (y == "" || y[0] == '\n')
    ensures Tokens(cs, "#" + line + y) == Tokens(cs, y)
  {
    var s := "#" + line + y;
    CommentIsLine("#" + line, y);
    assert s[|line| + 1..] == y && IsPunctuation('#');
  }

  /** A name is one token, as long as it goes on. */
  lemma NameIsToken(cs: Classes, name: string, y: string)
    requires Disjoint(cs) && IsName(cs, name) && (y == "" || !NamePart(cs, y[0]))
    ensures Tokens(cs, name + y) == [NameToken(name)] + Tokens(cs, y)
  {
    assert NamePart(cs, name[0]) && (name + y)[1..] == name[1..] + y;
    NameLengthStops(cs, name[1..], y);
    assert (name + y)[..|name|] == name && (name + y)[|name|..] == y;
  }

  lemma PunctuationIsToken(cs: Classes, y: string)
    requires Disjoint(cs)
    ensures Tokens(cs, "{" + y) == [LBrace] + Tokens(cs, y) && Tokens(cs, "}" + y) == [RBrace] + Tokens(cs, y)
    ensures Tokens(cs, "(" + y) == [LParen] + Tokens(cs, y) && Tokens(cs, ")" + y) == [RParen] + Tokens(cs, y)
    ensures Tokens(cs, ":" + y) == [Colon] + Tokens(cs, y)
  {
    hide Next, Disjoint;
    LexPunctuation(cs, '{', y);
    LexPunctuation(cs, '}', y);
    LexPunctuation(cs, '(', y);
    LexPunctuation(cs, ')', y);
    LexPunctuation(cs, ':', y);
    assert "{" + y == ['{'] + y && "}" + y == ['}'] + y && "(" + y == ['('] + y && ")" + y == [')'] + y
        && ":" + y == [':'] + y;
  }

  /** An ellipsis ends the text. */
  lemma EllipsisEnds(cs: Classes, y: string)
    requires Disjoint(cs)
    ensures Tokens(cs, "..." + y) == [] && Tokens(cs, "") == []
  {
    assert IsPunctuation('.') && "..." <= "..." + y;
  }

  // ----- the grammar -----

  /** Opening less closing parentheses. */
  function Depth(ts: seq<Token>): int {
    if ts == [] then 0
    else
      var last := ts[|ts| - 1];
      Depth(ts[..|ts| - 1]) + if last == LParen then 1 else if last == RParen then -1 else 0
  }

  /** After `k` tokens, and not before, every parenthesis is closed, `depth` of them open already. */
  ghost predicate Closes(ts: seq<Token>, depth: nat, k: nat) {
    0 < k <= |ts| && depth + Depth(ts[..k]) == 0 && forall j | 0 < j < k :: depth + Depth(ts[..j]) > 0
  }

  /** Arguments, if there are any: from an opening parenthesis to the one that closes it. */
  ghost predicate ArgsFrom(ts: seq<Token>, us: seq<Token>) {
    ts == us || (ts != [] && ts[0] == LParen && exists k: nat :: Closes(ts, 0, k) && us == ts[k..])
  }

  /** [alias ":"] name */
  ghost predicate NamesFrom(ts: seq<Token>, alias: string, name: string, us: seq<Token>) {
    || (alias == "" && ts != [] && ts[0] == NameToken(name) && us == ts[1..])
    || (|ts| >= 3 && ts[0] == NameToken(alias) && ts[1] == Colon && ts[2] == NameToken(name) && us == ts[3..])
  }

  /** names [arguments] [selection set]; `us` is what follows. */
  ghost predicate SelectionFrom(ts: seq<Token>, s: Selection, us: seq<Token>)
    decreases s, 2
  {
    exists vs: seq<Token>, ws: seq<Token> ::
      NamesFrom(ts, s.alias, s.name, vs) && ArgsFrom(vs, ws)
      && ((s.selections == [] && us == ws) || SetFrom(ws, s.selections, us))
  }

  /** "{" selections "}" */
  ghost predicate SetFrom(ts: seq<Token>, sels: seq<Selection>, us: seq<Token>)
    decreases sels, 1
  {
    ts != [] && ts[0] == LBrace && ItemsFrom(ts[1..], sels, [RBrace] + us)
  }

  ghost predicate ItemsFrom(ts: seq<Token>, sels: seq<Selection>, us: seq<Token>)
    decreases sels, 0
  {
    if sels == [] then ts == us
    else exists vs: seq<Token> :: SelectionFrom(ts, sels[0], vs) && ItemsFrom(vs, sels[1..], us)
  }

  /** [kind [name] [arguments]] selection set; fragments are no operations. */
  ghost predicate OperationFrom(ts: seq<Token>, op: Operation, us: seq<Token>) {
    || (op.kind == "query" && op.name == "" && SetFrom(ts, op.selections, us))
    || (ts != [] && ts[0] == NameToken(op.kind) && op.kind != "fragment" &&
        exists vs: seq<Token>, ws: seq<Token> ::
          && ((op.name == "" && vs == ts[1..]) || (|ts| >= 2 && ts[1] == NameToken(op.name) && vs == ts[2..]))
          && ArgsFrom(vs, ws) && SetFrom(ws, op.selections, us))
  }

  ghost predicate IsDocument(ts: seq<Token>, ops: seq<Operation>)
    decreases |ops|
  {
    if ops == [] then ts == []
    else exists us: seq<Token> :: OperationFrom(ts, ops[0], us) && IsDocument(us, ops[1..])
  }

  // ----- parentheses -----

  lemma {:induction false} DepthCons(t: Token, ts: seq<Token>)
    ensures Depth([t] + ts) == Depth(ts) + if t == LParen then 1 else if t == RParen then -1 else 0
  {
    if ts == [] {
      assert [t] + ts == [t] && [t][..0] == [];
    } else {
      assert ([t] + ts)[..|ts|] == [t] + ts[..|ts| - 1];
      DepthCons(t, ts[..|ts| - 1]);
    }
  }

  /** The depth behind the first token. */
  function DepthBehind(t: Token, depth: int): int {
    depth + if t == LParen then 1 else if t == RParen then -1 else 0
  }

  lemma ClosesCons(t: Token, ts: seq<Token>, depth: nat, k: nat)
    requires DepthBehind(t, depth) >= 0 && k > 0
    ensures Closes([t] + ts, depth, k) <==>
            if DepthBehind(t, depth) == 0 then k == 1 else k > 1 && Closes(ts, DepthBehind(t, depth), k - 1)
  {
    var all := [t] + ts;
    forall j | 0 < j <= |all| ensures Depth(all[..j]) == DepthBehind(t, 0) + Depth(ts[..j - 1]) {
      assert all[..j] == [t] + ts[..j - 1];
      DepthCons(t, ts[..j - 1]);
    }
    assert ts[..0] == [] && Depth(ts[..0]) == 0;
    if DepthBehind(t, depth) > 0 && k > 1 && Closes(ts, DepthBehind(t, depth), k - 1) {
      forall j | 0 < j < k ensures depth + Depth(all[..j]) > 0 {
        assert j > 1 ==> DepthBehind(t, depth) + Depth(ts[..j - 1]) > 0;
      }
    }
    if Closes(all, depth, k) {
      assert 0 < 1 < k ==> depth + Depth(all[..1]) > 0;
      forall j | 0 < j < k - 1 ensures DepthBehind(t, depth) + Depth(ts[..j]) > 0 {
        assert depth + Depth(all[..j + 1]) > 0;
      }
    }
  }

  /** skipParens stops behind the parenthesis that closes, or at the end if none does. */
  lemma {:induction false} SkipIs(cs: Classes, p: State, depth: nat)
    requires depth > 0 || p.cur == LParen
    ensures forall k: nat | Closes(Ahead(cs, p), depth, k) ::
      k <= |Ahead(cs, p)| && Ahead(cs, SkipParens(cs, p, depth)) == Ahead(cs, p)[k..]
    ensures (forall k: nat :: !Closes(Ahead(cs, p), depth, k)) ==> Ahead(cs, SkipParens(cs, p, depth)) == []
    decreases Left(p)
  {
    hide Closes, Next;
    if p.cur == End {
      NothingCloses(depth);
    } else {
      AheadAfter(cs, p);
      var q, d := After(cs, p), DepthBehind(p.cur, depth);
      var ts := Ahead(cs, q);
      forall k: nat
        ensures Closes(Ahead(cs, p), depth, k) <==> k > 0 && if d == 0 then k == 1 else k > 1 && Closes(ts, d, k - 1)
      {
        if k > 0 {
          ClosesCons(p.cur, ts, depth, k);
        } else {
          ClosesLater(Ahead(cs, p), depth, k);
        }
      }
      if d > 0 {
        SkipIs(cs, q, d);
        forall k: nat | Closes(ts, d, k) ensures Closes(Ahead(cs, p), depth, k + 1) {
          ClosesLater(ts, d, k);
        }
        forall k: nat | Closes(Ahead(cs, p), depth, k)
          ensures k <= |Ahead(cs, p)| && Ahead(cs, SkipParens(cs, p, depth)) == Ahead(cs, p)[k..]
        {
          ClosesLater(ts, d, k - 1);
          assert Ahead(cs, p)[k..] == ts[k - 1..];
        }
      } else {
        assert Closes(Ahead(cs, p), depth, 1);
      }
    }
  }

  lemma ClosesLater(ts: seq<Token>, depth: nat, k: nat)
    ensures Closes(ts, depth, k) ==> 0 < k <= |ts|
  {
  }

  lemma NothingCloses(depth: nat)
    ensures forall k: nat :: !Closes([], depth, k)
  {
  }

  // ----- what is parsed is spelled -----

  lemma SkippedIsArgs(cs: Classes, p: State)
    requires p.cur == LParen
    ensures var q := SkipParens(cs, p, 0);
      Ahead(cs, q) == [] || ArgsFrom(Ahead(cs, p), Ahead(cs, q))
  {
    hide Next, SkipParens, Closes;
    SkipIs(cs, p, 0);
    AheadAfter(cs, p);
    if k: nat :| Closes(Ahead(cs, p), 0, k) {
      assert Ahead(cs, SkipParens(cs, p, 0)) == Ahead(cs, p)[k..];
    }
  }

  /** A selection is spelled, or the text ends within its arguments. */
  lemma {:induction false} SelectionIsSpelled(cs: Classes, p: State)
    requires ParseSelection(cs, p).Some?
    ensures var (s, q) := ParseSelection(cs, p).value;
      Ahead(cs, q) == [] || SelectionFrom(Ahead(cs, p), s, Ahead(cs, q))
    decreases Left(p), 1
  {
    hide Next, SkipParens, Closes, ArgsFrom, Ahead, SetFrom;
    AheadAfter(cs, p);
    var q := After(cs, p);
    var ts := Ahead(cs, p);
    if q.cur == Colon {
      AheadAfter(cs, q);
      var n := After(cs, q);
      AheadAfter(cs, n);
      assert ts == [p.cur, q.cur, n.cur] + Ahead(cs, After(cs, n));
      assert NamesFrom(ts, p.cur.text, n.cur.text, Ahead(cs, After(cs, n)));
      RestIsSpelled(cs, p.cur.text, n.cur.text, After(cs, n), ts);
    } else {
      assert NamesFrom(ts, "", p.cur.text, Ahead(cs, q));
      RestIsSpelled(cs, "", p.cur.text, q, ts);
    }
  }

  lemma {:induction false} RestIsSpelled(cs: Classes, alias: string, name: string, p: State, ts: seq<Token>)
    requires ParseRest(cs, alias, name, p).Some? && NamesFrom(ts, alias, name, Ahead(cs, p))
    ensures var (s, q) := ParseRest(cs, alias, name, p).value;
      s.alias == alias && s.name == name && (Ahead(cs, q) == [] || SelectionFrom(ts, s, Ahead(cs, q)))
    decreases Left(p), 3
  {
    hide Next, SkipParens, Closes, NamesFrom, Ahead, SetFrom;
    var q := if p.cur == LParen then SkipParens(cs, p, 0) else p;
    if p.cur == LParen {
      SkippedIsArgs(cs, p);
    }
    EndMeansNothing(cs, q);
    if q.cur != End {
      if q.cur == LBrace {
        SetIsSpelled(cs, q);
      }
      var (s, r) := ParseRest(cs, alias, name, p).value;
      SelectionBy(ts, s, Ahead(cs, p), Ahead(cs, q), Ahead(cs, r));
    }
  }

  lemma SelectionBy(ts: seq<Token>, s: Selection, vs: seq<Token>, ws: seq<Token>, us: seq<Token>)
    requires NamesFrom(ts, s.alias, s.name, vs) && ArgsFrom(vs, ws)
    requires (s.selections == [] && us == ws) || SetFrom(ws, s.selections, us)
    ensures SelectionFrom(ts, s, us)
  {
  }

  lemma EndMeansNothing(cs: Classes, p: State)
    ensures Ahead(cs, p) == [] <==> p.cur == End
  {
    hide Next;
  }

  lemma {:induction false} SetIsSpelled(cs: Classes, p: State)
    requires ParseSet(cs, p).Some?
    ensures var (sels, q) := ParseSet(cs, p).value; SetFrom(Ahead(cs, p), sels, Ahead(cs, q))
    decreases Left(p), 0
  {
    hide Next, ItemsFrom;
    AheadAfter(cs, p);
    var q := After(cs, p);
    ItemsAreSpelled(cs, q);
    AheadAfter(cs, ParseItems(cs, q).value.1);
  }

  lemma {:induction false} ItemsAreSpelled(cs: Classes, p: State)
    requires ParseItems(cs, p).Some? && ParseItems(cs, p).value.1.cur == RBrace
    ensures var (sels, q) := ParseItems(cs, p).value; ItemsFrom(Ahead(cs, p), sels, Ahead(cs, q))
    decreases Left(p), 2
  {
    hide Next, ParseSelection, SelectionFrom, Ahead;
    if p.cur != RBrace && p.cur != End {
      SelectionIsSpelled(cs, p);
      var (first, q) := ParseSelection(cs, p).value;
      EndMeansNothing(cs, q);
      ItemsAreSpelled(cs, q);
      var (more, r) := ParseItems(cs, q).value;
      assert ([first] + more)[1..] == more;
      assert SelectionFrom(Ahead(cs, p), ([first] + more)[0], Ahead(cs, q));
    }
  }

  lemma OperationIsSpelled(cs: Classes, p: State)
    requires ParseOperation(cs, p).Some?
    ensures var (op, q) := ParseOperation(cs, p).value; OperationFrom(Ahead(cs, p), op, Ahead(cs, q))
  {
    hide Next, ParseSet, SkipParens, Closes, SetFrom, Ahead, After, ArgsFrom;
    if p.cur == LBrace {
      SetIsSpelled(cs, p);
    } else {
      AheadAfter(cs, p);
      var q := After(cs, p);
      if q.cur.NameToken? {
        AheadAfter(cs, q);
      }
      var n := if q.cur.NameToken? then After(cs, q) else q;
      var body := if n.cur == LParen then SkipParens(cs, n, 0) else n;
      SetIsSpelled(cs, body);
      BodyBehindArgs(cs, n, body);
      assert q.cur.NameToken? ==> Ahead(cs, p) == [p.cur, q.cur] + Ahead(cs, n);
    }
  }

  lemma BodyBehindArgs(cs: Classes, n: State, body: State)
    requires body == (if n.cur == LParen then SkipParens(cs, n, 0) else n) && ParseSet(cs, body).Some?
    ensures ArgsFrom(Ahead(cs, n), Ahead(cs, body))
  {
    hide Next, SkipParens, Closes, Ahead;
    EndMeansNothing(cs, body);
    if n.cur == LParen {
      SkippedIsArgs(cs, n);
    }
  }

  lemma {:induction false} OperationsAreSpelled(cs: Classes, p: State)
    requires ParseOperations(cs, p).Some?
    ensures IsDocument(Ahead(cs, p), ParseOperations(cs, p).value)
    decreases Left(p)
  {
    hide Next, ParseOperation, OperationFrom, Ahead;
    EndMeansNothing(cs, p);
    if p.cur != End {
      OperationIsSpelled(cs, p);
      var (first, q) := ParseOperation(cs, p).value;
      OperationsAreSpelled(cs, q);
      var more := ParseOperations(cs, q).value;
      assert ([first] + more)[1..] == more;
      assert OperationFrom(Ahead(cs, p), ([first] + more)[0], Ahead(cs, q));
    }
  }

  // ----- what is spelled is parsed -----

  /** What may follow a selection. */
  predicate StartsItem(us: seq<Token>) {
    us != [] && (us[0].NameToken? || us[0] == RBrace)
  }

  /** The parser is in front of these tokens. */
  predicate InFrontOf(cs: Classes, p: State, ts: seq<Token>) {
    Ahead(cs, p) == ts
  }

  lemma FirstAhead(cs: Classes, p: State, ts: seq<Token>)
    requires InFrontOf(cs, p, ts) && ts != []
    ensures p.cur == ts[0] && p.cur != End && InFrontOf(cs, After(cs, p), ts[1..])
  {
    hide Next;
    EndMeansNothing(cs, p);
    AheadAfter(cs, p);
  }

  lemma ArgsAreSkipped(cs: Classes, p: State, ts: seq<Token>, us: seq<Token>)
    requires InFrontOf(cs, p, ts) && ArgsFrom(ts, us) && us != [] && us[0] != LParen
    ensures ts != [] && (ts[0] == LParen || ts[0] == us[0])
    ensures InFrontOf(cs, if p.cur == LParen then SkipParens(cs, p, 0) else p, us)
  {
    hide Next, SkipParens, Closes;
    if ts != [] {
      FirstAhead(cs, p, ts);
    }
    if p.cur == LParen {
      SkipIs(cs, p, 0);
    }
  }

  lemma {:induction false} SelectionIsParsed(cs: Classes, p: State, s: Selection, us: seq<Token>)
    requires SelectionFrom(Ahead(cs, p), s, us) && StartsItem(us)
    ensures ParseSelection(cs, p).Some?
    ensures ParseSelection(cs, p).value.0 == s && InFrontOf(cs, ParseSelection(cs, p).value.1, us)
    decreases s, 2
  {
    hide Next, ParseRest, ArgsFrom, SetFrom, Ahead, After;
    var ts := Ahead(cs, p);
    var vs: seq<Token>, ws: seq<Token> :| NamesFrom(ts, s.alias, s.name, vs) && ArgsFrom(vs, ws)
      && ((s.selections == [] && us == ws) || SetFrom(ws, s.selections, us));
    BodyStarts(s, ws, us);
    var q := NamesAreParsed(cs, p, s.alias, s.name, ts, vs, ws);
    RestIsParsed(cs, q, s, vs, ws, us);
  }

  lemma BodyStarts(s: Selection, ws: seq<Token>, us: seq<Token>)
    requires StartsItem(us) && ((s.selections == [] && us == ws) || SetFrom(ws, s.selections, us))
    ensures ws != [] && (ws[0].NameToken? || ws[0] == RBrace || ws[0] == LBrace)
    ensures ws[0] == LBrace ==> SetFrom(ws, s.selections, us)
    ensures ws[0] != LBrace ==> s.selections == [] && us == ws
  {
    hide ItemsFrom;
  }

  lemma NamesAreParsed(cs: Classes, p: State, alias: string, name: string, ts: seq<Token>, vs: seq<Token>,
                       ws: seq<Token>) returns (q: State)
    requires InFrontOf(cs, p, ts) && NamesFrom(ts, alias, name, vs) && ArgsFrom(vs, ws)
    requires ws != [] && (ws[0].NameToken? || ws[0] == RBrace || ws[0] == LBrace)
    ensures ParseSelection(cs, p) == ParseRest(cs, alias, name, q) && InFrontOf(cs, q, vs)
  {
    hide Next, SkipParens, Closes, ParseRest, After, InFrontOf;
    FirstAhead(cs, p, ts);
    q := After(cs, p);
    if alias == "" && ts[0] == NameToken(name) && vs == ts[1..] {
      assert vs != [] && vs[0] != Colon;
      FirstAhead(cs, q, vs);
    } else {
      FirstAhead(cs, q, ts[1..]);
      FirstAhead(cs, After(cs, q), ts[1..][1..]);
      q := After(cs, After(cs, q));
      assert ts[1..][1..][1..] == vs;
    }
  }

  lemma {:induction false} RestIsParsed(cs: Classes, p: State, s: Selection, vs: seq<Token>, ws: seq<Token>,
                                        us: seq<Token>)
    requires InFrontOf(cs, p, vs) && ArgsFrom(vs, ws) && StartsItem(us)
    requires (s.selections == [] && us == ws) || SetFrom(ws, s.selections, us)
    ensures ParseRest(cs, s.alias, s.name, p).Some?
    ensures ParseRest(cs, s.alias, s.name, p).value.0 == s
    ensures InFrontOf(cs, ParseRest(cs, s.alias, s.name, p).value.1, us)
    decreases s, 1
  {
    hide Next, SkipParens, Closes, ArgsFrom, SetFrom, After, InFrontOf, ParseSet;
    BodyStarts(s, ws, us);
    ArgsAreSkipped(cs, p, vs, ws);
    var q := if p.cur == LParen then SkipParens(cs, p, 0) else p;
    FirstAhead(cs, q, ws);
    if q.cur == LBrace {
      SetIsParsed(cs, q, s.selections, ws, us);
    }
  }

  lemma {:induction false} SetIsParsed(cs: Classes, p: State, sels: seq<Selection>, ts: seq<Token>, us: seq<Token>)
    requires InFrontOf(cs, p, ts) && SetFrom(ts, sels, us)
    ensures ParseSet(cs, p).Some? && ParseSet(cs, p).value.0 == sels && InFrontOf(cs, ParseSet(cs, p).value.1, us)
    decreases sels, 1
  {
    hide Next, After, InFrontOf, ParseItems, ItemsFrom;
    FirstAhead(cs, p, ts);
    ItemsAreParsed(cs, After(cs, p), sels, ts[1..], [RBrace] + us);
    var q := ParseItems(cs, After(cs, p)).value.1;
    FirstAhead(cs, q, [RBrace] + us);
    assert ([RBrace] + us)[1..] == us;
  }

  lemma {:induction false} ItemsAreParsed(cs: Classes, p: State, sels: seq<Selection>, ts: seq<Token>, us: seq<Token>)
    requires InFrontOf(cs, p, ts) && ItemsFrom(ts, sels, us) && us != [] && us[0] == RBrace
    ensures ParseItems(cs, p).Some? && ParseItems(cs, p).value.0 == sels
    ensures InFrontOf(cs, ParseItems(cs, p).value.1, us)
    decreases sels, 0
  {
    hide Next, After, ParseSelection, SelectionFrom;
    if sels == [] {
      FirstAhead(cs, p, ts);
    } else {
      var vs: seq<Token> :| SelectionFrom(ts, sels[0], vs) && ItemsFrom(vs, sels[1..], us);
      StartOfItems(vs, sels[1..], us);
      StartOfSelection(ts, sels[0], vs);
      FirstAhead(cs, p, ts);
      SelectionIsParsed(cs, p, sels[0], vs);
      ItemsAreParsed(cs, ParseSelection(cs, p).value.1, sels[1..], vs, us);
      assert [sels[0]] + sels[1..] == sels;
    }
  }

  lemma StartOfSelection(ts: seq<Token>, s: Selection, us: seq<Token>)
    requires SelectionFrom(ts, s, us)
    ensures ts != [] && ts[0].NameToken?
  {
    hide ArgsFrom, SetFrom;
  }

  lemma StartOfItems(ts: seq<Token>, sels: seq<Selection>, us: seq<Token>)
    requires ItemsFrom(ts, sels, us) && us != [] && us[0] == RBrace
    ensures StartsItem(ts)
  {
    hide SelectionFrom;
    if sels != [] {
      var vs: seq<Token> :| SelectionFrom(ts, sels[0], vs) && ItemsFrom(vs, sels[1..], us);
      StartOfSelection(ts, sels[0], vs);
    }
  }

  lemma OperationIsParsed(cs: Classes, p: State, op: Operation, ts: seq<Token>, us: seq<Token>)
    requires InFrontOf(cs, p, ts) && OperationFrom(ts, op, us)
    ensures p.cur != End && ParseOperation(cs, p).Some?
    ensures ParseOperation(cs, p).value.0 == op && InFrontOf(cs, ParseOperation(cs, p).value.1, us)
  {
    hide Next, After, ParseSet, SkipParens, SetFrom, ArgsFrom, InFrontOf, Closes;
    if op.kind == "query" && op.name == "" && SetFrom(ts, op.selections, us) {
      SetStarts(ts, op.selections, us);
      FirstAhead(cs, p, ts);
      SetIsParsed(cs, p, op.selections, ts, us);
    } else {
      var vs: seq<Token>, ws: seq<Token> :|
        && ((op.name == "" && vs == ts[1..]) || (|ts| >= 2 && ts[1] == NameToken(op.name) && vs == ts[2..]))
        && ArgsFrom(vs, ws) && SetFrom(ws, op.selections, us);
      SetStarts(ws, op.selections, us);
      FirstAhead(cs, p, ts);
      var q := After(cs, p);
      var n := OperationNameParsed(cs, q, op.name, ts[1..], vs, ws);
      ArgsAreSkipped(cs, n, vs, ws);
      SetIsParsed(cs, if n.cur == LParen then SkipParens(cs, n, 0) else n, op.selections, ws, us);
    }
  }

  lemma SetStarts(ts: seq<Token>, sels: seq<Selection>, us: seq<Token>)
    requires SetFrom(ts, sels, us)
    ensures ts != [] && ts[0] == LBrace
  {
    hide ItemsFrom;
  }

  /** The optional name of an operation. */
  lemma OperationNameParsed(cs: Classes, q: State, name: string, ts: seq<Token>, vs: seq<Token>, ws: seq<Token>)
    returns (n: State)
    requires InFrontOf(cs, q, ts) && ArgsFrom(vs, ws) && ws != [] && ws[0] == LBrace
    requires (name == "" && vs == ts) || (ts != [] && ts[0] == NameToken(name) && vs == ts[1..])
    ensures n == (if q.cur.NameToken? then After(cs, q) else q) && InFrontOf(cs, n, vs)
    ensures name == if q.cur.NameToken? then q.cur.text else ""
  {
    hide Next, After, InFrontOf, Closes;
    assert vs != [] && !vs[0].NameToken?;
    FirstAhead(cs, q, ts);
    n := if q.cur.NameToken? then After(cs, q) else q;
  }

  lemma {:induction false} OperationsAreParsed(cs: Classes, p: State, ops: seq<Operation>, ts: seq<Token>)
    requires InFrontOf(cs, p, ts) && IsDocument(ts, ops)
    ensures ParseOperations(cs, p) == Some(ops)
    decreases |ops|
  {
    hide Next, ParseOperation, OperationFrom;
    if ops == [] {
      EndMeansNothing(cs, p);
    } else {
      var us: seq<Token> :| OperationFrom(ts, ops[0], us) && IsDocument(us, ops[1..]);
      OperationIsParsed(cs, p, ops[0], ts, us);
      OperationsAreParsed(cs, ParseOperation(cs, p).value.1, ops[1..], us);
      assert [ops[0]] + ops[1..] == ops;
    }
  }

  /** A text is parsed if and only if its tokens spell a document, and then to the one document they spell. */
  lemma ParsesExactlyDocuments(cs: Classes, src: string, ops: seq<Operation>)
    ensures ParseDocument(cs, src) == Some(ops) <==> IsDocument(Tokens(cs, src), ops)
  {
    hide Next, IsDocument, ParseOperations;
    AheadAt(cs, src);
    var p := At(cs, src);
    if ParseOperations(cs, p) == Some(ops) {
      OperationsAreSpelled(cs, p);
    }
    if IsDocument(Tokens(cs, src), ops) {
      OperationsAreParsed(cs, p, ops, Tokens(cs, src));
    }
  }
}
