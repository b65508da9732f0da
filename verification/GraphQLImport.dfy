/** The GraphQL selection parser and the signature printer
    (internal/importer/graphqlimport/graphqlimport.go:333-533). */
module GraphQLImport {
  import opened Common

  /** unicode.IsSpace, unicode.IsLetter and unicode.IsDigit, given as predicates. */
  datatype Classes = Classes(isSpace: char -> bool, isLetter: char -> bool, isDigit: char -> bool)

  predicate NameStart(cs: Classes, r: char) {
    cs.isLetter(r) || r == '_'
  }

  predicate NamePart(cs: Classes, r: char) {
    cs.isLetter(r) || cs.isDigit(r) || r == '_'
  }

  predicate IsPunctuation(r: char) {
    r == '{' || r == '}' || r == ':' || r == '(' || r == ')' || r == ',' || r == '#' || r == '.'
  }

  /** What is needed of the three classes. */
  ghost predicate Disjoint(cs: Classes) {
    forall r: char ::
      && (IsPunctuation(r) ==> !cs.isSpace(r) && !NamePart(cs, r))
      && (NamePart(cs, r) ==> !cs.isSpace(r))
  }

  datatype Token = End | NameToken(text: string) | LBrace | RBrace | Colon | LParen | RParen

  // ----- the lexer as a function of the remaining text -----

  function NameLength(cs: Classes, s: string): (n: nat)
    ensures n <= |s|
  {
    if s == "" || !NamePart(cs, s[0]) then 0 else 1 + NameLength(cs, s[1..])
  }

  function CommentLength(s: string): (n: nat)
    ensures n <= |s|
  {
    if s == "" || s[0] == '\n' then 0 else 1 + CommentLength(s[1..])
  }

  function Punctuation(r: char): Token
  {
    match r
    case '{' => LBrace
    case '}' => RBrace
    case ':' => Colon
    case '(' => LParen
    case ')' => RParen
    case _ => End
  }

  /** The next token and the text after it. An ellipsis ends the text for good. */
  function Next(cs: Classes, s: string): (r: (Token, string))
    ensures |r.1| <= |s| && (r.0 != End ==> |r.1| < |s|)
    decreases |s|
  {
    if s == "" then (End, s)
    else if cs.isSpace(s[0]) || s[0] == ',' then Next(cs, s[1..])
    else if s[0] == '#' then Next(cs, s[CommentLength(s)..])
    else if "..." <= s then (End, s)
    else if Punctuation(s[0]) != End then (Punctuation(s[0]), s[1..])
    else if NameStart(cs, s[0]) then
      var n := 1 + NameLength(cs, s[1..]);
      (NameToken(s[..n]), s[n..])
    else Next(cs, s[1..])
  }

  // ----- the parser as a function of its state -----

  /** The current token and the text after it. */
  datatype State = State(cur: Token, rest: string)

  function At(cs: Classes, s: string): State {
    State(Next(cs, s).0, Next(cs, s).1)
  }

  function Left(p: State): nat {
    |p.rest| + if p.cur == End then 0 else 1
  }

  /** next; it uses up text or reaches the end. */
  function After(cs: Classes, p: State): (q: State)
    ensures Left(q) <= |p.rest|
    ensures p.cur != End ==> Left(q) < Left(p)
  {
    At(cs, p.rest)
  }

  /** skipParens at nesting `depth`. */
  function SkipParens(cs: Classes, p: State, depth: nat): (q: State)
    requires depth > 0 || p.cur == LParen
    ensures Left(q) <= Left(p)
    decreases Left(p)
  {
    if p.cur == End then p
    else if p.cur == RParen && depth == 1 then After(cs, p)
    else
      SkipParens(cs, After(cs, p), if p.cur == LParen then depth + 1 else if p.cur == RParen then depth - 1 else depth)
  }

  datatype Selection = Selection(alias: string, name: string, selections: seq<Selection>)

  datatype Operation = Operation(kind: string, name: string, selections: seq<Selection>)

  /** A parsed part and the state behind it; None is an error. */
  type Parsed<T> = Option<(T, State)>

  /** parseSelectionSet */
  function ParseSet(cs: Classes, p: State): (r: Parsed<seq<Selection>>)
    ensures r.Some? ==> Left(r.value.1) < Left(p)
    decreases Left(p), 0
  {
    if p.cur != LBrace then None
    else
      var items := ParseItems(cs, After(cs, p));
      if items.None? || items.value.1.cur != RBrace then None
      else Some((items.value.0, After(cs, items.value.1)))
  }

  /** The loop inside it. */
  function ParseItems(cs: Classes, p: State): (r: Parsed<seq<Selection>>)
    ensures r.Some? ==> Left(r.value.1) <= Left(p)
    decreases Left(p), 2
  {
    if p.cur == RBrace || p.cur == End then Some(([], p))
    else
      var first := ParseSelection(cs, p);
      if first.None? then None
      else
        var more := ParseItems(cs, first.value.1);
        if more.None? then None else Some(([first.value.0] + more.value.0, more.value.1))
  }

  /** parseSelection */
  function ParseSelection(cs: Classes, p: State): (r: Parsed<Selection>)
    ensures r.Some? ==> Left(r.value.1) < Left(p)
    decreases Left(p), 1
  {
    if !p.cur.NameToken? then None
    else
      var q := After(cs, p);
      if q.cur != Colon then ParseRest(cs, "", p.cur.text, q)
      else
        var n := After(cs, q);
        if !n.cur.NameToken? then None else ParseRest(cs, p.cur.text, n.cur.text, After(cs, n))
  }

  /** Its part behind the names. */
  function ParseRest(cs: Classes, alias: string, name: string, p: State): (r: Parsed<Selection>)
    ensures r.Some? ==> Left(r.value.1) <= Left(p)
    decreases Left(p), 3
  {
    var q := if p.cur == LParen then SkipParens(cs, p, 0) else p;
    if q.cur != LBrace then Some((Selection(alias, name, []), q))
    else
      var children := ParseSet(cs, q);
      if children.None? then None else Some((Selection(alias, name, children.value.0), children.value.1))
  }

  /** parseOperation */
  function ParseOperation(cs: Classes, p: State): (r: Parsed<Operation>)
    ensures r.Some? ==> Left(r.value.1) < Left(p)
  {
    if p.cur == LBrace then
      var set_ := ParseSet(cs, p);
      if set_.None? then None else Some((Operation("query", "", set_.value.0), set_.value.1))
    else if !p.cur.NameToken? || p.cur.text == "fragment" then None
    else
      var q := After(cs, p);
      var name := if q.cur.NameToken? then q.cur.text else "";
      var n := if q.cur.NameToken? then After(cs, q) else q;
      var body := if n.cur == LParen then SkipParens(cs, n, 0) else n;
      var set_ := ParseSet(cs, body);
      if set_.None? then None else Some((Operation(p.cur.text, name, set_.value.0), set_.value.1))
  }

  /** parseDocument: it ends on every text. */
  function ParseOperations(cs: Classes, p: State): Option<seq<Operation>>
    decreases Left(p)
  {
    if p.cur == End then Some([])
    else
      var first := ParseOperation(cs, p);
      if first.None? then None
      else
        var more := ParseOperations(cs, first.value.1);
        if more.None? then None else Some([first.value.0] + more.value)
  }

  function ParseDocument(cs: Classes, src: string): Option<seq<Operation>> {
    ParseOperations(cs, At(cs, src))
  }

  // ----- the printer -----

  function Label(s: Selection): string {
    if s.alias != "" && s.alias != s.name then s.alias + ":" + s.name else s.name
  }

  function Printed(s: Selection): string {
    Label(s) + if s.selections == [] then "" else "{" + Signature(s.selections, 0) + "}"
  }

  /** selectionSignature of the children, from child `i` on. */
  function Signature(sels: seq<Selection>, i: nat): string
    decreases sels, |sels| - i
  {
    if i >= |sels| then "" else (if i > 0 then "," else "") + Printed(sels[i]) + Signature(sels, i + 1)
  }

  predicate IsName(cs: Classes, s: string) {
    s != "" && NameStart(cs, s[0]) && forall k | 0 <= k < |s| :: NamePart(cs, s[k])
  }

  ghost predicate ValidNames(cs: Classes, s: Selection) {
    && IsName(cs, s.name) && (s.alias != "" ==> IsName(cs, s.alias))
    && forall k | 0 <= k < |s.selections| :: ValidNames(cs, s.selections[k])
  }

  /** The tree without aliases that only repeat the name. */
  function Normal(s: Selection): Selection {
    Selection(if s.alias == s.name then "" else s.alias, s.name, NormalAll(s.selections))
  }

  function NormalAll(sels: seq<Selection>): (r: seq<Selection>)
    ensures |r| == |sels|
  {
    if sels == [] then [] else [Normal(sels[0])] + NormalAll(sels[1..])
  }

  // ----- lexing what was printed -----

  lemma LexPunctuation(cs: Classes, c: char, y: string)
    requires Disjoint(cs) && Punctuation(c) != End
    ensures Next(cs, [c] + y) == (Punctuation(c), y)
  {
  }

  lemma LexComma(cs: Classes, y: string)
    ensures Next(cs, "," + y) == Next(cs, y)
  {
    assert ("," + y)[1..] == y;
  }

  lemma {:induction false} NameLengthStops(cs: Classes, s: string, y: string)
    requires (forall k | 0 <= k < |s| :: NamePart(cs, s[k])) && (y == "" || !NamePart(cs, y[0]))
    ensures NameLength(cs, s + y) == |s|
  {
    if s == "" {
      assert s + y == y;
    } else {
      assert (s + y)[1..] == s[1..] + y;
      NameLengthStops(cs, s[1..], y);
    }
  }

  lemma LexName(cs: Classes, s: string, y: string)
    requires Disjoint(cs) && IsName(cs, s) && y != "" && IsPunctuation(y[0])
    ensures Next(cs, s + y) == (NameToken(s), y)
  {
    assert NamePart(cs, s[0]);
    assert (s + y)[1..] == s[1..] + y;
    NameLengthStops(cs, s[1..], y);
    assert (s + y)[..|s|] == s && (s + y)[|s|..] == y;
  }

  // ----- parsing what was printed -----

  /** The state behind a token. */
  lemma AfterAt(cs: Classes, s: string, t: Token, y: string)
    requires Next(cs, s) == (t, y)
    ensures At(cs, s).cur == t && After(cs, At(cs, s)) == At(cs, y)
  {
  }

  /** A text at which a selection has ended. */
  ghost predicate Ended(cs: Classes, y: string) {
    && y != "" && (y[0] == ',' || y[0] == '}')
    && (At(cs, y).cur.NameToken? || At(cs, y).cur == RBrace)
  }

  lemma {:induction false} LabelParses(cs: Classes, s: Selection, y: string)
    requires Disjoint(cs) && ValidNames(cs, s) && y != "" && IsPunctuation(y[0]) && At(cs, y).cur != Colon
    ensures var alias := if s.alias == s.name then "" else s.alias;
      ParseSelection(cs, At(cs, Label(s) + y)) == ParseRest(cs, alias, s.name, At(cs, y))
  {
    hide Next, ParseRest, At, After, Disjoint;
    LexName(cs, s.name, y);
    AfterAt(cs, s.name + y, NameToken(s.name), y);
    if s.alias != "" && s.alias != s.name {
      var z := s.name + y;
      assert Label(s) + y == s.alias + ([':'] + z);
      LexName(cs, s.alias, [':'] + z);
      LexPunctuation(cs, ':', z);
      AfterAt(cs, s.alias + ([':'] + z), NameToken(s.alias), [':'] + z);
      AfterAt(cs, [':'] + z, Colon, z);
    }
  }

  lemma {:induction false} SelectionParses(cs: Classes, s: Selection, y: string)
    requires Disjoint(cs) && ValidNames(cs, s) && Ended(cs, y)
    ensures ParseSelection(cs, At(cs, Printed(s) + y)) == Some((Normal(s), At(cs, y)))
    decreases s, 1
  {
    hide Next, At, After, Disjoint, ValidNames, Signature, ParseSet, ParseSelection, Label;
    if s.selections == [] {
      assert Printed(s) + y == Label(s) + y;
      LabelParses(cs, s, y);
    } else {
      var body := Signature(s.selections, 0) + ("}" + y);
      assert Printed(s) + y == Label(s) + (['{'] + body);
      LexPunctuation(cs, '{', body);
      AfterAt(cs, ['{'] + body, LBrace, body);
      LabelParses(cs, s, ['{'] + body);
      ChildrenValid(cs, s);
      SetParses(cs, s.selections, y);
    }
  }

  ghost predicate AllValid(cs: Classes, sels: seq<Selection>) {
    forall k | 0 <= k < |sels| :: ValidNames(cs, sels[k])
  }

  lemma ChildrenValid(cs: Classes, s: Selection)
    requires ValidNames(cs, s)
    ensures AllValid(cs, s.selections)
  {
  }

  lemma {:induction false} SetParses(cs: Classes, sels: seq<Selection>, y: string)
    requires Disjoint(cs) && AllValid(cs, sels)
    ensures ParseSet(cs, At(cs, ['{'] + (Signature(sels, 0) + ("}" + y)))) == Some((NormalAll(sels), At(cs, y)))
    decreases sels, |sels| + 1
  {
    hide Next, At, After, Disjoint, AllValid, Signature, ParseItems, NormalAll;
    var body := Signature(sels, 0) + ("}" + y);
    LexPunctuation(cs, '{', body);
    AfterAt(cs, ['{'] + body, LBrace, body);
    ItemsParse(cs, sels, 0, y);
    assert sels[0..] == sels && "}" + y == ['}'] + y;
    LexPunctuation(cs, '}', y);
    AfterAt(cs, ['}'] + y, RBrace, y);
  }

  lemma {:induction false} ItemsParse(cs: Classes, sels: seq<Selection>, i: nat, y: string)
    requires Disjoint(cs) && AllValid(cs, sels) && i <= |sels|
    ensures ParseItems(cs, At(cs, Signature(sels, i) + ("}" + y))) == Some((NormalAll(sels[i..]), At(cs, "}" + y)))
    decreases sels, |sels| - i
  {
    hide Next, At, Disjoint, ParseSelection, Normal, Printed, Ended, ValidNames;
    assert "}" + y == ['}'] + y;
    LexPunctuation(cs, '}', y);
    AfterAt(cs, ['}'] + y, RBrace, y);
    if i == |sels| {
      assert Signature(sels, i) + ("}" + y) == "}" + y;
    } else {
      var rest := Signature(sels, i + 1) + ("}" + y);
      ItemsParse(cs, sels, i + 1, y);
      RestIsEnded(cs, sels, i + 1, y);
      SelectionParses(cs, sels[i], rest);
      SkipsComma(cs, sels, i, rest);
      assert Signature(sels, i) + ("}" + y) == (if i > 0 then "," else "") + (Printed(sels[i]) + rest);
      StartsWithName(cs, sels[i], rest);
      assert sels[i..][0] == sels[i] && sels[i..][1..] == sels[i + 1..];
    }
  }

  lemma SkipsComma(cs: Classes, sels: seq<Selection>, i: nat, rest: string)
    requires i < |sels|
    ensures At(cs, (if i > 0 then "," else "") + (Printed(sels[i]) + rest)) == At(cs, Printed(sels[i]) + rest)
  {
    hide Printed, Next;
    LexComma(cs, Printed(sels[i]) + rest);
    assert "" + (Printed(sels[i]) + rest) == Printed(sels[i]) + rest;
  }

  lemma StartsWithName(cs: Classes, s: Selection, y: string)
    requires Disjoint(cs) && ValidNames(cs, s) && y != "" && IsPunctuation(y[0])
    ensures At(cs, Printed(s) + y).cur.NameToken?
  {
    hide Next, Disjoint, Signature;
    var rest := (if s.selections == [] then "" else "{" + Signature(s.selections, 0) + "}") + y;
    assert Printed(s) + y == Label(s) + rest;
    if s.alias != "" && s.alias != s.name {
      LexName(cs, s.alias, ":" + s.name + rest);
      assert Label(s) + rest == s.alias + (":" + s.name + rest);
    } else {
      LexName(cs, s.name, rest);
    }
  }

  lemma SignatureUnfolds(sels: seq<Selection>, i: nat, z: string)
    requires 0 < i <= |sels|
    ensures Signature(sels, i) + z
         == if i == |sels| then z else [','] + (Printed(sels[i]) + (Signature(sels, i + 1) + z))
  {
    hide Printed;
    assert "" + z == z;
  }

  lemma RestIsEnded(cs: Classes, sels: seq<Selection>, i: nat, y: string)
    requires Disjoint(cs) && AllValid(cs, sels) && 0 < i <= |sels|
    ensures Ended(cs, Signature(sels, i) + ("}" + y))
  {
    hide Next, Disjoint, ValidNames, Printed, Signature;
    SignatureUnfolds(sels, i, "}" + y);
    if i == |sels| {
      LexPunctuation(cs, '}', y);
      assert "}" + y == ['}'] + y;
    } else {
      SignatureUnfolds(sels, i + 1, "}" + y);
      var rest := Signature(sels, i + 1) + ("}" + y);
      StartsWithName(cs, sels[i], rest);
      LexComma(cs, Printed(sels[i]) + rest);
    }
  }

  /** Parsing a printed selection set gives back the tree without repeated aliases. */
  lemma ParsesWhatWasPrinted(cs: Classes, sels: seq<Selection>)
    requires Disjoint(cs) && AllValid(cs, sels)
    ensures ParseSet(cs, At(cs, "{" + Signature(sels, 0) + "}")) == Some((NormalAll(sels), State(End, "")))
    ensures ParseDocument(cs, "{" + Signature(sels, 0) + "}") == Some([Operation("query", "", NormalAll(sels))])
  {
    hide ParseSet, Disjoint, AllValid, Signature;
    var body := Signature(sels, 0) + ("}" + "");
    SetParses(cs, sels, "");
    assert "{" + Signature(sels, 0) + "}" == ['{'] + body;
    LexPunctuation(cs, '{', body);
    var op := Operation("query", "", NormalAll(sels));
    assert ParseOperation(cs, At(cs, ['{'] + body)) == Some((op, State(End, "")));
    assert ParseOperations(cs, State(End, "")) == Some([]);
    assert [op] + [] == [op];
  }

  /** So the signature tells apart exactly the trees that differ in more than repeated aliases. */
  lemma SignatureIsInjective(cs: Classes, a: seq<Selection>, b: seq<Selection>)
    requires Disjoint(cs) && AllValid(cs, a) && AllValid(cs, b)
    ensures Signature(a, 0) == Signature(b, 0) <==> NormalAll(a) == NormalAll(b)
  {
    ParsesWhatWasPrinted(cs, a);
    ParsesWhatWasPrinted(cs, b);
    SignatureOfNormal(a, 0);
    SignatureOfNormal(b, 0);
  }

  lemma {:induction false} NormalAt(sels: seq<Selection>, i: nat)
    requires i < |sels|
    ensures NormalAll(sels)[i] == Normal(sels[i])
  {
    if i > 0 {
      NormalAt(sels[1..], i - 1);
    }
  }

  lemma {:induction false} SignatureOfNormal(sels: seq<Selection>, i: nat)
    ensures Signature(NormalAll(sels), i) == Signature(sels, i)
    decreases sels, |sels| - i
  {
    if i < |sels| {
      NormalAt(sels, i);
      SignatureOfNormal(sels, i + 1);
      SignatureOfNormal(sels[i].selections, 0);
    }
  }

  // ----- the parser object -----

  /** lexer and parser: a position in the text and the current token. */
  class Parser {
    const cs: Classes
    const src: string
    var pos: nat
    var cur: Token

    /** The parser parseDocument starts with. */
    constructor (cs: Classes, src: string)
      ensures this.cs == cs && this.src == src && Valid() && View() == At(cs, src)
    {
      this.cs, this.src, pos, cur := cs, src, 0, End;
      new;
      assert src[0..] == src;
      Advance();
    }

    predicate Valid()
      reads this
    {
      pos <= |src|
    }

    ghost function View(): State
      requires Valid()
      reads this
    {
      State(cur, src[pos..])
    }

    /** nextToken */
    method NextToken() returns (t: Token)
      requires Valid()
      modifies this`pos
      ensures Valid() && (t, src[pos..]) == Next(cs, old(src[pos..]))
    {
      hide NameStart, CommentLength, NameLength, Punctuation;
      while pos < |src|
        invariant Valid() && Next(cs, src[pos..]) == Next(cs, old(src[pos..]))
        decreases |src| - pos
      {
        var r := src[pos];
        ghost var s := src[pos..];
        assert s[0] == r && s[1..] == src[pos + 1..];
        if cs.isSpace(r) || r == ',' {
          pos := pos + 1;
          continue;
        }
        if r == '#' {
          SkipComment();
          continue;
        }
        assert "..." <= s <==> pos + 2 < |src| && src[pos..pos + 3] == "..." by {
          assert pos + 2 < |src| ==> src[pos..pos + 3] == s[..3];
        }
        if pos + 2 < |src| && src[pos..pos + 3] == "..." {
          return End;
        }
        if Punctuation(r) != End {
          pos := pos + 1;
          return Punctuation(r);
        }
        if NameStart(cs, r) {
          t := ReadName();
          return;
        }
        pos := pos + 1;
      }
      assert src[pos..] == "";
      return End;
    }

    method SkipComment()
      requires pos < |src| && src[pos] == '#'
      modifies this`pos
      ensures Valid() && pos > old(pos) && src[pos..] == old(src[pos..])[CommentLength(old(src[pos..]))..]
    {
      ghost var s := src[pos..];
      ghost var start := pos;
      while pos < |src| && src[pos] != '\n'
        invariant start <= pos <= |src| && pos - start + CommentLength(src[pos..]) == CommentLength(s)
        invariant pos == start ==> src[pos] == '#'
      {
        assert src[pos..][0] == src[pos] && src[pos..][1..] == src[pos + 1..];
        pos := pos + 1;
      }
      assert src[pos..] == s[pos - start..];
    }

    method ReadName() returns (t: Token)
      requires pos < |src|
      modifies this`pos
      ensures Valid()
      ensures var s := old(src[pos..]);
        var n := 1 + NameLength(cs, s[1..]);
        t == NameToken(s[..n]) && src[pos..] == s[n..]
    {
      ghost var s := src[pos..];
      var start := pos;
      pos := pos + 1;
      assert src[pos..] == s[1..];
      while pos < |src| && NamePart(cs, src[pos])
        invariant start < pos <= |src| && pos - start + NameLength(cs, src[pos..]) == 1 + NameLength(cs, s[1..])
      {
        assert src[pos..][0] == src[pos] && src[pos..][1..] == src[pos + 1..];
        pos := pos + 1;
      }
      assert src[start..pos] == s[..pos - start] && src[pos..] == s[pos - start..];
      t := NameToken(src[start..pos]);
    }

    /** next */
    method Advance()
      requires Valid()
      modifies this`pos, this`cur
      ensures Valid() && View() == After(cs, old(View()))
    {
      hide Next;
      cur := NextToken();
    }

    /** skipParens */
    method SkipParenthesis()
      requires Valid() && cur == LParen
      modifies this`pos, this`cur
      ensures Valid() && View() == SkipParens(cs, old(View()), 0)
    {
      hide After;
      var depth: nat := 0;
      while true
        invariant Valid() && (depth > 0 || cur == LParen)
        invariant SkipParens(cs, View(), depth) == SkipParens(cs, old(View()), 0)
        decreases Left(View())
      {
        if cur == LParen {
          depth := depth + 1;
        } else if cur == RParen {
          depth := depth - 1;
          if depth == 0 {
            Advance();
            return;
          }
        } else if cur == End {
          return;
        }
        Advance();
      }
    }

    /** parseSelectionSet */
    method ParseSelectionSet() returns (r: Option<seq<Selection>>)
      requires Valid()
      modifies this`pos, this`cur
      ensures Valid() && r.Some? == ParseSet(cs, old(View())).Some?
      ensures r.Some? ==> ParseSet(cs, old(View())) == Some((r.value, View()))
      decreases Left(View()), 0
    {
      hide After, ParseSelection;
      if cur != LBrace {
        return None;
      }
      ghost var start := View();
      Advance();
      var out := [];
      ghost var items := ParseItems(cs, View());
      while cur != RBrace && cur != End
        invariant Valid() && Left(View()) < Left(start)
        invariant var rest := ParseItems(cs, View());
          (items.Some? <==> rest.Some?)
          && (items.Some? ==> items.value.0 == out + rest.value.0 && items.value.1 == rest.value.1)
        decreases Left(View())
      {
        var sel := ParseOneSelection();
        if sel.None? {
          return None;
        }
        out := out + [sel.value];
      }
      assert out + [] == out;
      if cur != RBrace {
        return None;
      }
      Advance();
      return Some(out);
    }

    /** parseSelection */
    method ParseOneSelection() returns (r: Option<Selection>)
      requires Valid()
      modifies this`pos, this`cur
      ensures Valid() && r.Some? == ParseSelection(cs, old(View())).Some?
      ensures r.Some? ==> ParseSelection(cs, old(View())) == Some((r.value, View()))
      decreases Left(View()), 1
    {
      hide After, ParseSet, SkipParens;
      if !cur.NameToken? {
        return None;
      }
      var alias, name := "", cur.text;
      Advance();
      if cur == Colon {
        alias := name;
        Advance();
        if !cur.NameToken? {
          return None;
        }
        name := cur.text;
        Advance();
      }
      if cur == LParen {
        SkipParenthesis();
      }
      var selections: seq<Selection> := [];
      if cur == LBrace {
        var children := ParseSelectionSet();
        if children.None? {
          return None;
        }
        selections := children.value;
      }
      return Some(Selection(alias, name, selections));
    }

    /** parseOperation */
    method ParseOneOperation() returns (r: Option<Operation>)
      requires Valid()
      modifies this`pos, this`cur
      ensures Valid() && r.Some? == ParseOperation(cs, old(View())).Some?
      ensures r.Some? ==> ParseOperation(cs, old(View())) == Some((r.value, View()))
    {
      hide After, ParseSet, SkipParens;
      var kind, name := "query", "";
      if cur != LBrace {
        if !cur.NameToken? || cur.text == "fragment" {
          return None;
        }
        kind := cur.text;
        Advance();
        if cur.NameToken? {
          name := cur.text;
          Advance();
        }
        if cur == LParen {
          SkipParenthesis();
        }
      }
      var sels := ParseSelectionSet();
      return if sels.None? then None else Some(Operation(kind, name, sels.value));
    }
  }

  /** parseDocument */
  method ParseText(cs: Classes, src: string) returns (r: Option<seq<Operation>>)
    ensures r == ParseDocument(cs, src)
  {
    hide ParseOperation, At;
    var p := new Parser(cs, src);
    var ops := [];
    ghost var all := ParseOperations(cs, p.View());
    while p.cur != End
      invariant p.Valid() && p.cs == cs
      invariant var rest := ParseOperations(cs, p.View());
        (all.Some? <==> rest.Some?) && (all.Some? ==> all.value == ops + rest.value)
      decreases Left(p.View())
    {
      var op := p.ParseOneOperation();
      if op.None? {
        return None;
      }
      ops := ops + [op.value];
    }
    assert ops + [] == ops;
    return Some(ops);
  }
}
