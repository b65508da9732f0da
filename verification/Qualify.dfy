/** Qualifying the bare identifiers of an SQL expression (internal/model/computable_utils.go:205-343). */
module Qualify {
  predicate IdentStart(ch: char) {
    'a' <= ch <= 'z' || 'A' <= ch <= 'Z' || ch == '_'
  }

  predicate IdentPart(ch: char) {
    IdentStart(ch) || '0' <= ch <= '9'
  }

  predicate IsIdent(s: string) {
    s != "" && IdentStart(s[0]) && forall i | 0 <= i < |s| :: IdentPart(s[i])
  }

  predicate IsSpace(ch: char) {
    ch == ' ' || ch == '\t' || ch == '\n' || ch == '\r'
  }

  function Lower(s: string): string {
    seq(|s|, i requires 0 <= i < |s| => if 'A' <= s[i] <= 'Z' then s[i] - 'A' + 'a' else s[i])
  }

  const KEYWORDS: set<string> := {
    "select", "from", "where", "and", "or", "not", "null", "true", "false",
    "like", "ilike", "similar", "between", "as", "case", "when", "then", "else", "end",
    "on", "inner", "left", "right", "full", "cross", "join", "union", "all", "distinct",
    "order", "by", "group", "limit", "offset", "having", "exists", "in", "is", "over",
    "partition", "filter", "returning", "with", "update", "into", "delete",
    "int", "integer", "bigint", "smallint", "serial", "bigserial", "real", "float", "float8", "double",
    "double precision", "numeric", "decimal", "boolean", "bool", "text", "varchar", "character", "char", "timestamp",
    "date", "time", "interval" }

  /** isSQLKeyword of an identifier. */
  predicate IsKeyword(ident: string) {
    Lower(ident) in KEYWORDS
  }

  /** The keywords before table names: the next two identifiers are left alone. */
  predicate BeforeTables(ident: string) {
    Lower(ident) in ["from", "join", "update", "into", "delete"]
  }

  datatype Mode = Plain | Single | Double

  const NONE := '\0'

  /** What prevNonSpace finds after one more character. */
  function Seen(prev: char, ch: char): char {
    if IsSpace(ch) then prev else ch
  }

  /** nextNonSpace */
  function NextNonSpace(s: string): char {
    if s == "" then NONE else if IsSpace(s[0]) then NextNonSpace(s[1..]) else s[0]
  }

  /** prevNonSpace */
  function PrevNonSpace(s: string): char {
    if s == "" then NONE else Seen(PrevNonSpace(s[..|s| - 1]), s[|s| - 1])
  }

  function IdentLength(s: string): (n: nat)
    ensures n <= |s|
  {
    if s == "" || !IdentPart(s[0]) then 0 else 1 + IdentLength(s[1..])
  }

  predicate Blocked(prev: char, next: char) {
    prev == '.' || prev == ':' || prev == '"' || next == '.' || next == '('
  }

  function QuoteOf(mode: Mode): char {
    if mode == Single then '\'' else '"'
  }

  function Opened(ch: char): Mode {
    if ch == '\'' then Single else if ch == '"' then Double else Plain
  }

  /** What becomes of the identifier that `s` starts with: whether it gets the alias, and the skip count behind it. */
  function Decide(prev: char, skip: nat, ident: string, next: char): (bool, nat) {
    var skipNext := if BeforeTables(ident) then 2 else skip;
    if IsKeyword(ident) then (false, skipNext)
    else if skipNext > 0 then (false, skipNext - 1)
    else (!Blocked(prev, next), 0)
  }

  /** The rest `s` of an expression rewritten: `prev` is the last non-space character before it, `skip` the number of
      identifiers still to be left alone. */
  function Qualified(alias: string, prev: char, mode: Mode, skip: nat, s: string): string
    decreases |s|
  {
    if s == "" then ""
    else if mode != Plain then
      if s[0] == QuoteOf(mode) && |s| > 1 && s[1] == QuoteOf(mode) then
        s[..2] + Qualified(alias, s[0], mode, skip, s[2..])
      else
        s[..1] + Qualified(alias, Seen(prev, s[0]), if s[0] == QuoteOf(mode) then Plain else mode, skip, s[1..])
    else if IdentStart(s[0]) then
      var n := IdentLength(s);
      var (add, skipNext) := Decide(prev, skip, s[..n], NextNonSpace(s[n..]));
      (if add then alias + "." else "") + s[..n] + Qualified(alias, s[n - 1], Plain, skipNext, s[n..])
    else
      s[..1] + Qualified(alias, Seen(prev, s[0]), Opened(s[0]), skip, s[1..])
  }

  // ----- what is inserted -----

  /** A piece of the input: inside quotes, an identifier outside them, or one other character. */
  datatype Piece = Inside(text: string) | Ident(text: string) | Other(text: string)

  function Pieces(mode: Mode, s: string): seq<Piece>
    decreases |s|
  {
    if s == "" then []
    else if mode != Plain then
      if s[0] == QuoteOf(mode) && |s| > 1 && s[1] == QuoteOf(mode) then [Inside(s[..2])] + Pieces(mode, s[2..])
      else [Inside(s[..1])] + Pieces(if s[0] == QuoteOf(mode) then Plain else mode, s[1..])
    else if IdentStart(s[0]) then
      var n := IdentLength(s);
      [Ident(s[..n])] + Pieces(Plain, s[n..])
    else [Other(s[..1])] + Pieces(Opened(s[0]), s[1..])
  }

  /** The pieces in order, the marked ones behind "alias.". */
  function Rendered(alias: string, pieces: seq<Piece>, marks: seq<bool>): string
    requires |marks| == |pieces|
  {
    if pieces == [] then ""
    else (if marks[0] then alias + "." else "") + pieces[0].text + Rendered(alias, pieces[1..], marks[1..])
  }

  function Text(pieces: seq<Piece>): string {
    if pieces == [] then "" else pieces[0].text + Text(pieces[1..])
  }

  lemma TextCons(p: Piece, rest: seq<Piece>)
    ensures Text([]) == "" && Text([p] + rest) == p.text + Text(rest)
  {
    assert ([p] + rest)[1..] == rest;
  }

  lemma {:induction false} PiecesCover(mode: Mode, s: string)
    ensures Text(Pieces(mode, s)) == s
    decreases |s|
  {
    hide IdentStart, IdentPart, Text;
    if s == "" {
      TextCons(Other(""), []);
    } else if mode != Plain && s[0] == QuoteOf(mode) && |s| > 1 && s[1] == QuoteOf(mode) {
      PiecesCover(mode, s[2..]);
      TextCons(Inside(s[..2]), Pieces(mode, s[2..]));
    } else if mode != Plain {
      var mode' := if s[0] == QuoteOf(mode) then Plain else mode;
      PiecesCover(mode', s[1..]);
      TextCons(Inside(s[..1]), Pieces(mode', s[1..]));
    } else if IdentStart(s[0]) {
      IdentHasLength(s);
      var n := IdentLength(s);
      PiecesCover(Plain, s[n..]);
      TextCons(Ident(s[..n]), Pieces(Plain, s[n..]));
    } else {
      PiecesCover(Opened(s[0]), s[1..]);
      TextCons(Other(s[..1]), Pieces(Opened(s[0]), s[1..]));
    }
  }

  lemma IdentHasLength(s: string)
    ensures s != "" && IdentStart(s[0]) ==> IdentLength(s) > 0
  {
  }

  /** The piece is one identifier, and neither another one nor a further character of it follows. */
  predicate IsWhole(pieces: seq<Piece>, i: nat)
    requires i < |pieces|
  {
    && IsIdent(pieces[i].text)
    && (i + 1 < |pieces| ==>
          pieces[i + 1].Other? && pieces[i + 1].text != "" && !IdentPart(pieces[i + 1].text[0]))
  }

  lemma {:induction false} IdentifiersAreWhole(mode: Mode, s: string, i: nat)
    requires i < |Pieces(mode, s)| && Pieces(mode, s)[i].Ident?
    ensures IsWhole(Pieces(mode, s), i)
    decreases |s|
  {
    hide Pieces, IsWhole;
    if i == 0 {
      OnlyPlainIdent(mode, s);
      FirstIsWhole(s);
    } else {
      var p, mode' := FirstPiece(mode, s);
      IdentifiersAreWhole(mode', s[|p.text|..], i - 1);
      WholeBehind(p, Pieces(mode', s[|p.text|..]), i - 1);
    }
  }

  lemma OnlyPlainIdent(mode: Mode, s: string)
    requires Pieces(mode, s) != [] && Pieces(mode, s)[0].Ident?
    ensures mode == Plain && s != "" && IdentStart(s[0])
  {
  }

  /** The pieces of a text are its first one and those of the rest. */
  lemma FirstPiece(mode: Mode, s: string) returns (p: Piece, mode': Mode)
    requires Pieces(mode, s) != []
    ensures 0 < |p.text| <= |s| && Pieces(mode, s) == [p] + Pieces(mode', s[|p.text|..])
  {
    hide IdentStart, IdentPart;
    mode' := mode;
    if mode != Plain && s[0] == QuoteOf(mode) && |s| > 1 && s[1] == QuoteOf(mode) {
      p := Inside(s[..2]);
    } else if mode != Plain {
      p, mode' := Inside(s[..1]), if s[0] == QuoteOf(mode) then Plain else mode;
    } else if IdentStart(s[0]) {
      IdentHasLength(s);
      p := Ident(s[..IdentLength(s)]);
    } else {
      p, mode' := Other(s[..1]), Opened(s[0]);
    }
  }

  lemma WholeBehind(p: Piece, rest: seq<Piece>, i: nat)
    requires i < |rest| && IsWhole(rest, i)
    ensures IsWhole([p] + rest, i + 1)
  {
  }

  lemma FirstIsWhole(s: string)
    requires s != "" && IdentStart(s[0])
    ensures IsWhole(Pieces(Plain, s), 0)
  {
    hide IdentStart;
    IdentHasLength(s);
    IdentIsWhole(s);
  }

  lemma {:induction false} IdentIsWhole(s: string)
    ensures forall k | 0 <= k < IdentLength(s) :: IdentPart(s[k])
    ensures IdentLength(s) < |s| ==> !IdentPart(s[IdentLength(s)]) && !IdentStart(s[IdentLength(s)])
  {
    if s != "" && IdentPart(s[0]) {
      IdentIsWhole(s[1..]);
    }
  }

  /** `out` is the pieces in order, with "alias." before some non-keyword identifiers. */
  ghost predicate Inserts(alias: string, pieces: seq<Piece>, marks: seq<bool>, out: string) {
    && |marks| == |pieces|
    && (forall i | 0 <= i < |marks| && marks[i] :: pieces[i].Ident? && !IsKeyword(pieces[i].text))
    && out == Rendered(alias, pieces, marks)
  }

  lemma InsertsCons(alias: string, p: Piece, mark: bool, pieces: seq<Piece>, marks: seq<bool>, out: string)
    requires Inserts(alias, pieces, marks, out) && (mark ==> p.Ident? && !IsKeyword(p.text))
    ensures Inserts(alias, [p] + pieces, [mark] + marks, (if mark then alias + "." else "") + p.text + out)
    ensures !mark ==> Inserts(alias, [p] + pieces, [mark] + marks, p.text + out)
  {
    hide IsKeyword;
    assert "" + p.text + out == p.text + out;
    assert ([p] + pieces)[1..] == pieces && ([mark] + marks)[1..] == marks;
  }

  /** The output is the input with "alias." inserted before some of its non-keyword identifiers outside quotes, and
      nothing else: quoted regions and all other characters are unchanged. */
  lemma {:induction false} OnlyInsertsAlias(alias: string, prev: char, mode: Mode, skip: nat, s: string)
    returns (marks: seq<bool>)
    ensures Inserts(alias, Pieces(mode, s), marks, Qualified(alias, prev, mode, skip, s))
    decreases |s|
  {
    hide IdentStart, IdentPart, IsKeyword, BeforeTables, Blocked, Inserts;
    if s == "" {
      NothingInserted(alias);
      return [];
    } else if mode != Plain && s[0] == QuoteOf(mode) && |s| > 1 && s[1] == QuoteOf(mode) {
      marks := OnlyInsertsAlias(alias, s[0], mode, skip, s[2..]);
      InsertsCons(alias, Inside(s[..2]), false, Pieces(mode, s[2..]), marks,
        Qualified(alias, s[0], mode, skip, s[2..]));
      marks := [false] + marks;
    } else if mode != Plain {
      var prev', mode' := Seen(prev, s[0]), if s[0] == QuoteOf(mode) then Plain else mode;
      marks := OnlyInsertsAlias(alias, prev', mode', skip, s[1..]);
      InsertsCons(alias, Inside(s[..1]), false, Pieces(mode', s[1..]), marks,
        Qualified(alias, prev', mode', skip, s[1..]));
      marks := [false] + marks;
    } else if IdentStart(s[0]) {
      IdentHasLength(s);
      var n := IdentLength(s);
      var (add, skipNext) := Decide(prev, skip, s[..n], NextNonSpace(s[n..]));
      marks := OnlyInsertsAlias(alias, s[n - 1], Plain, skipNext, s[n..]);
      InsertsCons(alias, Ident(s[..n]), add, Pieces(Plain, s[n..]), marks,
        Qualified(alias, s[n - 1], Plain, skipNext, s[n..]));
      marks := [add] + marks;
    } else {
      var prev', mode' := Seen(prev, s[0]), Opened(s[0]);
      marks := OnlyInsertsAlias(alias, prev', mode', skip, s[1..]);
      InsertsCons(alias, Other(s[..1]), false, Pieces(mode', s[1..]), marks,
        Qualified(alias, prev', mode', skip, s[1..]));
      marks := [false] + marks;
    }
  }

  lemma NothingInserted(alias: string)
    ensures Inserts(alias, [], [], "")
  {
  }

  // ----- which identifiers get the alias -----

  predicate IsWord(p: Piece) {
    p.Ident? && !IsKeyword(p.text)
  }

  function CountWords(pieces: seq<Piece>): nat {
    if pieces == [] then 0
    else CountWords(pieces[..|pieces| - 1]) + if IsWord(pieces[|pieces| - 1]) then 1 else 0
  }

  predicate IsTableKeyword(p: Piece) {
    p.Ident? && IsKeyword(p.text) && BeforeTables(p.text)
  }

  /** Fewer than `words` words stand between the table keyword at `j` and `n`. */
  ghost predicate SkipsBy(pieces: seq<Piece>, j: nat, n: nat, words: nat)
    requires j < n <= |pieces|
  {
    IsTableKeyword(pieces[j]) && CountWords(pieces[j + 1..n]) < words
  }

  /** What stands at `n` is one of the next `words` words behind a keyword that table names follow. */
  ghost predicate SkipsFrom(pieces: seq<Piece>, n: nat, words: nat)
    requires n <= |pieces|
  {
    exists j: nat :: j < n && SkipsBy(pieces, j, n, words)
  }

  /** The last character of `s` that is no blank. */
  ghost predicate EndsVisibly(s: string, c: char) {
    exists k :: 0 <= k < |s| && s[k] == c && !IsSpace(c) && forall j | k < j < |s| :: IsSpace(s[j])
  }

  /** The first character of `s` that is no blank. */
  ghost predicate StartsVisibly(s: string, c: char) {
    exists k :: 0 <= k < |s| && s[k] == c && !IsSpace(c) && forall j | 0 <= j < k :: IsSpace(s[j])
  }

  /** A column name: an identifier outside quotes that is no keyword, names no table, follows no '.', ':' or '"', and
      precedes no '.' or '('. */
  ghost predicate IsColumnName(pieces: seq<Piece>, i: nat)
    requires i < |pieces|
  {
    var before, after := Text(pieces[..i]), Text(pieces[i + 1..]);
    && IsWord(pieces[i]) && !SkipsFrom(pieces, i, 2)
    && !EndsVisibly(before, '.') && !EndsVisibly(before, ':') && !EndsVisibly(before, '"')
    && !StartsVisibly(after, '.') && !StartsVisibly(after, '(')
  }

  lemma {:induction false} PrevIsVisible(s: string, c: char)
    requires c != NONE
    ensures PrevNonSpace(s) == c <==> EndsVisibly(s, c)
  {
    if s != "" {
      var n := |s| - 1;
      PrevIsVisible(s[..n], c);
      if IsSpace(s[n]) {
        if EndsVisibly(s[..n], c) {
          var k :| 0 <= k < n && s[..n][k] == c && !IsSpace(c) && forall j | k < j < n :: IsSpace(s[..n][j]);
          assert s[k] == c && forall j | k < j < |s| :: IsSpace(s[j]);
        }
        if k :| 0 <= k < |s| && s[k] == c && !IsSpace(c) && forall j | k < j < |s| :: IsSpace(s[j]) {
          assert s[..n][k] == c;
        }
      }
    }
  }

  lemma {:induction false} NextIsVisible(s: string, c: char)
    requires c != NONE
    ensures NextNonSpace(s) == c <==> StartsVisibly(s, c)
  {
    if s != "" {
      NextIsVisible(s[1..], c);
      if IsSpace(s[0]) {
        if StartsVisibly(s[1..], c) {
          var k :| 0 <= k < |s[1..]| && s[1..][k] == c && !IsSpace(c) && forall j | 0 <= j < k :: IsSpace(s[1..][j]);
          assert s[k + 1] == c && forall j | 0 <= j < k + 1 :: IsSpace(s[j]) by {
            forall j | 0 < j < k + 1 ensures IsSpace(s[j]) {
              assert IsSpace(s[1..][j - 1]);
            }
          }
        }
        if k :| 0 <= k < |s| && s[k] == c && !IsSpace(c) && forall j | 0 <= j < k :: IsSpace(s[j]) {
          assert s[1..][k - 1] == c && forall j | 0 <= j < k - 1 :: IsSpace(s[1..][j]);
        }
      }
    }
  }

  /** The skip count behind some pieces. */
  function SkipAfter(pieces: seq<Piece>): nat {
    if pieces == [] then 0
    else
      var skip, last := SkipAfter(pieces[..|pieces| - 1]), pieces[|pieces| - 1];
      if last.Ident? then Decide(NONE, skip, last.text, NONE).1 else skip
  }

  lemma DecideSkips(prev: char, skip: nat, ident: string, next: char)
    ensures Decide(prev, skip, ident, next).1 == Decide(NONE, skip, ident, NONE).1
  {
  }

  /** The keywords before table names are keywords. */
  lemma TableKeywords(ident: string)
    ensures BeforeTables(ident) ==> IsKeyword(ident)
  {
  }

  lemma SkipsByOneMore(pieces: seq<Piece>, j: nat, n: nat, m: nat, words: nat)
    requires j < n < |pieces| && m == n + 1
    ensures SkipsBy(pieces, j, m, words) <==>
            if IsWord(pieces[n]) then words > 0 && SkipsBy(pieces, j, n, words - 1) else SkipsBy(pieces, j, n, words)
  {
    hide IsWord, IsTableKeyword;
    var part := pieces[j + 1..m];
    assert part[..|part| - 1] == pieces[j + 1..n] && part[|part| - 1] == pieces[n];
  }

  lemma SkipsByLast(pieces: seq<Piece>, n: nat, m: nat, words: nat)
    requires n < |pieces| && m == n + 1
    ensures SkipsBy(pieces, n, m, words) <==> IsTableKeyword(pieces[n]) && words > 0
  {
    hide IsTableKeyword;
    assert pieces[n + 1..m] == [];
  }

  lemma SkipsOneMore(pieces: seq<Piece>, n: nat, m: nat, words: nat)
    requires n < |pieces| && m == n + 1
    ensures SkipsFrom(pieces, m, words) <==>
            (IsTableKeyword(pieces[n]) && words > 0) ||
            if IsWord(pieces[n]) then words > 0 && SkipsFrom(pieces, n, words - 1) else SkipsFrom(pieces, n, words)
  {
    hide IsWord, IsTableKeyword, SkipsBy;
    SkipsByLast(pieces, n, m, words);
    if IsTableKeyword(pieces[n]) && words > 0 {
      assert SkipsBy(pieces, n, m, words);
    }
    if j: nat :| j < m && SkipsBy(pieces, j, m, words) {
      if j < n {
        SkipsByOneMore(pieces, j, n, m, words);
      }
    }
    if IsWord(pieces[n]) && words > 0 && SkipsFrom(pieces, n, words - 1) {
      var j: nat :| j < n && SkipsBy(pieces, j, n, words - 1);
      SkipsByOneMore(pieces, j, n, m, words);
    }
    if !IsWord(pieces[n]) && SkipsFrom(pieces, n, words) {
      var j: nat :| j < n && SkipsBy(pieces, j, n, words);
      SkipsByOneMore(pieces, j, n, m, words);
    }
  }

  lemma {:induction false} SkipMeans(pieces: seq<Piece>, n: nat)
    requires n <= |pieces|
    ensures SkipAfter(pieces[..n]) <= 2
    ensures SkipAfter(pieces[..n]) > 0 <==> SkipsFrom(pieces, n, 2)
    ensures SkipAfter(pieces[..n]) > 1 <==> SkipsFrom(pieces, n, 1)
    ensures !SkipsFrom(pieces, n, 0)
  {
    hide SkipsFrom, IsKeyword, BeforeTables;
    if n == 0 {
      NothingSkips(pieces);
    } else {
      assert pieces[..n][..n - 1] == pieces[..n - 1];
      SkipMeans(pieces, n - 1);
      SkipsOneMore(pieces, n - 1, n, 0);
      SkipsOneMore(pieces, n - 1, n, 1);
      SkipsOneMore(pieces, n - 1, n, 2);
      TableKeywords(pieces[n - 1].text);
    }
  }

  lemma NothingSkips(pieces: seq<Piece>)
    ensures forall words: nat :: !SkipsFrom(pieces, 0, words)
  {
  }

  /** The decision at the identifier behind `before`. */
  lemma DecidedExactly(before: seq<Piece>, ident: string, after: seq<Piece>)
    ensures var pieces := before + [Ident(ident)] + after;
      Decide(PrevNonSpace(Text(before)), SkipAfter(before), ident, NextNonSpace(Text(after))).0 <==>
      IsColumnName(pieces, |before|)
  {
    hide IsKeyword, Decide, EndsVisibly, StartsVisibly, Text, SkipAfter, SkipsFrom, PrevNonSpace, NextNonSpace;
    var pieces, i := before + [Ident(ident)] + after, |before|;
    assert pieces[..i] == before && pieces[i + 1..] == after && pieces[i] == Ident(ident);
    SkipMeans(pieces, i);
    DecideIs(PrevNonSpace(Text(before)), SkipAfter(before), ident, NextNonSpace(Text(after)));
    PrevIsVisible(Text(before), '.');
    PrevIsVisible(Text(before), ':');
    PrevIsVisible(Text(before), '"');
    NextIsVisible(Text(after), '.');
    NextIsVisible(Text(after), '(');
  }

  lemma DecideIs(prev: char, skip: nat, ident: string, next: char)
    ensures Decide(prev, skip, ident, next).0 <==>
            !IsKeyword(ident) && skip == 0 && prev != '.' && prev != ':' && prev != '"' && next != '.' && next != '('
  {
    TableKeywords(ident);
  }

  /** The marks behind some pieces are set exactly at the column names. */
  ghost predicate MarksColumns(before: seq<Piece>, pieces: seq<Piece>, marks: seq<bool>) {
    |marks| == |pieces| &&
    forall i | 0 <= i < |marks| :: marks[i] <==> IsColumnName(before + pieces, |before| + i)
  }

  lemma MarksCons(before: seq<Piece>, p: Piece, mark: bool, rest: seq<Piece>, marks: seq<bool>)
    requires MarksColumns(before + [p], rest, marks)
    requires mark <==> IsColumnName(before + [p] + rest, |before|)
    ensures MarksColumns(before, [p] + rest, [mark] + marks)
  {
    hide IsColumnName;
    assert before + [p] + rest == before + ([p] + rest);
    forall i | 0 <= i < |marks| + 1
      ensures ([mark] + marks)[i] <==> IsColumnName(before + ([p] + rest), |before| + i)
    {
      if i > 0 {
        assert marks[i - 1] <==> IsColumnName(before + [p] + rest, |before + [p]| + (i - 1));
      }
    }
  }

  lemma RenderedCons(alias: string, p: Piece, mark: bool, rest: seq<Piece>, marks: seq<bool>)
    requires |marks| == |rest|
    ensures Rendered(alias, [p] + rest, [mark] + marks)
         == (if mark then alias + "." else "") + p.text + Rendered(alias, rest, marks)
    ensures !mark ==> Rendered(alias, [p] + rest, [mark] + marks) == p.text + Rendered(alias, rest, marks)
  {
    assert ([p] + rest)[1..] == rest && ([mark] + marks)[1..] == marks;
    assert "" + p.text + Rendered(alias, rest, marks) == p.text + Rendered(alias, rest, marks);
  }

  /** What the pieces so far leave behind: the last character that is no blank, and the skip count. */
  ghost predicate Behind(before: seq<Piece>, prev: char, skip: nat) {
    prev == PrevNonSpace(Text(before)) && skip == SkipAfter(before)
  }

  lemma {:induction false} TextSnoc(before: seq<Piece>, p: Piece)
    ensures Text(before + [p]) == Text(before) + p.text
  {
    if before == [] {
      assert before + [p] == [p];
      TextCons(p, []);
    } else {
      TextSnoc(before[1..], p);
      assert (before + [p])[1..] == before[1..] + [p];
    }
  }

  lemma {:induction false} PrevAfter(s: string, t: string)
    ensures t != "" && !IsSpace(t[|t| - 1]) ==> PrevNonSpace(s + t) == t[|t| - 1]
    ensures |t| == 1 ==> PrevNonSpace(s + t) == Seen(PrevNonSpace(s), t[0])
  {
    if t != "" {
      assert (s + t)[..|s + t| - 1] == s + t[..|t| - 1];
      assert |t| == 1 ==> s + t[..0] == s;
    }
  }

  lemma BehindNoIdent(before: seq<Piece>, p: Piece, prev: char, skip: nat)
    requires Behind(before, prev, skip) && !p.Ident?
    requires |p.text| == 1 || (p.text != "" && !IsSpace(p.text[|p.text| - 1]))
    ensures Behind(before + [p], if |p.text| == 1 then Seen(prev, p.text[0]) else p.text[|p.text| - 1], skip)
  {
    TextSnoc(before, p);
    PrevAfter(Text(before), p.text);
    assert (before + [p])[..|before|] == before;
  }

  lemma BehindIdent(before: seq<Piece>, ident: string, prev: char, skip: nat, next: char)
    requires Behind(before, prev, skip) && ident != "" && !IsSpace(ident[|ident| - 1])
    ensures Behind(before + [Ident(ident)], ident[|ident| - 1], Decide(prev, skip, ident, next).1)
  {
    hide Decide;
    TextSnoc(before, Ident(ident));
    PrevAfter(Text(before), ident);
    assert (before + [Ident(ident)])[..|before|] == before;
    DecideSkips(prev, skip, ident, next);
  }

  lemma NoColumn(before: seq<Piece>, p: Piece, rest: seq<Piece>)
    requires !p.Ident?
    ensures !IsColumnName(before + [p] + rest, |before|)
  {
    hide SkipsFrom, EndsVisibly, StartsVisibly, Text;
  }

  lemma {:induction false} QualifiedExactly(alias: string, before: seq<Piece>, prev: char, mode: Mode, skip: nat,
                                            s: string)
    returns (marks: seq<bool>)
    requires Behind(before, prev, skip)
    ensures MarksColumns(before, Pieces(mode, s), marks)
    ensures Qualified(alias, prev, mode, skip, s) == Rendered(alias, Pieces(mode, s), marks)
    decreases |s|
  {
    hide IdentStart, IdentPart, IsKeyword, BeforeTables, Blocked, IsColumnName, Behind, Decide, MarksColumns;
    if s == "" {
      NothingMarked(before);
      return [];
    }
    var p, prev', mode', skip', mark := Other(""), prev, mode, skip, false;
    if mode != Plain && s[0] == QuoteOf(mode) && |s| > 1 && s[1] == QuoteOf(mode) {
      p, prev' := Inside(s[..2]), s[0];
    } else if mode != Plain {
      p, prev', mode' := Inside(s[..1]), Seen(prev, s[0]), if s[0] == QuoteOf(mode) then Plain else mode;
    } else if IdentStart(s[0]) {
      IdentHasLength(s);
      var n := IdentLength(s);
      var next := NextNonSpace(s[n..]);
      PiecesCover(Plain, s[n..]);
      IdentEndsVisibly(s);
      BehindIdent(before, s[..n], prev, skip, next);
      DecidedHere(before, s[..n], Pieces(Plain, s[n..]), prev, skip);
      p, prev', skip', mark := Ident(s[..n]), s[n - 1], Decide(prev, skip, s[..n], next).1,
        Decide(prev, skip, s[..n], next).0;
    } else {
      p, prev', mode' := Other(s[..1]), Seen(prev, s[0]), Opened(s[0]);
    }
    var n := |p.text|;
    if !p.Ident? {
      BehindNoIdent(before, p, prev, skip);
      NoColumn(before, p, Pieces(mode', s[n..]));
    }
    var rest := QualifiedExactly(alias, before + [p], prev', mode', skip', s[n..]);
    MarksLength(before + [p], Pieces(mode', s[n..]), rest);
    MarksCons(before, p, mark, Pieces(mode', s[n..]), rest);
    RenderedCons(alias, p, mark, Pieces(mode', s[n..]), rest);
    marks := [mark] + rest;
  }

  lemma NothingMarked(before: seq<Piece>)
    ensures MarksColumns(before, [], [])
  {
  }

  lemma MarksLength(before: seq<Piece>, pieces: seq<Piece>, marks: seq<bool>)
    requires MarksColumns(before, pieces, marks)
    ensures |marks| == |pieces|
  {
  }

  lemma {:induction false} IdentEndsVisibly(s: string)
    requires IdentLength(s) > 0
    ensures !IsSpace(s[IdentLength(s) - 1])
  {
    var n := IdentLength(s[1..]);
    if n > 0 {
      IdentEndsVisibly(s[1..]);
    }
  }

  lemma DecidedHere(before: seq<Piece>, ident: string, after: seq<Piece>, prev: char, skip: nat)
    requires Behind(before, prev, skip)
    ensures Decide(prev, skip, ident, NextNonSpace(Text(after))).0 <==>
            IsColumnName(before + [Ident(ident)] + after, |before|)
  {
    DecidedExactly(before, ident, after);
  }

  // ----- idempotence -----

  /** Two characters that the rules do not tell apart. */
  predicate Alike(a: char, b: char) {
    a == b || (IdentStart(a) && IdentStart(b))
  }

  lemma HeadKept(alias: string, prev: char, mode: Mode, skip: nat, s: string)
    requires IsIdent(alias)
    ensures var out := Qualified(alias, prev, mode, skip, s);
      if s == "" then out == "" else out != "" && Alike(out[0], s[0]) && (mode != Plain ==> out[0] == s[0])
  {
    hide Decide, NextNonSpace;
    IdentHasLength(s);
  }

  lemma {:induction false} NextKept(alias: string, prev: char, skip: nat, s: string)
    requires IsIdent(alias)
    ensures Alike(NextNonSpace(Qualified(alias, prev, Plain, skip, s)), NextNonSpace(s))
    decreases |s|
  {
    hide Decide, IsIdent;
    HeadKept(alias, prev, Plain, skip, s);
    if s != "" && IsSpace(s[0]) {
      var out := Qualified(alias, prev, Plain, skip, s);
      assert out == s[..1] + Qualified(alias, prev, Plain, skip, s[1..]);
      assert out[1..] == Qualified(alias, prev, Plain, skip, s[1..]);
      NextKept(alias, prev, skip, s[1..]);
    }
  }

  lemma AtQuotedPair(alias: string, prev: char, mode: Mode, skip: nat, q: char, y: string)
    requires mode != Plain && q == QuoteOf(mode)
    ensures Qualified(alias, prev, mode, skip, [q, q] + y) == [q, q] + Qualified(alias, q, mode, skip, y)
  {
    var s := [q, q] + y;
    assert s[..2] == [q, q] && s[2..] == y;
  }

  lemma AtQuoted(alias: string, prev: char, mode: Mode, skip: nat, c: char, y: string)
    requires mode != Plain && !(c == QuoteOf(mode) && y != "" && y[0] == c)
    ensures Qualified(alias, prev, mode, skip, [c] + y)
         == [c] + Qualified(alias, Seen(prev, c), if c == QuoteOf(mode) then Plain else mode, skip, y)
  {
    var s := [c] + y;
    assert s[..1] == [c] && s[1..] == y;
    assert |s| > 1 ==> s[1] == y[0];
  }

  lemma AtOther(alias: string, prev: char, skip: nat, c: char, y: string)
    requires !IdentStart(c)
    ensures Qualified(alias, prev, Plain, skip, [c] + y) == [c] + Qualified(alias, Seen(prev, c), Opened(c), skip, y)
  {
    var s := [c] + y;
    assert s[..1] == [c] && s[1..] == y;
  }

  lemma {:induction false} IdentLengthStops(ident: string, y: string)
    requires (forall i | 0 <= i < |ident| :: IdentPart(ident[i])) && (y == "" || !IdentPart(y[0]))
    ensures IdentLength(ident + y) == |ident|
  {
    if ident == "" {
      assert ident + y == y;
    } else {
      assert (ident + y)[1..] == ident[1..] + y;
      IdentLengthStops(ident[1..], y);
    }
  }

  lemma AtIdent(alias: string, prev: char, skip: nat, ident: string, y: string)
    requires IsIdent(ident) && (y == "" || !IdentPart(y[0]))
    ensures var (add, skipNext) := Decide(prev, skip, ident, NextNonSpace(y));
      Qualified(alias, prev, Plain, skip, ident + y)
      == (if add then alias + "." else "") + ident + Qualified(alias, ident[|ident| - 1], Plain, skipNext, y)
  {
    hide Decide, NextNonSpace, IdentPart;
    IdentLengthStops(ident, y);
    var s, n := ident + y, |ident|;
    assert s[..n] == ident && s[n..] == y && s[n - 1] == ident[n - 1] && s[0] == ident[0];
  }

  /** Where an identifier was left alone, it is left alone again if no fewer are to be skipped. */
  lemma LeftAloneAgain(prev: char, skip: nat, more: nat, ident: string, next: char, next': char)
    requires !Decide(prev, skip, ident, next).0 && skip <= more && Alike(next, next')
    ensures !Decide(prev, more, ident, next').0
      && Decide(prev, skip, ident, next).1 <= Decide(prev, more, ident, next').1
  {
    hide IsKeyword, BeforeTables;
  }

  lemma AddedIsUnskipped(prev: char, skip: nat, ident: string, next: char)
    ensures Decide(prev, skip, ident, next).0 ==> Decide(prev, skip, ident, next).1 == 0
    ensures prev == '.' || next == '.' ==> !Decide(prev, skip, ident, next).0
  {
    hide IsKeyword, BeforeTables;
  }

  /** The split of a text at its first identifier. */
  lemma {:induction false} SplitIdent(s: string)
    requires s != "" && IdentStart(s[0])
    ensures var n := IdentLength(s);
      0 < n && IsIdent(s[..n]) && s == s[..n] + s[n..] && (s[n..] == "" || !IdentPart(s[n]))
  {
    IdentLengthParts(s);
    assert s[..IdentLength(s)][0] == s[0];
  }

  lemma {:induction false} IdentLengthParts(s: string)
    ensures forall i | 0 <= i < IdentLength(s) :: IdentPart(s[i])
    ensures IdentLength(s) < |s| ==> !IdentPart(s[IdentLength(s)])
  {
    if s != "" && IdentPart(s[0]) {
      IdentLengthParts(s[1..]);
      forall i | 0 <= i < IdentLength(s) ensures IdentPart(s[i]) {
        assert i > 0 ==> s[i] == s[1..][i - 1];
      }
    }
  }

  /** An inserted alias and the identifier behind it stay as they are. */
  lemma InsertedStays(alias: string, prev: char, more: nat, ident: string, y: string)
    returns (left: nat)
    requires IsIdent(alias) && IsIdent(ident) && (y == "" || !IdentPart(y[0]))
    ensures Qualified(alias, prev, Plain, more, alias + "." + ident + y)
         == alias + "." + ident + Qualified(alias, ident[|ident| - 1], Plain, left, y)
  {
    hide Decide, Qualified, IdentPart;
    var tail := ['.'] + (ident + y);
    assert NextNonSpace(tail) == '.';
    CharacterClasses();
    AtIdent(alias, prev, more, alias, tail);
    AddedIsUnskipped(prev, more, alias, '.');
    var skip := Decide(prev, more, alias, '.').1;
    AtOther(alias, alias[|alias| - 1], skip, '.', ident + y);
    AtIdent(alias, '.', skip, ident, y);
    AddedIsUnskipped('.', skip, ident, NextNonSpace(y));
    left := Decide('.', skip, ident, NextNonSpace(y)).1;
    assert alias + "." + ident + y == alias + tail;
    var rest := Qualified(alias, ident[|ident| - 1], Plain, left, y);
    assert alias + "." + ident + rest == "" + alias + (['.'] + ("" + ident + rest));
  }

  lemma CharacterClasses()
    ensures forall c :: IdentStart(c) ==> IdentPart(c)
    ensures !IdentPart('.') && !IsSpace('.') && Opened('.') == Plain
    ensures !IdentStart('.') && !IdentStart('\'') && !IdentStart('"')
  {
  }

  /** Rewriting what was rewritten changes nothing, even with more identifiers to skip. */
  lemma {:induction false} RewritingAgain(alias: string, prev: char, mode: Mode, skip: nat, more: nat, s: string)
    requires IsIdent(alias) && skip <= more
    ensures var out := Qualified(alias, prev, mode, skip, s); Qualified(alias, prev, mode, more, out) == out
    decreases |s|
  {
    hide Decide, Qualified, IsIdent, IdentStart, IdentPart;
    if s == "" {
      AtEnd(alias, prev, mode, skip);
      AtEnd(alias, prev, mode, more);
    } else if mode != Plain {
      QuotedAgain(alias, prev, mode, skip, more, s);
    } else if IdentStart(s[0]) {
      IdentAgain(alias, prev, skip, more, s);
    } else {
      assert s == [s[0]] + s[1..];
      AtOther(alias, prev, skip, s[0], s[1..]);
      RewritingAgain(alias, Seen(prev, s[0]), Opened(s[0]), skip, more, s[1..]);
      AtOther(alias, prev, more, s[0], Qualified(alias, Seen(prev, s[0]), Opened(s[0]), skip, s[1..]));
    }
  }

  lemma AtEnd(alias: string, prev: char, mode: Mode, skip: nat)
    ensures Qualified(alias, prev, mode, skip, "") == ""
  {
  }

  lemma {:induction false} QuotedAgain(alias: string, prev: char, mode: Mode, skip: nat, more: nat, s: string)
    requires IsIdent(alias) && skip <= more && s != "" && mode != Plain
    ensures var out := Qualified(alias, prev, mode, skip, s); Qualified(alias, prev, mode, more, out) == out
    decreases |s|, 0
  {
    hide Qualified, IsIdent, IdentStart, IdentPart;
    var q := QuoteOf(mode);
    if s[0] == q && |s| > 1 && s[1] == q {
      assert s == [q, q] + s[2..];
      AtQuotedPair(alias, prev, mode, skip, q, s[2..]);
      RewritingAgain(alias, q, mode, skip, more, s[2..]);
      AtQuotedPair(alias, prev, mode, more, q, Qualified(alias, q, mode, skip, s[2..]));
    } else {
      assert s == [s[0]] + s[1..];
      assert |s| > 1 ==> s[1] == s[1..][0];
      var mode' := if s[0] == q then Plain else mode;
      var rest := Qualified(alias, Seen(prev, s[0]), mode', skip, s[1..]);
      AtQuoted(alias, prev, mode, skip, s[0], s[1..]);
      RewritingAgain(alias, Seen(prev, s[0]), mode', skip, more, s[1..]);
      HeadKept(alias, Seen(prev, s[0]), mode', skip, s[1..]);
      CharacterClasses();
      AtQuoted(alias, prev, mode, more, s[0], rest);
    }
  }

  lemma {:induction false} IdentAgain(alias: string, prev: char, skip: nat, more: nat, s: string)
    requires IsIdent(alias) && skip <= more && s != "" && IdentStart(s[0])
    ensures var out := Qualified(alias, prev, Plain, skip, s); Qualified(alias, prev, Plain, more, out) == out
    decreases |s|, 0
  {
    hide Decide, Qualified, IsIdent, IdentStart, IdentPart, NextNonSpace, IdentLength;
    SplitIdent(s);
    var n := IdentLength(s);
    var ident, y, next := s[..n], s[n..], NextNonSpace(s[n..]);
    var skip' := Decide(prev, skip, ident, next).1;
    var rest := Qualified(alias, s[n - 1], Plain, skip', y);
    AtIdent(alias, prev, skip, ident, y);
    HeadKept(alias, s[n - 1], Plain, skip', y);
    CharacterClasses();
    AddedIsUnskipped(prev, skip, ident, next);
    if Decide(prev, skip, ident, next).0 {
      var left := InsertedStays(alias, prev, more, ident, rest);
      RewritingAgain(alias, s[n - 1], Plain, skip', left, y);
    } else {
      NextKept(alias, s[n - 1], skip', y);
      LeftAloneAgain(prev, skip, more, ident, next, NextNonSpace(rest));
      AtIdent(alias, prev, more, ident, rest);
      RewritingAgain(alias, s[n - 1], Plain, skip', Decide(prev, more, ident, NextNonSpace(rest)).1, y);
      assert "" + ident + rest == ident + rest;
    }
  }

  // ----- the loop -----

  predicate AllBlank(s: string) {
    forall i | 0 <= i < |s| :: IsSpace(s[i])
  }

  lemma {:induction false} NothingToQualify(alias: string, prev: char, skip: nat, s: string)
    requires AllBlank(s)
    ensures Qualified(alias, prev, Plain, skip, s) == s
  {
    if s != "" {
      assert IsSpace(s[0]);
      NothingToQualify(alias, prev, skip, s[1..]);
    }
  }

  /** qualifyBareIdentifiers of an expression. */
  function Output(expr: string, alias: string): string {
    if alias == "" then expr else Qualified(alias, NONE, Plain, 0, expr)
  }

  /** The alias is put before the column names, and before nothing else. */
  lemma QualifiesColumnsExactly(expr: string, alias: string) returns (marks: seq<bool>)
    ensures alias == "" ==> Output(expr, alias) == expr
    ensures |marks| == |Pieces(Plain, expr)|
    ensures forall i | 0 <= i < |marks| :: marks[i] <==> IsColumnName(Pieces(Plain, expr), i)
    ensures alias != "" ==> Output(expr, alias) == Rendered(alias, Pieces(Plain, expr), marks)
  {
    hide IsColumnName, Qualified;
    marks := QualifiedExactly(alias, [], NONE, Plain, 0, expr);
    assert [] + Pieces(Plain, expr) == Pieces(Plain, expr);
  }

  /** Qualifying is idempotent for every alias that is an identifier, keyword or not. */
  lemma QualifyingIsIdempotent(expr: string, alias: string)
    requires alias == "" || IsIdent(alias)
    ensures Output(Output(expr, alias), alias) == Output(expr, alias)
  {
    if alias != "" {
      RewritingAgain(alias, NONE, Plain, 0, 0, expr);
    }
  }

  method FindPrev(s: string, idx: int) returns (c: char)
    requires -1 <= idx < |s|
    ensures c == PrevNonSpace(s[..idx + 1])
  {
    var i := idx;
    while i >= 0
      invariant -1 <= i <= idx && PrevNonSpace(s[..i + 1]) == PrevNonSpace(s[..idx + 1])
    {
      assert s[..i + 1][..i] == s[..i];
      if !IsSpace(s[i]) {
        return s[i];
      }
      i := i - 1;
    }
    return NONE;
  }

  method FindNext(s: string, idx: nat) returns (c: char)
    requires idx <= |s|
    ensures c == NextNonSpace(s[idx..])
  {
    for i := idx to |s|
      invariant NextNonSpace(s[i..]) == NextNonSpace(s[idx..])
    {
      assert s[i..][0] == s[i] && s[i..][1..] == s[i + 1..];
      if !IsSpace(s[i]) {
        return s[i];
      }
    }
    return NONE;
  }

  method ReadIdent(expr: string, start: nat) returns (i: nat)
    requires start < |expr| && IdentStart(expr[start])
    ensures start < i <= |expr| && i == start + IdentLength(expr[start..])
  {
    i := start + 1;
    assert expr[start..][0] == expr[start] && expr[start..][1..] == expr[start + 1..];
    while i < |expr| && IdentPart(expr[i])
      invariant start < i <= |expr| && i + IdentLength(expr[i..]) == start + IdentLength(expr[start..])
    {
      assert expr[i..][0] == expr[i] && expr[i..][1..] == expr[i + 1..];
      i := i + 1;
    }
  }

  /** The rewriting of the rest of `expr` from `i` on. */
  function From(alias: string, expr: string, i: nat, mode: Mode, skip: nat): string
    requires i <= |expr|
  {
    Qualified(alias, PrevNonSpace(expr[..i]), mode, skip, expr[i..])
  }

  lemma PrevOfNext(expr: string, i: nat)
    requires i < |expr|
    ensures PrevNonSpace(expr[..i + 1]) == Seen(PrevNonSpace(expr[..i]), expr[i])
    ensures expr[i..] == [expr[i]] + expr[i + 1..]
  {
    assert expr[..i + 1][..i] == expr[..i];
  }

  lemma FromPair(alias: string, expr: string, i: nat, mode: Mode, skip: nat)
    requires i + 1 < |expr| && mode != Plain && expr[i] == QuoteOf(mode) && expr[i + 1] == QuoteOf(mode)
    ensures From(alias, expr, i, mode, skip) == expr[i..i + 2] + From(alias, expr, i + 2, mode, skip)
  {
    hide Qualified;
    var q := expr[i];
    PrevOfNext(expr, i + 1);
    assert expr[i..] == [q, q] + expr[i + 2..] && expr[i..i + 2] == [q, q];
    AtQuotedPair(alias, PrevNonSpace(expr[..i]), mode, skip, q, expr[i + 2..]);
  }

  lemma FromQuoted(alias: string, expr: string, i: nat, mode: Mode, skip: nat)
    requires i < |expr| && mode != Plain
    requires !(expr[i] == QuoteOf(mode) && i + 1 < |expr| && expr[i + 1] == QuoteOf(mode))
    ensures From(alias, expr, i, mode, skip)
         == [expr[i]] + From(alias, expr, i + 1, if expr[i] == QuoteOf(mode) then Plain else mode, skip)
  {
    hide Qualified;
    PrevOfNext(expr, i);
    assert expr[i + 1..] != "" ==> expr[i + 1..][0] == expr[i + 1];
    AtQuoted(alias, PrevNonSpace(expr[..i]), mode, skip, expr[i], expr[i + 1..]);
  }

  lemma FromOther(alias: string, expr: string, i: nat, skip: nat)
    requires i < |expr| && !IdentStart(expr[i])
    ensures From(alias, expr, i, Plain, skip) == [expr[i]] + From(alias, expr, i + 1, Opened(expr[i]), skip)
  {
    hide Qualified, IdentStart;
    PrevOfNext(expr, i);
    AtOther(alias, PrevNonSpace(expr[..i]), skip, expr[i], expr[i + 1..]);
  }

  lemma FromIdent(alias: string, expr: string, start: nat, i: nat, skip: nat)
    requires start < |expr| && IdentStart(expr[start]) && i == start + IdentLength(expr[start..])
    ensures start < i <= |expr|
    ensures var (add, skipNext) := Decide(PrevNonSpace(expr[..start]), skip, expr[start..i], NextNonSpace(expr[i..]));
      From(alias, expr, start, Plain, skip)
      == (if add then alias + "." else "") + expr[start..i] + From(alias, expr, i, Plain, skipNext)
  {
    hide Qualified, IdentStart, IdentPart, Decide;
    var s, n := expr[start..], i - start;
    SplitIdent(s);
    assert s[..n] == expr[start..i] && s[n..] == expr[i..];
    AtIdent(alias, PrevNonSpace(expr[..start]), skip, s[..n], s[n..]);
    PrevOfNext(expr, i - 1);
    IdentIsNoSpace(s[..n], n - 1);
  }

  lemma IdentIsNoSpace(ident: string, i: nat)
    requires IsIdent(ident) && i < |ident|
    ensures !IsSpace(ident[i])
  {
    assert IdentPart(ident[i]);
  }

  method QualifyBareIdentifiers(expr: string, alias: string) returns (b: string)
    ensures b == Output(expr, alias)
  {
    hide From, Qualified, IsKeyword, BeforeTables, Blocked, IdentStart;
    if alias == "" || AllBlank(expr) {
      if AllBlank(expr) {
        NothingToQualify(alias, NONE, 0, expr);
      }
      return expr;
    }
    b := "";
    var inSingle, inDouble, skipNext: nat, i := false, false, 0, 0;
    FromStart(alias, expr);
    while i < |expr|
      invariant i <= |expr| && !(inSingle && inDouble)
      invariant b + From(alias, expr, i, ModeOf(inSingle, inDouble), skipNext) == Qualified(alias, NONE, Plain, 0, expr)
    {
      var ch := expr[i];
      if inSingle || inDouble {
        var mode := ModeOf(inSingle, inDouble);
        if ch == QuoteOf(mode) && i + 1 < |expr| && expr[i + 1] == ch {
          FromPair(alias, expr, i, mode, skipNext);
          Regroup(b, expr[i..i + 2], From(alias, expr, i + 2, mode, skipNext));
          b, i := b + expr[i..i + 2], i + 2;
        } else {
          FromQuoted(alias, expr, i, mode, skipNext);
          Regroup(b, [ch], From(alias, expr, i + 1, if ch == QuoteOf(mode) then Plain else mode, skipNext));
          b, i := b + [ch], i + 1;
          inSingle, inDouble := inSingle && ch != '\'', inDouble && ch != '"';
        }
      } else if IdentStart(ch) {
        var end := ReadIdent(expr, i);
        FromIdent(alias, expr, i, end, skipNext);
        var add;
        add, skipNext := DecideIdent(expr, i, end, skipNext);
        var written := (if add then alias + "." else "") + expr[i..end];
        Regroup(b, written, From(alias, expr, end, Plain, skipNext));
        b, i := b + written, end;
      } else {
        FromOther(alias, expr, i, skipNext);
        Regroup(b, [ch], From(alias, expr, i + 1, Opened(ch), skipNext));
        b, i := b + [ch], i + 1;
        inSingle, inDouble := ch == '\'', ch == '"';
      }
    }
    FromEnd(alias, expr, ModeOf(inSingle, inDouble), skipNext);
    assert b + "" == b;
  }

  function ModeOf(inSingle: bool, inDouble: bool): Mode {
    if inSingle then Single else if inDouble then Double else Plain
  }

  lemma Regroup(a: string, b: string, c: string)
    ensures a + (b + c) == a + b + c
  {
  }

  lemma FromStart(alias: string, expr: string)
    ensures "" + From(alias, expr, 0, Plain, 0) == Qualified(alias, NONE, Plain, 0, expr)
  {
    assert expr[0..] == expr && expr[..0] == "";
  }

  lemma FromEnd(alias: string, expr: string, mode: Mode, skip: nat)
    ensures From(alias, expr, |expr|, mode, skip) == ""
  {
  }

  /** The tests on one identifier, in their order. */
  method DecideIdent(expr: string, start: nat, end: nat, skip: nat) returns (add: bool, skipNext: nat)
    requires start < end <= |expr|
    ensures (add, skipNext) == Decide(PrevNonSpace(expr[..start]), skip, expr[start..end], NextNonSpace(expr[end..]))
  {
    hide IsKeyword, BeforeTables;
    var ident := expr[start..end];
    skipNext := if BeforeTables(ident) then 2 else skip;
    if IsKeyword(ident) {
      return false, skipNext;
    }
    if skipNext > 0 {
      return false, skipNext - 1;
    }
    var prev := FindPrev(expr, start - 1);
    var next := FindNext(expr, end);
    return !Blocked(prev, next), 0;
  }
}
