/** The canonical JSON text that keys the alias cache (internal/model/alias_cache.go:118-221). */
module CanonicalText {
  import PathOrder
  import FiniteOrder

  /** A number is its text; Go strings are taken as sequences of Unicode characters. */
  datatype Json =
    | JNull
    | JBool(value: bool)
    | JString(text: string)
    | JNumber(number: string)
    | JArray(items: seq<Json>)
    | JObject(members: map<string, Json>)

  predicate IsNumberChar(c: char) {
    '0' <= c <= '9' || c == '-' || c == '+' || c == '.' || c == 'e' || c == 'E'
  }

  predicate IsNumber(s: string) {
    s != "" && ('0' <= s[0] <= '9' || s[0] == '-') && forall i | 0 <= i < |s| :: IsNumberChar(s[i])
  }

  /** Every number is written with the characters of section 6 of RFC 8259. */
  ghost predicate WellFormed(j: Json) {
    match j
    case JNumber(s) => IsNumber(s)
    case JArray(items) => forall i | 0 <= i < |items| :: WellFormed(items[i])
    case JObject(members) => forall k <- members :: WellFormed(members[k])
    case _ => true
  }

  // ----- strings, as json.Marshal writes them -----

  function HexDigit(n: nat): char
    requires n < 16
  {
    if n < 10 then '0' + n as char else 'a' + (n - 10) as char
  }

  function Escape(c: char): (e: string)
    ensures e != ""
  {
    if c == '"' || c == '\\' then ['\\', c]
    else if c == '\n' then "\\n"
    else if c == '\r' then "\\r"
    else if c == '\t' then "\\t"
    else if c == '\U{0008}' then "\\b"
    else if c == '\U{000c}' then "\\f"
    else if c < ' ' || c == '<' || c == '>' || c == '&'
      then "\\u00" + [HexDigit(c as int / 16), HexDigit(c as int % 16)]
    else if c == '\U{2028}' then "\\u2028"
    else if c == '\U{2029}' then "\\u2029"
    else [c]
  }

  function Escaped(s: string): string {
    if s == "" then "\"" else Escape(s[0]) + Escaped(s[1..])
  }

  function Quoted(s: string): string {
    "\"" + Escaped(s)
  }

  lemma HexInjective(a: nat, b: nat)
    requires a < 16 && b < 16 && HexDigit(a) == HexDigit(b)
    ensures a == b
  {
  }

  /** No escape is the beginning of another one or of the closing quote. */
  lemma EscapeIsPrefixCode(c: char, d: char, x: string, y: string)
    requires Escape(c) + x == Escape(d) + y
    ensures c == d && x == y
  {
    hide Escape;
    EscapeShape(c);
    EscapeShape(d);
    var e, f := Escape(c), Escape(d);
    assert (e + x)[0] == e[0] && (f + y)[0] == f[0];
    if e[0] == '\\' {
      assert (e + x)[1] == e[1] && (f + y)[1] == f[1];
    }
    assert |e| == |f|;
    assert e == (e + x)[..|e|] && f == (f + y)[..|e|] && x == (e + x)[|e|..] && y == (f + y)[|e|..];
    EscapeIsInjective(c, d);
  }

  /** The first two characters tell how long an escape is. */
  lemma EscapeShape(c: char)
    ensures var e := Escape(c);
      if e[0] != '\\' then e == [c] else |e| >= 2 && |e| == if e[1] == 'u' then 6 else 2
  {
  }

  lemma EscapeIsInjective(c: char, d: char)
    requires Escape(c) == Escape(d)
    ensures c == d
  {
    var e := Escape(c);
    if |e| == 2 {
      assert e[1] == Escape(d)[1];
    } else if |e| == 6 {
      SameUnicodeEscape(c, d);
    } else {
      assert e == [c] && Escape(d) == [d];
    }
  }

  lemma SameUnicodeEscape(c: char, d: char)
    requires |Escape(c)| == 6 && |Escape(d)| == 6
    requires forall i | 0 <= i < 6 :: Escape(c)[i] == Escape(d)[i]
    ensures c == d
  {
    var e, f := Escape(c), Escape(d);
    assert e[4] == f[4] && e[5] == f[5] && e[2] == f[2];
    if e[2] == '0' {
      HexInjective(c as int / 16, d as int / 16);
      HexInjective(c as int % 16, d as int % 16);
      assert c as int == d as int;
    }
  }

  lemma EscapeIsNoQuote(c: char, x: string)
    ensures (Escape(c) + x)[0] != '"'
  {
  }

  lemma {:induction false} EscapedDecodes(a: string, b: string, x: string, y: string)
    requires Escaped(a) + x == Escaped(b) + y
    ensures a == b && x == y
  {
    hide Escape, Escaped;
    EscapedUnfolds(a, x);
    EscapedUnfolds(b, y);
    if a != "" && b != "" {
      EscapeIsPrefixCode(a[0], b[0], Escaped(a[1..]) + x, Escaped(b[1..]) + y);
      EscapedDecodes(a[1..], b[1..], x, y);
      assert a == [a[0]] + a[1..] && b == [b[0]] + b[1..];
    } else if a == b {
      assert x == (['"'] + x)[1..] && y == (['"'] + y)[1..];
    } else {
      var c, rest := if a == "" then b[0] else a[0], if a == "" then Escaped(b[1..]) + y else Escaped(a[1..]) + x;
      EscapeIsNoQuote(c, rest);
    }
  }

  lemma EscapedUnfolds(a: string, x: string)
    ensures Escaped(a) + x == if a == "" then ['"'] + x else Escape(a[0]) + (Escaped(a[1..]) + x)
  {
    hide Escape;
  }

  // ----- values -----

  ghost function SortedKeys(m: map<string, Json>): (keys: seq<string>)
    ensures forall k :: k in keys <==> k in m
    ensures forall i, j | 0 <= i < j < |keys| :: keys[i] != keys[j]
  {
    PathOrder.TextLessIsStrictTotal();
    var keys := FiniteOrder.Sorted(PathOrder.TextLess, m.Keys);
    assert forall k :: k in keys <==> k in FiniteOrder.Elements(keys);
    keys
  }

  /** encodeCanonical */
  ghost function Text(j: Json): string
    decreases j, 1, 0
  {
    match j
    case JNull => "null"
    case JBool(b) => if b then "true" else "false"
    case JString(s) => Quoted(s)
    case JNumber(s) => s
    case JArray(items) => "[" + ItemsText(j, 0)
    case JObject(m) => "{" + MembersText(j, SortedKeys(m), 0)
  }

  function Comma(i: nat): string {
    if i > 0 then "," else ""
  }

  /** The items from `i` on, and the closing bracket. */
  ghost function ItemsText(j: Json, i: nat): string
    requires j.JArray?
    decreases j, 0, |j.items| - i
  {
    if i >= |j.items| then "]" else Comma(i) + Text(j.items[i]) + ItemsText(j, i + 1)
  }

  ghost function MembersText(j: Json, keys: seq<string>, i: nat): string
    requires j.JObject? && forall k <- keys :: k in j.members
    decreases j, 0, |keys| - i
  {
    if i >= |keys| then "}"
    else Comma(i) + Quoted(keys[i]) + ":" + Text(j.members[keys[i]]) + MembersText(j, keys, i + 1)
  }

  // ----- unique decodability -----

  /** What can follow a value inside a text. */
  predicate Delimited(x: string) {
    x == "" || x[0] == ',' || x[0] == ']' || x[0] == '}'
  }

  lemma SameLength(a: string, x: string, b: string, y: string)
    requires a + x == b + y && |a| == |b|
    ensures a == b && x == y
  {
    assert a == (a + x)[..|a|] && b == (b + y)[..|b|] && x == (a + x)[|a|..] && y == (b + y)[|b|..];
  }

  lemma NumberEnds(a: string, x: string, b: string, y: string)
    requires IsNumber(a) && IsNumber(b) && Delimited(x) && Delimited(y) && a + x == b + y
    ensures |a| <= |b|
  {
    assert forall i | 0 <= i < |a| :: IsNumberChar((a + x)[i]);
    assert (b + y)[|b|..] == y;
  }

  /** The first character tells the kind of a value. */
  function Initial(j: Json): char
    requires j.JNumber? ==> j.number != ""
  {
    match j
    case JNull => 'n'
    case JBool(b) => if b then 't' else 'f'
    case JString(_) => '"'
    case JNumber(s) => s[0]
    case JArray(_) => '['
    case JObject(_) => '{'
  }

  lemma TextStarts(j: Json, x: string)
    requires WellFormed(j)
    ensures Text(j) != "" && (Text(j) + x)[0] == Initial(j)
  {
    hide ItemsText, MembersText, Escaped;
  }

  lemma TextUnfolds(j: Json, x: string)
    ensures j.JString? ==> Text(j) + x == ['"'] + (Escaped(j.text) + x)
    ensures j.JNumber? ==> Text(j) == j.number
    ensures j.JArray? ==> Text(j) + x == ['['] + (ItemsText(j, 0) + x)
    ensures j.JObject? ==> Text(j) + x == ['{'] + (MembersText(j, SortedKeys(j.members), 0) + x)
    ensures j.JNull? || j.JBool? ==> |Text(j)| == if j == JBool(false) then 5 else 4
  {
    hide ItemsText, MembersText, Escaped;
  }

  lemma ItemsUnfold(j: Json, i: nat, x: string)
    requires j.JArray? && i <= |j.items|
    ensures ItemsText(j, i) + x
         == if i == |j.items| then [']'] + x else Comma(i) + (Text(j.items[i]) + (ItemsText(j, i + 1) + x))
    ensures i > 0 ==> Delimited(ItemsText(j, i) + x)
  {
    hide Text;
  }

  lemma MembersUnfold(j: Json, keys: seq<string>, i: nat, x: string)
    requires j.JObject? && (forall k <- keys :: k in j.members) && i <= |keys|
    ensures MembersText(j, keys, i) + x
         == if i == |keys| then ['}'] + x
            else Comma(i) + (['"'] + (Escaped(keys[i])
                 + ([':'] + (Text(j.members[keys[i]]) + (MembersText(j, keys, i + 1) + x)))))
    ensures i > 0 ==> Delimited(MembersText(j, keys, i) + x)
  {
    hide Text, Escaped;
  }

  lemma {:induction false} TextDecodes(v: Json, w: Json, x: string, y: string)
    requires WellFormed(v) && WellFormed(w) && Delimited(x) && Delimited(y) && Text(v) + x == Text(w) + y
    ensures v == w && x == y
    decreases v, 1, 0
  {
    hide Text, Escaped, ItemsText, MembersText;
    TextStarts(v, x);
    TextStarts(w, y);
    hide Initial;
    TextUnfolds(v, x);
    TextUnfolds(w, y);
    match v
    case JString(s) =>
      SameLength(['"'], Escaped(s) + x, ['"'], Escaped(w.text) + y);
      EscapedDecodes(s, w.text, x, y);
    case JNumber(s) =>
      NumberEnds(s, x, w.number, y);
      NumberEnds(w.number, y, s, x);
      SameLength(s, x, w.number, y);
    case JArray(items) =>
      SameLength(['['], ItemsText(v, 0) + x, ['['], ItemsText(w, 0) + y);
      ItemsDecode(v, w, 0, x, y);
      assert items[0..] == items && w.items[0..] == w.items;
    case JObject(_) =>
      var ks, ls := SortedKeys(v.members), SortedKeys(w.members);
      SameLength(['{'], MembersText(v, ks, 0) + x, ['{'], MembersText(w, ls, 0) + y);
      MembersDecode(v, ks, w, ls, 0, x, y);
      SameMembers(v.members, w.members);
    case _ =>
      SameLength(Text(v), x, Text(w), y);
  }

  lemma SameMembers(m: map<string, Json>, n: map<string, Json>)
    requires var ks, ls := SortedKeys(m), SortedKeys(n);
      |ks| == |ls| && forall i | 0 <= i < |ks| :: ks[i] == ls[i] && m[ks[i]] == n[ls[i]]
    ensures m == n
  {
    hide SortedKeys;
    var ks, ls := SortedKeys(m), SortedKeys(n);
    forall k ensures k in m <==> k in n {
      assert k in ks <==> k in ls;
    }
    forall k <- m ensures m[k] == n[k] {
      assert k in ks;
    }
  }

  lemma {:induction false} ItemsDecode(v: Json, w: Json, i: nat, x: string, y: string)
    requires v.JArray? && w.JArray? && WellFormed(v) && WellFormed(w) && i <= |v.items| && i <= |w.items|
    requires Delimited(x) && Delimited(y) && ItemsText(v, i) + x == ItemsText(w, i) + y
    ensures v.items[i..] == w.items[i..] && x == y
    decreases v, 0, |v.items| - i
  {
    hide Text, ItemsText, Comma, Delimited;
    ItemsUnfold(v, i, x);
    ItemsUnfold(w, i, y);
    if i == |v.items| && i == |w.items| {
      SameLength([']'], x, [']'], y);
    } else if i < |v.items| && i < |w.items| {
      var s, t := ItemsText(v, i + 1) + x, ItemsText(w, i + 1) + y;
      SameLength(Comma(i), Text(v.items[i]) + s, Comma(i), Text(w.items[i]) + t);
      ItemsUnfold(v, i + 1, x);
      ItemsUnfold(w, i + 1, y);
      TextDecodes(v.items[i], w.items[i], s, t);
      ItemsDecode(v, w, i + 1, x, y);
      assert v.items[i..] == [v.items[i]] + v.items[i + 1..] && w.items[i..] == [w.items[i]] + w.items[i + 1..];
    } else if i < |v.items| {
      MoreItems(v, i, x, y);
    } else {
      MoreItems(w, i, y, x);
    }
  }

  lemma MoreItems(v: Json, i: nat, x: string, y: string)
    requires v.JArray? && WellFormed(v) && i < |v.items|
    ensures ItemsText(v, i) + x != [']'] + y
  {
    hide Text, ItemsText;
    ItemsUnfold(v, i, x);
    TextStarts(v.items[i], ItemsText(v, i + 1) + x);
    assert ([']'] + y)[0] == ']';
  }

  lemma {:induction false} MembersDecode(v: Json, ks: seq<string>, w: Json, ls: seq<string>, i: nat, x: string,
                                         y: string)
    requires v.JObject? && w.JObject? && WellFormed(v) && WellFormed(w) && i <= |ks| && i <= |ls|
    requires (forall k <- ks :: k in v.members) && (forall k <- ls :: k in w.members)
    requires Delimited(x) && Delimited(y) && MembersText(v, ks, i) + x == MembersText(w, ls, i) + y
    ensures |ks| == |ls| && x == y
    ensures forall n | i <= n < |ks| :: ks[n] == ls[n] && v.members[ks[n]] == w.members[ls[n]]
    decreases v, 0, |ks| - i
  {
    hide Text, MembersText, Escaped, Comma, Delimited;
    MembersUnfold(v, ks, i, x);
    MembersUnfold(w, ls, i, y);
    if i == |ks| && i == |ls| {
      SameLength(['}'], x, ['}'], y);
    } else if i < |ks| && i < |ls| {
      var s, t := MembersText(v, ks, i + 1) + x, MembersText(w, ls, i + 1) + y;
      var a, b := v.members[ks[i]], w.members[ls[i]];
      MemberDecodes(i, ks[i], Text(a) + s, ls[i], Text(b) + t);
      MembersUnfold(v, ks, i + 1, x);
      MembersUnfold(w, ls, i + 1, y);
      TextDecodes(a, b, s, t);
      MembersDecode(v, ks, w, ls, i + 1, x, y);
    } else if i < |ks| {
      MoreMembers(v, ks, i, x, y);
    } else {
      MoreMembers(w, ls, i, y, x);
    }
  }

  lemma MemberDecodes(i: nat, k: string, s: string, l: string, t: string)
    requires Comma(i) + (['"'] + (Escaped(k) + ([':'] + s))) == Comma(i) + (['"'] + (Escaped(l) + ([':'] + t)))
    ensures k == l && s == t
  {
    hide Escaped;
    SameLength(Comma(i), ['"'] + (Escaped(k) + ([':'] + s)), Comma(i), ['"'] + (Escaped(l) + ([':'] + t)));
    SameLength(['"'], Escaped(k) + ([':'] + s), ['"'], Escaped(l) + ([':'] + t));
    EscapedDecodes(k, l, [':'] + s, [':'] + t);
    SameLength([':'], s, [':'], t);
  }

  lemma MoreMembers(v: Json, ks: seq<string>, i: nat, x: string, y: string)
    requires v.JObject? && (forall k <- ks :: k in v.members) && i < |ks|
    ensures MembersText(v, ks, i) + x != ['}'] + y
  {
    hide Text, MembersText, Escaped;
    MembersUnfold(v, ks, i, x);
    assert (['}'] + y)[0] == '}';
  }

  /** Equal texts, equal values. */
  lemma CanonicalTextIsInjective(v: Json, w: Json)
    requires WellFormed(v) && WellFormed(w)
    ensures Text(v) == Text(w) <==> v == w
  {
    if Text(v) == Text(w) {
      assert Text(v) + "" == Text(w) + "";
      TextDecodes(v, w, "", "");
    }
  }

  // ----- the encoder -----

  /** json.Marshal of a string. */
  method MarshalString(s: string) returns (r: string)
    ensures r == Quoted(s)
  {
    r := "\"";
    for i := 0 to |s|
      invariant r + Escaped(s[i..]) == Quoted(s)
    {
      hide Escape;
      assert s[i..][0] == s[i] && s[i..][1..] == s[i + 1..];
      assert r + Escaped(s[i..]) == r + Escape(s[i]) + Escaped(s[i + 1..]);
      r := r + Escape(s[i]);
    }
    r := r + "\"";
  }

  /** sort.Strings over the keys of a Go map, which come in any order. */
  method SortKeys(keys: set<string>) returns (sorted: seq<string>)
    ensures forall m: map<string, Json> :: m.Keys == keys ==> sorted == SortedKeys(m)
  {
    hide PathOrder.TextLess;
    PathOrder.TextLessIsStrictTotal();
    sorted := FiniteOrder.CollectAndSort(PathOrder.TextLess, keys);
  }

  /** encodeCanonical, writing to the builder `b`. */
  method EncodeCanonical(b: string, value: Json) returns (r: string)
    ensures r == b + Text(value)
    decreases value, 1
  {
    hide Escaped, ItemsText, MembersText;
    match value
    case JNull =>
      r := b + "null";
    case JBool(v) =>
      r := b + if v then "true" else "false";
    case JString(s) =>
      var enc := MarshalString(s);
      r := b + enc;
    case JNumber(s) =>
      r := b + s;
    case JArray(_) =>
      r := EncodeItems(b + "[", value);
      assert r == b + ("[" + ItemsText(value, 0));
    case JObject(_) =>
      r := EncodeMembers(b + "{", value);
      assert r == b + ("{" + MembersText(value, SortedKeys(value.members), 0));
  }

  method EncodeItems(b: string, value: Json) returns (r: string)
    requires value.JArray?
    ensures r == b + ItemsText(value, 0)
    decreases value, 0
  {
    hide Text, ItemsText;
    var items := value.items;
    r := b;
    for i := 0 to |items|
      invariant r + ItemsText(value, i) == b + ItemsText(value, 0)
    {
      ItemsStep(r, value, i);
      if i > 0 {
        r := r + ",";
      }
      r := EncodeCanonical(r, items[i]);
    }
    ItemsUnfold(value, |items|, "");
    assert ItemsText(value, |items|) + "" == ItemsText(value, |items|);
    r := r + "]";
  }

  method EncodeMembers(b: string, value: Json) returns (r: string)
    requires value.JObject?
    ensures r == b + MembersText(value, SortedKeys(value.members), 0)
    decreases value, 0
  {
    hide Text, MembersText, Quoted;
    var keys := SortKeys(value.members.Keys);
    r := b;
    for i := 0 to |keys|
      invariant r + MembersText(value, keys, i) == b + MembersText(value, keys, 0)
    {
      MembersStep(r, value, keys, i);
      if i > 0 {
        r := r + ",";
      }
      var enc := MarshalString(keys[i]);
      r := EncodeCanonical(r + enc + ":", value.members[keys[i]]);
    }
    MembersUnfold(value, keys, |keys|, "");
    assert MembersText(value, keys, |keys|) + "" == MembersText(value, keys, |keys|);
    r := r + "}";
  }

  lemma ItemsStep(b: string, j: Json, i: nat)
    requires j.JArray? && i < |j.items|
    ensures var written := (if i > 0 then b + "," else b) + Text(j.items[i]);
      written + ItemsText(j, i + 1) == b + ItemsText(j, i)
  {
    hide Text;
    var text, rest := Text(j.items[i]), ItemsText(j, i + 1);
    assert b + "" == b && b + Comma(i) + text + rest == b + (Comma(i) + text + rest);
  }

  lemma MembersStep(b: string, j: Json, keys: seq<string>, i: nat)
    requires j.JObject? && (forall k <- keys :: k in j.members) && i < |keys|
    ensures var written := (if i > 0 then b + "," else b) + Quoted(keys[i]) + ":" + Text(j.members[keys[i]]);
      written + MembersText(j, keys, i + 1) == b + MembersText(j, keys, i)
  {
    hide Text, Quoted;
    Regroup(b, Comma(i), Quoted(keys[i]), Text(j.members[keys[i]]), MembersText(j, keys, i + 1));
    assert b + "" == b;
  }

  lemma Regroup(b: string, comma: string, key: string, value: string, rest: string)
    ensures b + comma + key + ":" + value + rest == b + (comma + key + ":" + value + rest)
  {
  }

  // ----- the cache key -----

  /** What aliasCacheKey encodes: the preset name is "none" without a preset and "custom" for an unnamed one. */
  function Payload(model: string, presetName: string, filters: map<string, Json>, sorts: seq<string>): Json {
    JObject(map["model" := JString(model), "preset" := JString(presetName), "filters" := JObject(filters),
                "sorts" := JArray(seq(|sorts|, i requires 0 <= i < |sorts| => JString(sorts[i])))])
  }

  /** Equal texts before hashing, equal requests. */
  lemma KeyTextTellsTheRequest(m: string, p: string, f: map<string, Json>, s: seq<string>,
                               m': string, p': string, f': map<string, Json>, s': seq<string>)
    requires (forall k <- f :: WellFormed(f[k])) && forall k <- f' :: WellFormed(f'[k])
    requires Text(Payload(m, p, f, s)) == Text(Payload(m', p', f', s'))
    ensures m == m' && p == p' && f == f' && s == s'
  {
    hide Text;
    var v, w := Payload(m, p, f, s), Payload(m', p', f', s');
    CanonicalTextIsInjective(v, w);
    assert v.members["model"] == w.members["model"] && v.members["preset"] == w.members["preset"];
    assert v.members["filters"] == w.members["filters"];
    var a, b := v.members["sorts"].items, w.members["sorts"].items;
    assert a == b;
    forall i | 0 <= i < |s| ensures s[i] == s'[i] {
      assert a[i] == JString(s[i]) && b[i] == JString(s'[i]);
    }
  }
}
