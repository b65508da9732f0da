/** The backward chunked reader behind the log endpoint (internal/router/logs.go).
    Reading a file from its end in chunks must give the same entries as splitting the
    whole file into lines and keeping the last ones that match. */
module LogTail {
  import opened Common

  newtype byte = x: int | 0 <= x < 256
  type Bytes = seq<byte>

  const NEWLINE: byte := 10
  const DEFAULT_BUFFER: nat := 4096

  /** bytes.Split(s, "\n"): never empty, the pieces contain no newline. */
  function Split(s: Bytes): (lines: seq<Bytes>)
    ensures |lines| >= 1
  {
    if s == [] then [[]] else Glue(s[0], Split(s[1..]))
  }

  /** Puts one more byte in front of a list of lines. */
  function Glue(b: byte, lines: seq<Bytes>): (r: seq<Bytes>)
    requires |lines| >= 1
    ensures |r| >= 1
  {
    if b == NEWLINE then [[]] + lines else [[b] + lines[0]] + lines[1..]
  }

  lemma GlueFront(b: byte, front: seq<Bytes>, back: seq<Bytes>)
    requires |front| >= 1
    ensures Glue(b, front + back) == Glue(b, front) + back
  {
    assert (front + back)[1..] == front[1..] + back;
  }

  function Unsplit(lines: seq<Bytes>): Bytes
    requires |lines| >= 1
  {
    if |lines| == 1 then lines[0] else lines[0] + [NEWLINE] + Unsplit(lines[1..])
  }

  /** Split is the inverse of joining newline-free pieces with newlines. */
  lemma {:induction false} SplitThenJoin(s: Bytes)
    ensures Unsplit(Split(s)) == s
    ensures forall i | 0 <= i < |Split(s)| :: NEWLINE !in Split(s)[i]
  {
    if s != [] {
      SplitThenJoin(s[1..]);
      var rest := Split(s[1..]);
      if s[0] == NEWLINE {
        assert ([[]] + rest)[1..] == rest;
        assert Unsplit(Split(s)) == [] + [NEWLINE] + Unsplit(rest);
      } else {
        var lines := [[s[0]] + rest[0]] + rest[1..];
        assert lines[1..] == rest[1..];
        assert Unsplit(lines) == [s[0]] + Unsplit(rest);
      }
    }
  }

  predicate IsSpace(b: byte) {
    b == 32 || 9 <= b <= 13
  }

  function TrimSpace(s: Bytes): Bytes {
    if s == [] then []
    else if IsSpace(s[0]) then TrimSpace(s[1..])
    else if IsSpace(s[|s| - 1]) then TrimSpace(s[..|s| - 1])
    else s
  }

  /** parseLogLine: a blank line never matches; `decode` stands for JSON decoding
      together with the level, message, key and value filters. */
  function ParseLogLine<E>(line: Bytes, decode: Bytes -> Option<E>): Option<E> {
    var trimmed := TrimSpace(line);
    if trimmed == [] then None else decode(trimmed)
  }

  function Hit<E>(line: Bytes, decode: Bytes -> Option<E>): seq<E> {
    match ParseLogLine(line, decode)
    case None => []
    case Some(e) => [e]
  }

  /** The entries of the matching lines, in file order. */
  function Matching<E>(lines: seq<Bytes>, decode: Bytes -> Option<E>): seq<E> {
    if lines == [] then [] else Hit(lines[0], decode) + Matching(lines[1..], decode)
  }

  function LastN<E>(s: seq<E>, n: nat): seq<E> {
    if |s| <= n then s else s[|s| - n..]
  }

  /** What the endpoint promises: the last `limit` matching lines, in file order. */
  function LogTailSpec<E>(file: Bytes, decode: Bytes -> Option<E>, limit: nat): seq<E> {
    LastN(Matching(Split(file), decode), limit)
  }

  // ----- the same tail read off the file -----

  predicate AllSpace(s: Bytes) {
    forall i | 0 <= i < |s| :: IsSpace(s[i])
  }

  /** What is left of the line without the spaces around it is decoded to the entry. */
  ghost predicate IsEntryOf<E(!new)>(line: Bytes, decode: Bytes -> Option<E>, e: E) {
    exists a: Bytes, core: Bytes, b: Bytes :: IsCore(line, a, core, b) && decode(core) == Some(e)
  }

  predicate IsCore(line: Bytes, a: Bytes, core: Bytes, b: Bytes) {
    && line == a + core + b && AllSpace(a) && AllSpace(b)
    && core != [] && !IsSpace(core[0]) && !IsSpace(core[|core| - 1])
  }

  lemma {:induction false} TrimIsCore(line: Bytes) returns (a: Bytes, b: Bytes)
    ensures TrimSpace(line) != [] ==> IsCore(line, a, TrimSpace(line), b)
    ensures TrimSpace(line) == [] ==> AllSpace(line)
    decreases |line|
  {
    a, b := [], [];
    if line != [] {
      if IsSpace(line[0]) {
        a, b := TrimIsCore(line[1..]);
        a := [line[0]] + a;
        assert line == [line[0]] + line[1..];
        assert a + TrimSpace(line) + b == [line[0]] + (a[1..] + TrimSpace(line) + b);
      } else if IsSpace(line[|line| - 1]) {
        a, b := TrimIsCore(line[..|line| - 1]);
        b := b + [line[|line| - 1]];
        assert line == line[..|line| - 1] + [line[|line| - 1]];
        assert a + TrimSpace(line) + b == (a + TrimSpace(line) + b[..|b| - 1]) + [line[|line| - 1]];
      } else {
        assert [] + line + [] == line;
      }
    }
  }

  lemma {:induction false} CoreIsTrimmed(line: Bytes, a: Bytes, core: Bytes, b: Bytes)
    requires IsCore(line, a, core, b)
    ensures TrimSpace(line) == core
    decreases |a| + |b|
  {
    if a != [] {
      assert line[0] == a[0] && line[1..] == a[1..] + core + b;
      CoreIsTrimmed(line[1..], a[1..], core, b);
    } else if b != [] {
      assert line[0] == core[0] && line[|line| - 1] == b[|b| - 1] && line[..|line| - 1] == a + core + b[..|b| - 1];
      CoreIsTrimmed(line[..|line| - 1], a, core, b[..|b| - 1]);
    } else {
      assert line == core;
    }
  }

  /** A line yields an entry exactly if it is one, and then that one. */
  lemma ParsesEntries<E(!new)>(line: Bytes, decode: Bytes -> Option<E>, e: E)
    ensures ParseLogLine(line, decode) == Some(e) <==> IsEntryOf(line, decode, e)
  {
    hide IsCore, TrimSpace;
    var a, b := TrimIsCore(line);
    if IsEntryOf(line, decode, e) {
      var a', core, b' :| IsCore(line, a', core, b') && decode(core) == Some(e);
      CoreIsTrimmed(line, a', core, b');
      CoreIsSomething(line, a', core, b');
    }
  }

  lemma CoreIsSomething(line: Bytes, a: Bytes, core: Bytes, b: Bytes)
    requires IsCore(line, a, core, b)
    ensures core != []
  {
  }

  /** The lines with these numbers, in order, yield the entries. */
  ghost predicate AreEntries<E(!new)>(lines: seq<Bytes>, decode: Bytes -> Option<E>, at: seq<nat>, entries: seq<E>) {
    && |at| == |entries| && (forall i, j | 0 <= i < j < |at| :: at[i] < at[j])
    && forall i | 0 <= i < |at| :: at[i] < |lines| && IsEntryOf(lines[at[i]], decode, entries[i])
  }

  ghost predicate Matches<E(!new)>(line: Bytes, decode: Bytes -> Option<E>) {
    exists e :: IsEntryOf(line, decode, e)
  }

  /** At most `limit` entries, in the order of the file, of which no later line is missing. */
  ghost predicate IsTailOf<E(!new)>(lines: seq<Bytes>, decode: Bytes -> Option<E>, limit: nat, entries: seq<E>) {
    exists at: seq<nat> ::
      AreEntries(lines, decode, at, entries) && |at| <= limit && MissesOnlyEarlier(lines, decode, limit, at)
  }

  ghost predicate MissesOnlyEarlier<E(!new)>(lines: seq<Bytes>, decode: Bytes -> Option<E>, limit: nat, at: seq<nat>) {
    forall n: nat | n < |lines| && Matches(lines[n], decode) && n !in at ::
      |at| == limit && forall i | 0 <= i < |at| :: n < at[i]
  }

  /** Line numbers counted from one line earlier. */
  function OneLater(at: seq<nat>): (r: seq<nat>)
    ensures |r| == |at|
  {
    seq(|at|, i requires 0 <= i < |at| => at[i] + 1)
  }

  lemma OneLaterHas(at: seq<nat>, n: nat)
    ensures n in OneLater(at) <==> n > 0 && n - 1 in at
  {
    if n > 0 && n - 1 in at {
      var i :| 0 <= i < |at| && at[i] == n - 1;
      assert OneLater(at)[i] == n;
    }
  }

  lemma EntriesOneLater<E(!new)>(lines: seq<Bytes>, decode: Bytes -> Option<E>, at: seq<nat>, entries: seq<E>)
    requires lines != [] && AreEntries(lines[1..], decode, at, entries)
    ensures AreEntries(lines, decode, OneLater(at), entries)
    ensures forall e: E | IsEntryOf(lines[0], decode, e) ::
      AreEntries(lines, decode, [0] + OneLater(at), [e] + entries)
  {
    hide IsEntryOf;
  }

  lemma {:induction false} MatchingAt<E(!new)>(lines: seq<Bytes>, decode: Bytes -> Option<E>) returns (at: seq<nat>)
    ensures AreEntries(lines, decode, at, Matching(lines, decode))
    ensures forall n: nat :: n in at <==> n < |lines| && Matches(lines[n], decode)
  {
    hide IsEntryOf, AreEntries, Matches, OneLater, ParseLogLine, Matching;
    at := [];
    if lines == [] {
      NoEntries(decode);
    } else {
      MatchingUnfolds(lines, decode);
      var rest := MatchingAt(lines[1..], decode);
      EntriesOneLater(lines, decode, rest, Matching(lines[1..], decode));
      FirstMatches(lines[0], decode);
      at := if ParseLogLine(lines[0], decode).Some? then [0] + OneLater(rest) else OneLater(rest);
      LaterMatches(lines, decode, rest);
    }
  }

  lemma MatchingUnfolds<E>(lines: seq<Bytes>, decode: Bytes -> Option<E>)
    requires lines != []
    ensures var first, rest := ParseLogLine(lines[0], decode), Matching(lines[1..], decode);
      Matching(lines, decode) == if first.Some? then [first.value] + rest else rest
  {
    hide ParseLogLine;
  }

  lemma LaterMatches<E(!new)>(lines: seq<Bytes>, decode: Bytes -> Option<E>, rest: seq<nat>)
    requires lines != [] && forall n: nat :: n in rest <==> n < |lines[1..]| && Matches(lines[1..][n], decode)
    ensures forall n: nat :: n in OneLater(rest) <==> 0 < n < |lines| && Matches(lines[n], decode)
  {
    hide Matches, OneLater;
    forall n: nat ensures n in OneLater(rest) <==> 0 < n < |lines| && Matches(lines[n], decode) {
      OneLaterHas(rest, n);
      if 0 < n < |lines| {
        assert lines[1..][n - 1] == lines[n];
      }
    }
  }

  lemma NoEntries<E(!new)>(decode: Bytes -> Option<E>)
    ensures AreEntries([], decode, [], Matching([], decode))
  {
  }

  lemma FirstMatches<E(!new)>(line: Bytes, decode: Bytes -> Option<E>)
    ensures Matches(line, decode) <==> ParseLogLine(line, decode).Some?
    ensures ParseLogLine(line, decode).Some? ==> IsEntryOf(line, decode, ParseLogLine(line, decode).value)
  {
    hide IsEntryOf, ParseLogLine;
    forall e: E ensures ParseLogLine(line, decode) == Some(e) <==> IsEntryOf(line, decode, e) {
      ParsesEntries(line, decode, e);
    }
  }

  lemma LastEntries<E(!new)>(lines: seq<Bytes>, decode: Bytes -> Option<E>, at: seq<nat>, entries: seq<E>, n: nat)
    requires AreEntries(lines, decode, at, entries)
    ensures AreEntries(lines, decode, LastN(at, n), LastN(entries, n))
  {
    hide IsEntryOf;
  }

  /** The last positions miss earlier ones only. */
  lemma LastMissEarlier<E(!new)>(lines: seq<Bytes>, decode: Bytes -> Option<E>, all: seq<nat>, entries: seq<E>,
                                 limit: nat)
    requires AreEntries(lines, decode, all, entries)
    requires forall n: nat :: n in all <==> n < |lines| && Matches(lines[n], decode)
    ensures MissesOnlyEarlier(lines, decode, limit, LastN(all, limit))
  {
    hide IsEntryOf, Matches;
    var at := LastN(all, limit);
    forall k | 0 <= k < |all|
      ensures all[k] in at || (|at| == limit && forall i | 0 <= i < |at| :: all[k] < at[i])
    {
      if k >= |all| - |at| {
        assert at[k - (|all| - |at|)] == all[k];
      }
    }
  }

  /** What the endpoint promises, without parsing and without splitting twice. */
  lemma TailIsLastMatches<E(!new)>(file: Bytes, decode: Bytes -> Option<E>, limit: nat)
    ensures IsTailOf(Split(file), decode, limit, LogTailSpec(file, decode, limit))
  {
    hide Matches, Matching, Split, AreEntries, MissesOnlyEarlier;
    var lines := Split(file);
    var all := MatchingAt(lines, decode);
    LastEntries(lines, decode, all, Matching(lines, decode), limit);
    LastMissEarlier(lines, decode, all, Matching(lines, decode), limit);
    var at := LastN(all, limit);
    assert AreEntries(lines, decode, at, LogTailSpec(file, decode, limit)) && |at| <= limit;
  }

  function Reversed<E>(s: seq<E>): (r: seq<E>)
    ensures |r| == |s|
    ensures forall i | 0 <= i < |s| :: r[i] == s[|s| - 1 - i]
  {
    seq(|s|, i requires 0 <= i < |s| => s[|s| - 1 - i])
  }

  lemma {:induction false} SplitOfOneLine(s: Bytes)
    requires NEWLINE !in s
    ensures Split(s) == [s]
  {
    if s != [] {
      SplitOfOneLine(s[1..]);
      assert [s[0]] + s[1..] == s;
    }
  }

  /** One chunk further back: the chunk followed by the cut line gives the new lines, and the
      lines already seen stay as they are. */
  lemma {:induction false} ChunkExtendsLines(chunk: Bytes, tail: Bytes)
    ensures Split(chunk + tail) == Split(chunk + Split(tail)[0]) + Split(tail)[1..]
  {
    var cut := Split(tail)[0];
    if chunk == [] {
      SplitThenJoin(tail);
      SplitOfOneLine(cut);
      assert chunk + tail == tail && chunk + cut == cut;
    } else {
      ChunkExtendsLines(chunk[1..], tail);
      assert (chunk + tail)[1..] == chunk[1..] + tail;
      assert (chunk + cut)[1..] == chunk[1..] + cut;
      GlueFront(chunk[0], Split(chunk[1..] + cut), Split(tail)[1..]);
    }
  }

  /** The entries of the matching lines, from the last line back to the first. */
  function MatchingBackwards<E>(lines: seq<Bytes>, decode: Bytes -> Option<E>): seq<E> {
    if lines == [] then [] else MatchingBackwards(lines[1..], decode) + Hit(lines[0], decode)
  }

  function FirstN<E>(s: seq<E>, n: nat): seq<E> {
    if |s| <= n then s else s[..n]
  }

  lemma {:induction false} EarlierMatchesComeLast<E>(earlier: seq<Bytes>, later: seq<Bytes>, decode: Bytes -> Option<E>)
    ensures MatchingBackwards(later, decode) <= MatchingBackwards(earlier + later, decode)
  {
    if earlier == [] {
      assert earlier + later == later;
    } else {
      EarlierMatchesComeLast(earlier[1..], later, decode);
      assert (earlier + later)[1..] == earlier[1..] + later;
    }
  }

  /** Once `limit` entries are there, earlier lines change nothing. */
  lemma EarlierLinesDoNotMatter<E>(earlier: seq<Bytes>, later: seq<Bytes>, decode: Bytes -> Option<E>, limit: nat)
    requires |FirstN(MatchingBackwards(later, decode), limit)| >= limit
    ensures FirstN(MatchingBackwards(earlier + later, decode), limit)
         == FirstN(MatchingBackwards(later, decode), limit)
  {
    EarlierMatchesComeLast(earlier, later, decode);
  }

  lemma OneLineBack<E>(line: Bytes, later: seq<Bytes>, decode: Bytes -> Option<E>, limit: nat)
    requires |FirstN(MatchingBackwards(later, decode), limit)| < limit
    ensures FirstN(MatchingBackwards([line] + later, decode), limit)
         == FirstN(MatchingBackwards(later, decode), limit) + Hit(line, decode)
  {
    assert ([line] + later)[1..] == later;
  }

  lemma ReversedAppend<E>(a: seq<E>, b: seq<E>)
    ensures Reversed(a + b) == Reversed(b) + Reversed(a)
  {
  }

  lemma {:induction false} BackwardsIsReversed<E>(lines: seq<Bytes>, decode: Bytes -> Option<E>)
    ensures MatchingBackwards(lines, decode) == Reversed(Matching(lines, decode))
  {
    hide ParseLogLine, Reversed;
    if lines != [] {
      BackwardsIsReversed(lines[1..], decode);
      ReversedAppend(Hit(lines[0], decode), Matching(lines[1..], decode));
      HitIsReversed(lines[0], decode);
    } else {
      ReversedAppend<E>([], []);
    }
  }

  lemma HitIsReversed<E>(line: Bytes, decode: Bytes -> Option<E>)
    ensures Reversed(Hit(line, decode)) == Hit(line, decode)
  {
    hide ParseLogLine;
  }

  lemma FirstOfReversed<E>(s: seq<E>, n: nat)
    ensures Reversed(FirstN(Reversed(s), n)) == LastN(s, n)
  {
  }

  lemma ReversedTailIsLastN<E>(file: Bytes, decode: Bytes -> Option<E>, limit: nat)
    ensures Reversed(FirstN(MatchingBackwards(Split(file), decode), limit)) == LogTailSpec(file, decode, limit)
  {
    hide Split, MatchingBackwards, Matching, FirstN, LastN;
    BackwardsIsReversed(Split(file), decode);
    FirstOfReversed(Matching(Split(file), decode), limit);
  }

  method ReverseEntries<E>(entries: array<E>)
    modifies entries
    ensures entries[..] == Reversed(old(entries[..]))
  {
    var n := entries.Length;
    var i, j := 0, n - 1;
    while i < j
      invariant 0 <= i <= j + 1 && i + j == n - 1
      invariant forall k | 0 <= k < i || j < k < n :: entries[k] == old(entries[n - 1 - k])
      invariant forall k | i <= k <= j :: entries[k] == old(entries[k])
    {
      entries[i], entries[j] := entries[j], entries[i];
      i, j := i + 1, j - 1;
    }
  }

  lemma SliceMeets(lines: seq<Bytes>, i: nat, j: nat, seen: seq<Bytes>)
    requires i <= j <= |lines|
    ensures lines[i..] + seen == lines[i..j] + (lines[j..] + seen)
    ensures j == i + 1 ==> lines[i..j] == [lines[i]]
  {
  }

  /** The inner loop of readLogTail: lines[1..] from the last to the first, until `limit` is reached. */
  method ScanLinesBackwards<E>(lines: seq<Bytes>, ghost seen: seq<Bytes>, decode: Bytes -> Option<E>, limit: nat,
                               found: seq<E>) returns (entries: seq<E>)
    requires |lines| >= 1
    requires found == FirstN(MatchingBackwards(seen, decode), limit)
    ensures entries == FirstN(MatchingBackwards(lines[1..] + seen, decode), limit)
  {
    hide FirstN, MatchingBackwards;
    entries := found;
    var i := |lines| - 1;
    assert lines[i + 1..] + seen == seen;
    while i >= 1 && |entries| < limit
      invariant 0 <= i < |lines|
      invariant entries == FirstN(MatchingBackwards(lines[i + 1..] + seen, decode), limit)
    {
      OneLineBack(lines[i], lines[i + 1..] + seen, decode, limit);
      SliceMeets(lines, i, i + 1, seen);
      var entry := ParseLogLine(lines[i], decode);
      if entry.Some? {
        entries := entries + [entry.value];
      }
      i := i - 1;
    }
    if i >= 1 {
      SliceMeets(lines, 1, i + 1, seen);
      EarlierLinesDoNotMatter(lines[1..i + 1], lines[i + 1..] + seen, decode, limit);
    }
  }

  lemma NothingReadYet<E>(file: Bytes, decode: Bytes -> Option<E>, limit: nat)
    ensures Split(file[|file|..]) == [[]] + []
    ensures FirstN(MatchingBackwards([], decode), limit) == []
  {
  }

  lemma ReadingAChunk(file: Bytes, from: nat, offset: nat)
    requires from <= offset <= |file|
    ensures Split(file[from..]) == Split(file[from..offset] + Split(file[offset..])[0]) + Split(file[offset..])[1..]
  {
    assert file[from..] == file[from..offset] + file[offset..];
    ChunkExtendsLines(file[from..offset], file[offset..]);
  }

  /** The line left in `remainder` when the reading stops. */
  lemma LastRemainder<E>(file: Bytes, offset: nat, remainder: Bytes, seen: seq<Bytes>, decode: Bytes -> Option<E>,
                         limit: nat)
    requires offset <= |file| && Split(file[offset..]) == [remainder] + seen
    requires var found := FirstN(MatchingBackwards(seen, decode), limit); |found| < limit ==> offset == 0
    ensures FirstN(MatchingBackwards(Split(file), decode), limit)
         == var found := FirstN(MatchingBackwards(seen, decode), limit);
            if |found| < limit then found + Hit(remainder, decode) else found
  {
    if |FirstN(MatchingBackwards(seen, decode), limit)| < limit {
      assert file[0..] == file;
      OneLineBack(remainder, seen, decode, limit);
    } else {
      ReadingAChunk(file, 0, offset);
      assert file[0..] == file;
      EarlierLinesDoNotMatter(Split(file[0..offset] + remainder), seen, decode, limit);
    }
  }

  /** The two loops of readLogTail: fill a buffer backwards, scan it, keep its first, possibly cut
      line as the remainder. */
  method CollectBackwards<E>(file: Bytes, decode: Bytes -> Option<E>, limit: nat, bufSize: nat)
    returns (entries: seq<E>)
    requires bufSize >= 1
    ensures entries == FirstN(MatchingBackwards(Split(file), decode), limit)
  {
    NothingReadYet(file, decode, limit);
    hide Split, MatchingBackwards, FirstN;
    entries := [];
    var remainder: Bytes := [];
    var offset := |file|;
    ghost var seen: seq<Bytes> := [];

    while offset > 0 && |entries| < limit
      invariant 0 <= offset <= |file|
      invariant Split(file[offset..]) == [remainder] + seen
      invariant entries == FirstN(MatchingBackwards(seen, decode), limit)
    {
      var chunkSize := if offset < bufSize then offset else bufSize;
      ReadingAChunk(file, offset - chunkSize, offset);
      offset := offset - chunkSize;
      var lines := Split(file[offset..offset + chunkSize] + remainder);
      remainder := lines[0];
      entries := ScanLinesBackwards(lines, seen, decode, limit, entries);
      assert lines == [remainder] + lines[1..];
      seen := lines[1..] + seen;
    }

    LastRemainder(file, offset, remainder, seen, decode, limit);
    if |remainder| > 0 && |entries| < limit {
      var entry := ParseLogLine(remainder, decode);
      if entry.Some? {
        entries := entries + [entry.value];
      }
    }
  }

  /** readLogTail */
  method ReadLogTail<E(!new)>(file: Bytes, decode: Bytes -> Option<E>, limit: nat, bufSize: nat := DEFAULT_BUFFER)
    returns (result: seq<E>)
    requires bufSize >= 1
    ensures result == LogTailSpec(file, decode, limit) && IsTailOf(Split(file), decode, limit, result)
  {
    TailIsLastMatches(file, decode, limit);
    hide IsTailOf, LogTailSpec;
    var entries := CollectBackwards(file, decode, limit, bufSize);
    ReversedTailIsLastN(file, decode, limit);
    var buffer := new E[|entries|](i requires 0 <= i < |entries| => entries[i]);
    assert buffer[..] == entries;
    ReverseEntries(buffer);
    result := buffer[..];
  }
}
