/**
 * The append-only interaction log: one serialized record per line, appended
 * after every answered chat message and read back newest first, at most a
 * hundred rows at a time, optionally narrowed to one player.
 *
 * The log file is a sequence of lines; a line either parses to a record or
 * is corrupt (the JSON parser throws on it).
 */
module InteractionLog {
  import opened Wrappers
  import opened JsText

  /** One logged exchange. */
  datatype Record = Record(
    timestamp: int,
    playerId: Option<string>,
    message: string,
    reply: string,
    state: string)

  /** A non-empty line of the log file, as the JSON parser sees it. */
  datatype Line = Parsed(row: Record) | Corrupt

  /** The most rows one read returns, whatever limit is asked for. */
  const MaxRows: nat := 100

  /** The limit the recent-messages route uses when none is given. */
  const DefaultLimit: int := 20

  /**
   * A row survives the player filter unless a filter is set, the row has a
   * player id, and the two differ; empty strings count as unset.
   */
  predicate Kept(row: Record, player: Option<string>) {
    player.None? || player.value == [] ||
    row.playerId.None? || row.playerId.value == [] ||
    row.playerId.value == player.value
  }

  /** The number of rows a read may return: `min(limit, 100)`, and none when that is not positive. */
  function Cap(limit: int): (n: nat)
    ensures n <= MaxRows
    ensures limit <= 0 ==> n == 0
    ensures 0 <= limit <= MaxRows ==> n == limit
    ensures limit >= MaxRows ==> n == MaxRows
  {
    if limit <= 0 then 0 else if limit < MaxRows then limit else MaxRows
  }

  /** The row a line contributes: its record if it parses and passes the filter. */
  function RowOf(line: Line, player: Option<string>): seq<Record> {
    if line.Parsed? && Kept(line.row, player) then [line.row] else []
  }

  /** The rows that parse and pass the filter, in file (that is, write) order. */
  function Chronological(lines: seq<Line>, player: Option<string>): seq<Record> {
    if lines == [] then [] else RowOf(lines[0], player) + Chronological(lines[1..], player)
  }

  /** The same rows, met by scanning the file from its last line back to its first. */
  function NewestFirst(lines: seq<Line>, player: Option<string>): seq<Record> {
    if lines == [] then []
    else RowOf(lines[|lines| - 1], player) + NewestFirst(lines[..|lines| - 1], player)
  }

  /** The first `n` elements of `s`, or all of `s` when it is shorter. */
  function Take<T>(s: seq<T>, n: nat): (r: seq<T>)
    ensures |r| <= n && |r| <= |s| && r == s[..|r|]
    ensures |r| < n ==> r == s
  {
    if |s| <= n then s else s[..n]
  }

  /** The last `n` elements of `s`, or all of `s` when it is shorter. */
  function Last<T>(s: seq<T>, n: nat): (r: seq<T>)
    ensures |r| <= n && |r| <= |s| && r == s[|s| - |r|..]
    ensures |r| < n ==> r == s
  {
    if |s| <= n then s else s[|s| - n..]
  }

  /** What one read returns: the first `Cap(limit)` rows met scanning backwards. */
  function Window(lines: seq<Line>, limit: int, player: Option<string>): (r: seq<Record>)
    ensures |r| <= Cap(limit) && |r| <= MaxRows
    ensures limit <= 0 ==> r == []
  {
    Take(NewestFirst(lines, player), Cap(limit))
  }

  /** `Array.prototype.reverse` on a copy. */
  function Reverse<T>(s: seq<T>): (r: seq<T>)
    ensures |r| == |s|
    ensures forall k :: 0 <= k < |s| ==> r[k] == s[|s| - 1 - k]
  {
    if s == [] then [] else Reverse(s[1..]) + [s[0]]
  }

  /** The player filter of the recent-messages route: the query trimmed, and unset when that leaves nothing. */
  function RouteFilter(query: Option<string>): (player: Option<string>)
    ensures query.None? ==> player.None?
    ensures query.Some? && Trim(query.value) == [] ==> player.None?
    ensures query.Some? && Trim(query.value) != [] ==> player == Some(Trim(query.value))
    ensures player.Some? ==> player.value != [] && !IsSpace(player.value[0]) && !IsSpace(player.value[|player.value| - 1])
  {
    if query.None? then None
    else
      var t := Trim(query.value);
      if t == [] then None else Some(t)
  }

  /** Feeding the route's filter back in as a query gives the same filter. */
  lemma RouteFilterIdempotent(query: Option<string>)
    ensures RouteFilter(RouteFilter(query)) == RouteFilter(query)
  {
    if query.Some? {
      TrimIdempotent(query.value);
    }
  }

  /** The latest `Cap(limit)` rows that pass the filter, oldest first. */
  function Latest(lines: seq<Line>, limit: int, player: Option<string>): seq<Record> {
    Last(Chronological(lines, player), Cap(limit))
  }

  /**
   * The log file. `present` is false until the first successful append,
   * and an absent file has no lines.
   */
  class LogFile {
    var present: bool
    var lines: seq<Line>

    ghost predicate Valid()
      reads this
    {
      !present ==> lines == []
    }

    constructor ()
      ensures Valid() && !present && lines == []
    {
      present := false;
      lines := [];
    }

    /**
     * Appends one record as a new line. A failing write is swallowed: the
     * log is then left as it was and the caller is not told.
     */
    method LogInteraction(r: Record, writeSucceeds: bool)
      requires Valid()
      modifies this
      ensures Valid()
      ensures writeSucceeds ==> present && lines == old(lines) + [Parsed(r)]
      ensures !writeSucceeds ==> present == old(present) && lines == old(lines)
    {
      if writeSucceeds {
        present := true;
        lines := lines + [Parsed(r)];
      }
    }

    /**
     * Reads the log newest first: scans from the last line back, skipping
     * corrupt lines and filtered-out rows, until `min(limit, 100)` rows are
     * collected or the first line is passed.
     */
    method ReadJsonl(limit: int, player: Option<string>) returns (out: seq<Record>)
      requires Valid()
      ensures out == Window(lines, limit, player)
      ensures !present ==> out == []
    {
      if !present {
        return [];
      }
      var bound := if limit < MaxRows then limit else MaxRows;
      var text := lines;
      out := [];
      var i := |text| - 1;
      assert text[..i + 1] == text;
      while i >= 0 && |out| < bound
        invariant -1 <= i < |text|
        invariant |out| <= Cap(limit)
        invariant NewestFirst(text, player) == out + NewestFirst(text[..i + 1], player)
        decreases i
      {
        ghost var before := out;
        if text[i].Parsed? && Kept(text[i].row, player) {
          out := out + [text[i].row];
        }
        ScanStep(text, i, player, before, out);
        i := i - 1;
      }
      assert i < 0 ==> text[..i + 1] == [];
      TakeOfScan(out, NewestFirst(text[..i + 1], player), Cap(limit));
    }

    /** The recent-messages route: the filtered window, oldest first. */
    method Recent(limitQuery: Option<int>, playerQuery: Option<string>) returns (rows: seq<Record>)
      requires Valid()
      ensures rows == Latest(lines, if limitQuery.Some? then limitQuery.value else DefaultLimit, RouteFilter(playerQuery))
    {
      var limit := if limitQuery.Some? then limitQuery.value else DefaultLimit;
      var newestFirst := ReadJsonl(limit, RouteFilter(playerQuery));
      rows := Reverse(newestFirst);
      LatestIsReversedWindow(lines, limit, RouteFilter(playerQuery));
    }
  }

  // ---------------------------------------------------------------------
  // Prefixes, suffixes and reversal of sequences

  /** A scanned prefix that is full, or that is everything, is what `Take` keeps. */
  lemma TakeOfScan<T>(out: seq<T>, rest: seq<T>, n: nat)
    requires |out| <= n
    requires rest == [] || |out| == n
    ensures Take(out + rest, n) == out
  {
    if rest == [] {
      assert out + rest == out;
    } else {
      assert (out + rest)[..n] == out;
    }
  }

  /** Taking from a sequence with one more element in front. */
  lemma TakeCons<T>(x: T, s: seq<T>, n: nat)
    ensures Take([x] + s, n) == if n == 0 then [] else [x] + Take(s, n - 1)
  {
    if n > 0 && |s| > n - 1 {
      assert ([x] + s)[..n] == [x] + s[..n - 1];
    }
  }

  /** When the front part alone is long enough, the back part is never reached. */
  lemma TakeOfFullPrefix<T>(a: seq<T>, b: seq<T>, n: nat)
    requires |a| >= n
    ensures Take(a + b, n) == Take(a, n)
  {
    assert (a + b)[..n] == a[..n];
  }

  lemma SplitLast<T>(s: seq<T>)
    requires s != []
    ensures s == s[..|s| - 1] + [s[|s| - 1]]
  {
  }

  lemma AppendAssoc<T>(a: seq<T>, b: seq<T>, c: seq<T>)
    ensures a + (b + c) == (a + b) + c
  {
  }

  /** Reversal neither adds nor drops elements. */
  lemma ReverseMembers<T>(s: seq<T>, x: T)
    ensures x in Reverse(s) <==> x in s
  {
    if x in Reverse(s) {
      var k :| 0 <= k < |s| && Reverse(s)[k] == x;
      assert s[|s| - 1 - k] == x;
    }
    if x in s {
      var k :| 0 <= k < |s| && s[k] == x;
      assert Reverse(s)[|s| - 1 - k] == x;
    }
  }

  lemma ReverseAppend<T>(a: seq<T>, b: seq<T>)
    ensures Reverse(a + b) == Reverse(b) + Reverse(a)
  {
  }

  /** The first `n` of the reversed sequence, turned back round, are its last `n`. */
  lemma {:induction false} ReverseOfTakeOfReverse<T>(s: seq<T>, n: nat)
    ensures Reverse(Take(Reverse(s), n)) == Last(s, n)
  {
    var t, l := Take(Reverse(s), n), Last(s, n);
    var m := if |s| <= n then |s| else n;
    assert |t| == m && |l| == m;
    forall k | 0 <= k < m ensures Reverse(t)[k] == l[k] {
      assert Reverse(t)[k] == t[m - 1 - k];
      assert t[m - 1 - k] == Reverse(s)[m - 1 - k];
      assert Reverse(s)[m - 1 - k] == s[|s| - m + k];
    }
  }

  // ---------------------------------------------------------------------
  // Reading backwards is reading forwards, reversed

  /** One step of the backward scan over the first `n` lines. */
  lemma NewestFirstStep(lines: seq<Line>, n: nat, player: Option<string>)
    requires 0 < n <= |lines|
    ensures NewestFirst(lines[..n], player) == RowOf(lines[n - 1], player) + NewestFirst(lines[..n - 1], player)
  {
    assert lines[..n][..n - 1] == lines[..n - 1];
  }

  /** The backward scan's invariant survives one more line. */
  lemma ScanStep(lines: seq<Line>, i: nat, player: Option<string>, before: seq<Record>, after: seq<Record>)
    requires i < |lines|
    requires NewestFirst(lines, player) == before + NewestFirst(lines[..i + 1], player)
    requires after == before + RowOf(lines[i], player)
    ensures NewestFirst(lines, player) == after + NewestFirst(lines[..i], player)
  {
    NewestFirstStep(lines, i + 1, player);
    AppendAssoc(before, RowOf(lines[i], player), NewestFirst(lines[..i], player));
  }

  /** A line appended to the file is the first one the backward scan meets. */
  lemma NewestFirstSnoc(lines: seq<Line>, line: Line, player: Option<string>)
    ensures NewestFirst(lines + [line], player) == RowOf(line, player) + NewestFirst(lines, player)
  {
    var all := lines + [line];
    assert all[..|all| - 1] == lines;
  }

  lemma {:induction false} ChronologicalAppend(lines: seq<Line>, line: Line, player: Option<string>)
    ensures Chronological(lines + [line], player) == Chronological(lines, player) + RowOf(line, player)
  {
    if lines == [] {
      assert [] + [line] == [line];
      assert [line][1..] == [];
    } else {
      assert (lines + [line])[1..] == lines[1..] + [line];
      ChronologicalAppend(lines[1..], line, player);
    }
  }

  /** The backward scan meets exactly the filtered parsed rows, in reverse write order. */
  lemma {:induction false} NewestFirstIsReversedLog(lines: seq<Line>, player: Option<string>)
    ensures NewestFirst(lines, player) == Reverse(Chronological(lines, player))
  {
    if lines != [] {
      var init, last := lines[..|lines| - 1], lines[|lines| - 1];
      SplitLast(lines);
      NewestFirstIsReversedLog(init, player);
      ChronologicalAppend(init, last, player);
      ReverseAppend(Chronological(init, player), RowOf(last, player));
    }
  }

  /** A row is read back exactly when some line parses to it and it passes the filter. */
  lemma {:induction false} ChronologicalMembers(lines: seq<Line>, player: Option<string>, r: Record)
    ensures r in Chronological(lines, player) <==> Parsed(r) in lines && Kept(r, player)
  {
    if lines != [] {
      ChronologicalMembers(lines[1..], player, r);
      assert lines == [lines[0]] + lines[1..];
    }
  }

  /** Every row a read returns comes from a parsed line and passes the filter. */
  lemma WindowRowsAreLoggedAndKept(lines: seq<Line>, limit: int, player: Option<string>)
    ensures forall r :: r in Window(lines, limit, player) ==> Parsed(r) in lines && Kept(r, player)
  {
    var w, scan := Window(lines, limit, player), NewestFirst(lines, player);
    NewestFirstIsReversedLog(lines, player);
    forall r | r in w ensures Parsed(r) in lines && Kept(r, player) {
      var k :| 0 <= k < |w| && w[k] == r;
      assert scan[k] == r;
      ReverseMembers(Chronological(lines, player), r);
      ChronologicalMembers(lines, player, r);
    }
  }

  /** With no filter, or an empty one, every parsed row is read back. */
  lemma UnfilteredKeepsEveryRow(lines: seq<Line>, player: Option<string>)
    requires player.None? || player.value == []
    ensures forall r :: Parsed(r) in lines <==> r in Chronological(lines, player)
  {
    forall r ensures Parsed(r) in lines <==> r in Chronological(lines, player) {
      ChronologicalMembers(lines, player, r);
    }
  }

  /** The route's oldest-first answer is the latest rows of the log in write order. */
  lemma LatestIsReversedWindow(lines: seq<Line>, limit: int, player: Option<string>)
    ensures Reverse(Window(lines, limit, player)) == Latest(lines, limit, player)
  {
    NewestFirstIsReversedLog(lines, player);
    ReverseOfTakeOfReverse(Chronological(lines, player), Cap(limit));
  }

  // ---------------------------------------------------------------------
  // Appending and reading back

  /**
   * After an append the new row comes first, ahead of what the log held
   * before; a row the filter rejects leaves the read unchanged.
   */
  lemma AppendThenRead(lines: seq<Line>, r: Record, limit: int, player: Option<string>)
    ensures Window(lines + [Parsed(r)], limit, player) ==
      if Kept(r, player) && Cap(limit) > 0 then [r] + Window(lines, Cap(limit) - 1, player)
      else Window(lines, limit, player)
  {
    NewestFirstSnoc(lines, Parsed(r), player);
    var scan := NewestFirst(lines, player);
    if Kept(r, player) {
      TakeCons(r, scan, Cap(limit));
      if Cap(limit) > 0 {
        assert Cap(Cap(limit) - 1) == Cap(limit) - 1;
      }
    } else {
      assert RowOf(Parsed(r), player) + scan == scan;
    }
  }

  /** A corrupt line, wherever it sits in the file, neither shows up nor counts toward the limit. */
  lemma {:induction false} CorruptLineIsInvisible(older: seq<Line>, newer: seq<Line>, limit: int, player: Option<string>)
    ensures Window(older + [Corrupt] + newer, limit, player) == Window(older + newer, limit, player)
  {
    NewestFirstAppend(older + [Corrupt], newer, player);
    NewestFirstAppend(older, newer, player);
    NewestFirstSnoc(older, Corrupt, player);
    assert RowOf(Corrupt, player) + NewestFirst(older, player) == NewestFirst(older, player);
  }

  /** Logging a record and reading one row back, unfiltered, returns that record. */
  lemma AppendThenReadOne(lines: seq<Line>, r: Record)
    ensures Window(lines + [Parsed(r)], 1, None) == [r]
  {
    AppendThenRead(lines, r, 1, None);
  }

  /** Scanning two stretches of the file back to back: the newer stretch is met first. */
  lemma {:induction false} NewestFirstAppend(older: seq<Line>, newer: seq<Line>, player: Option<string>)
    ensures NewestFirst(older + newer, player) == NewestFirst(newer, player) + NewestFirst(older, player)
    decreases |newer|
  {
    if newer == [] {
      assert older + newer == older;
    } else {
      var init, last := newer[..|newer| - 1], newer[|newer| - 1];
      assert newer == init + [last];
      assert older + newer == (older + init) + [last];
      NewestFirstSnoc(older + init, last, player);
      NewestFirstSnoc(init, last, player);
      NewestFirstAppend(older, init, player);
      AppendAssoc(RowOf(last, player), NewestFirst(init, player), NewestFirst(older, player));
    }
  }

  /**
   * The scan stops once the bound is reached: when the newer part of the
   * log already holds enough rows, older lines play no part.
   */
  lemma OlderLinesIgnoredOnceFull(older: seq<Line>, newer: seq<Line>, limit: int, player: Option<string>)
    requires |NewestFirst(newer, player)| >= Cap(limit)
    ensures Window(older + newer, limit, player) == Window(newer, limit, player)
  {
    NewestFirstAppend(older, newer, player);
    TakeOfFullPrefix(NewestFirst(newer, player), NewestFirst(older, player), Cap(limit));
  }

  /** Three records by Alice, Bob and Alice, read back for Alice: the two Alice rows, newest first. */
  lemma AliceBobAliceScenario(r1: Record, r2: Record, r3: Record)
    requires r1.playerId == Some("Alice") && r2.playerId == Some("Bob") && r3.playerId == Some("Alice")
    ensures Window([Parsed(r1), Parsed(r2), Parsed(r3)], 10, Some("Alice")) == [r3, r1]
  {
    var lines, alice := [Parsed(r1), Parsed(r2), Parsed(r3)], Some("Alice");
    assert lines[..3] == lines && lines[..0] == [];
    NewestFirstStep(lines, 3, alice);
    NewestFirstStep(lines, 2, alice);
    NewestFirstStep(lines, 1, alice);
    assert RowOf(lines[2], alice) == [r3] && RowOf(lines[1], alice) == [] && RowOf(lines[0], alice) == [r1];
    assert NewestFirst(lines, alice) == [r3, r1];
  }
}
