/** The interaction store of internal/memory/memory.go, with the SQLite table and
    its FTS5 index taken as plain state.

    The table `interactions` is a sequence of rows in rowid order; `nextId` is the
    AUTOINCREMENT counter (the next id SQLite hands out, never reused and not
    reset by a DELETE); the FTS5 index over `tags` is a map from row id to the set
    of tokens of that row's tags, which the three triggers keep in step with the
    table. `created_at` is a number of seconds supplied by the caller, and the
    BM25 rank of a row for a query is a function supplied by the caller. */
module Memory {
  import opened Strings
  import opened Keywords

  datatype Interaction = Interaction(
    id: int,
    question: string,
    command: string,
    explanation: string,
    tags: string,
    createdAt: int,
    useCount: int)

  /** The FTS5 tokenizer: case-folded runs of letters and digits. */
  function Tokenize(text: string): set<string>
  {
    set w | w in Tokens(text)
  }

  /** The tags `Save` stores for a question. */
  function TagsOf(question: string): string {
    Join(KeywordsOf(question), " ")
  }

  // ------------------------------------------------------------ invariants

  predicate UniqueCommands(rows: seq<Interaction>) {
    forall i, j :: 0 <= i < j < |rows| ==> rows[i].command != rows[j].command
  }

  /** Ids come from the AUTOINCREMENT counter, in increasing order. */
  predicate IdsValid(rows: seq<Interaction>, nextId: int) {
    && nextId >= 1
    && (forall i :: 0 <= i < |rows| ==> 1 <= rows[i].id < nextId)
    && (forall i, j :: 0 <= i < j < |rows| ==> rows[i].id < rows[j].id)
  }

  /** A row that `Save` wrote: used at least once, tagged by its question. */
  predicate RowValid(x: Interaction) {
    x.useCount >= 1 && x.tags == TagsOf(x.question)
  }

  /** What every operation keeps true of the table: valid ids, no command
      twice, every row as `Save` writes it. */
  predicate TableValid(rows: seq<Interaction>, nextId: int) {
    && IdsValid(rows, nextId)
    && UniqueCommands(rows)
    && (forall i :: 0 <= i < |rows| ==> RowValid(rows[i]))
  }

  function Ids(rows: seq<Interaction>): set<int> {
    set i | 0 <= i < |rows| :: rows[i].id
  }

  /** The full-text index holds exactly one entry per live row: its tokens. */
  predicate IndexConsistent(rows: seq<Interaction>, index: map<int, set<string>>) {
    && index.Keys == Ids(rows)
    && forall i :: 0 <= i < |rows| ==> index[rows[i].id] == Tokenize(rows[i].tags)
  }

  /** The index the FTS5 `rebuild` command derives from the table. */
  function IndexOf(rows: seq<Interaction>): (index: map<int, set<string>>)
    ensures index.Keys == Ids(rows)
    ensures (forall i, j :: 0 <= i < j < |rows| ==> rows[i].id != rows[j].id) ==>
              IndexConsistent(rows, index)
  {
    if rows == [] then map[]
    else
      var prev := rows[..|rows| - 1];
      var last := rows[|rows| - 1];
      IndexOfStep(prev, last, IndexOf(prev));
      assert rows == prev + [last];
      IndexOf(prev)[last.id := Tokenize(last.tags)]
  }

  /** Indexing one more row: its entry is added under its own id. */
  lemma IndexOfStep(prev: seq<Interaction>, last: Interaction, m: map<int, set<string>>)
    requires m.Keys == Ids(prev)
    requires (forall i, j :: 0 <= i < j < |prev| ==> prev[i].id != prev[j].id) ==> IndexConsistent(prev, m)
    ensures var rows := prev + [last];
      && m[last.id := Tokenize(last.tags)].Keys == Ids(rows)
      && ((forall i, j :: 0 <= i < j < |rows| ==> rows[i].id != rows[j].id) ==>
            IndexConsistent(rows, m[last.id := Tokenize(last.tags)]))
  {
    var rows := prev + [last];
    var m' := m[last.id := Tokenize(last.tags)];
    assert forall i :: 0 <= i < |prev| ==> rows[i] == prev[i];
    assert rows[|prev|] == last;
    assert Ids(rows) == Ids(prev) + {last.id};
    if forall i, j :: 0 <= i < j < |rows| ==> rows[i].id != rows[j].id {
      assert forall i, j :: 0 <= i < j < |prev| ==> prev[i].id != prev[j].id;
      forall i | 0 <= i < |rows| ensures m'[rows[i].id] == Tokenize(rows[i].tags) {
        if i < |prev| {
          assert rows[i].id != last.id;
        }
      }
    }
  }

  /** The index is determined by the table: any index consistent with it is
      the one `rebuild` derives. */
  lemma ConsistentIndexIsDerived(rows: seq<Interaction>, nextId: int, index: map<int, set<string>>)
    requires TableValid(rows, nextId) && IndexConsistent(rows, index)
    ensures index == IndexOf(rows)
  {
    assert forall i, j :: 0 <= i < j < |rows| ==> rows[i].id < rows[j].id;
    SameEntries(rows, index, IndexOf(rows));
  }

  /** Two indexes consistent with the same rows are equal. */
  lemma SameEntries(rows: seq<Interaction>, m1: map<int, set<string>>, m2: map<int, set<string>>)
    requires IndexConsistent(rows, m1) && IndexConsistent(rows, m2)
    ensures m1 == m2
  {
    forall id | id in m1 ensures id in m2 && m1[id] == m2[id] {
      var i :| 0 <= i < |rows| && rows[i].id == id;
    }
  }

  // ------------------------------------------------------------------ save

  /** The row count the UPDATE reports: rows holding the command. */
  function Affected(rows: seq<Interaction>, command: string): nat {
    if rows == [] then 0
    else Affected(rows[..|rows| - 1], command) + (if rows[|rows| - 1].command == command then 1 else 0)
  }

  /** The UPDATE: every row holding the command is used once more and takes
      the new question, tags and explanation. */
  function Updated(rows: seq<Interaction>, question: string, command: string,
                   explanation: string, tags: string): seq<Interaction>
  {
    seq(|rows|, i requires 0 <= i < |rows| =>
      if rows[i].command == command
      then rows[i].(useCount := rows[i].useCount + 1, question := question,
                    tags := tags, explanation := explanation)
      else rows[i])
  }

  /** The ids of the rows the UPDATE touches. */
  function MatchedIds(rows: seq<Interaction>, command: string): set<int> {
    set i | 0 <= i < |rows| && rows[i].command == command :: rows[i].id
  }

  /** The index after the update trigger has run for each touched row: the
      old entry deleted, one for the new tags added. */
  function Reindexed(index: map<int, set<string>>, touched: set<int>, tags: string): map<int, set<string>> {
    map id | id in index :: if id in touched then Tokenize(tags) else index[id]
  }

  /** The table and the counter after `Save`: the UPDATE, then the INSERT when
      the UPDATE touched no row. */
  function Saved(rows: seq<Interaction>, nextId: int, question: string, command: string,
                 explanation: string, now: int): (seq<Interaction>, int)
  {
    var tags := TagsOf(question);
    if Affected(rows, command) > 0 then
      (Updated(rows, question, command, explanation, tags), nextId)
    else
      (rows + [Interaction(nextId, question, command, explanation, tags, now, 1)], nextId + 1)
  }

  /** The index after `Save`: the update trigger's work, then the insert
      trigger's when the UPDATE touched no row. */
  function SavedIndex(rows: seq<Interaction>, nextId: int, index: map<int, set<string>>,
                      question: string, command: string): map<int, set<string>>
  {
    var tags := TagsOf(question);
    var reindexed := Reindexed(index, MatchedIds(rows, command), tags);
    if Affected(rows, command) > 0 then reindexed else reindexed[nextId := Tokenize(tags)]
  }

  // -------------------------------------------------------- save, properties

  /** The UPDATE finds no row exactly when no row holds the command, and it
      never finds more than one while commands are unique. */
  lemma {:induction false} AffectedCounts(rows: seq<Interaction>, command: string)
    ensures Affected(rows, command) == 0 <==> forall i :: 0 <= i < |rows| ==> rows[i].command != command
    ensures UniqueCommands(rows) ==> Affected(rows, command) <= 1
  {
    if rows != [] {
      var prev := rows[..|rows| - 1];
      AffectedCounts(prev, command);
      assert forall i :: 0 <= i < |prev| ==> prev[i] == rows[i];
    }
  }

  /** Total use count of the rows holding a command. */
  function UsesOf(rows: seq<Interaction>, command: string): int {
    if rows == [] then 0
    else UsesOf(rows[..|rows| - 1], command) + (if rows[|rows| - 1].command == command then rows[|rows| - 1].useCount else 0)
  }

  function Commands(rows: seq<Interaction>): set<string> {
    set i | 0 <= i < |rows| :: rows[i].command
  }

  lemma {:induction false} UpdatedUses(rows: seq<Interaction>, question: string, command: string,
                                       explanation: string, tags: string, other: string)
    ensures UsesOf(Updated(rows, question, command, explanation, tags), other)
         == UsesOf(rows, other) + (if other == command then Affected(rows, command) else 0)
  {
    if rows != [] {
      var prev := rows[..|rows| - 1];
      var up := Updated(rows, question, command, explanation, tags);
      assert up[..|up| - 1] == Updated(prev, question, command, explanation, tags);
      UpdatedUses(prev, question, command, explanation, tags, other);
    }
  }

  lemma UsesOfAppend(rows: seq<Interaction>, x: Interaction, command: string)
    ensures UsesOf(rows + [x], command) == UsesOf(rows, command) + (if x.command == command then x.useCount else 0)
  {
    assert (rows + [x])[..|rows|] == rows;
  }

  /** `Save` keeps the table invariant. */
  lemma SaveKeepsTableValid(rows: seq<Interaction>, nextId: int, question: string, command: string,
                            explanation: string, now: int)
    requires TableValid(rows, nextId)
    ensures TableValid(Saved(rows, nextId, question, command, explanation, now).0,
                       Saved(rows, nextId, question, command, explanation, now).1)
  {
    SaveKeepsIdsValid(rows, nextId, question, command, explanation, now);
    SaveKeepsCommandsUnique(rows, nextId, question, command, explanation, now);
    SaveKeepsRowsValid(rows, nextId, question, command, explanation, now);
  }

  lemma SaveKeepsIdsValid(rows: seq<Interaction>, nextId: int, question: string, command: string,
                          explanation: string, now: int)
    requires IdsValid(rows, nextId)
    ensures IdsValid(Saved(rows, nextId, question, command, explanation, now).0,
                     Saved(rows, nextId, question, command, explanation, now).1)
  {
    var tags := TagsOf(question);
    if Affected(rows, command) > 0 {
      var r := Updated(rows, question, command, explanation, tags);
      assert forall i :: 0 <= i < |rows| ==> r[i].id == rows[i].id;
    } else {
      var r := rows + [Interaction(nextId, question, command, explanation, tags, now, 1)];
      assert forall i :: 0 <= i < |rows| ==> r[i] == rows[i];
    }
  }

  lemma SaveKeepsRowsValid(rows: seq<Interaction>, nextId: int, question: string, command: string,
                           explanation: string, now: int)
    requires forall i :: 0 <= i < |rows| ==> RowValid(rows[i])
    ensures var r := Saved(rows, nextId, question, command, explanation, now).0;
      forall i :: 0 <= i < |r| ==> RowValid(r[i])
  {
    var tags := TagsOf(question);
    var r := Saved(rows, nextId, question, command, explanation, now).0;
    if Affected(rows, command) > 0 {
      assert r == Updated(rows, question, command, explanation, tags);
      forall i | 0 <= i < |r| ensures RowValid(r[i]) {
        UpdatedRowValid(rows[i], question, command, explanation);
      }
    } else {
      var x := Interaction(nextId, question, command, explanation, tags, now, 1);
      assert r == rows + [x];
      forall i | 0 <= i < |r| ensures RowValid(r[i]) {
        if i < |rows| { assert r[i] == rows[i]; } else { assert r[i] == x; }
      }
    }
  }

  /** The UPDATE keeps a row valid, whether or not it hits it. */
  lemma UpdatedRowValid(x: Interaction, question: string, command: string, explanation: string)
    requires RowValid(x)
    ensures RowValid(if x.command == command
                     then x.(useCount := x.useCount + 1, question := question,
                             tags := TagsOf(question), explanation := explanation)
                     else x)
  {
  }

  /** The central property: `Save` never stores a command twice, although the
      schema puts no UNIQUE constraint on it, because it inserts only when the
      UPDATE found no row with the command. */
  lemma SaveKeepsCommandsUnique(rows: seq<Interaction>, nextId: int, question: string, command: string,
                                explanation: string, now: int)
    requires UniqueCommands(rows)
    ensures UniqueCommands(Saved(rows, nextId, question, command, explanation, now).0)
  {
    AffectedCounts(rows, command);
    var tags := TagsOf(question);
    if Affected(rows, command) > 0 {
      var r := Updated(rows, question, command, explanation, tags);
      assert forall i :: 0 <= i < |rows| ==> r[i].command == rows[i].command;
    } else {
      var r := rows + [Interaction(nextId, question, command, explanation, tags, now, 1)];
      assert forall i :: 0 <= i < |rows| ==> r[i] == rows[i];
    }
  }

  /** Saving a command already stored bumps that row's use count by one,
      replaces its question, tags and explanation, and changes nothing else. */
  lemma SaveExisting(rows: seq<Interaction>, nextId: int, question: string, command: string,
                     explanation: string, now: int, k: int)
    requires TableValid(rows, nextId)
    requires 0 <= k < |rows| && rows[k].command == command
    ensures Saved(rows, nextId, question, command, explanation, now).1 == nextId
    ensures var r := Saved(rows, nextId, question, command, explanation, now).0;
      && |r| == |rows|
      && r[k] == rows[k].(useCount := rows[k].useCount + 1, question := question,
                          tags := TagsOf(question), explanation := explanation)
      && forall j :: 0 <= j < |rows| && j != k ==> r[j] == rows[j]
  {
    AffectedCounts(rows, command);
    assert Affected(rows, command) > 0;
    var r := Updated(rows, question, command, explanation, TagsOf(question));
    assert Saved(rows, nextId, question, command, explanation, now) == (r, nextId);
    forall j | 0 <= j < |rows| && j != k ensures r[j] == rows[j] {
      assert rows[j].command != rows[k].command;
    }
  }

  /** Saving a new command appends one row with a fresh id, a use count of
      one and the tags of its question. */
  lemma SaveNew(rows: seq<Interaction>, nextId: int, question: string, command: string,
                explanation: string, now: int)
    requires TableValid(rows, nextId)
    requires forall i :: 0 <= i < |rows| ==> rows[i].command != command
    ensures nextId !in Ids(rows)
    ensures Saved(rows, nextId, question, command, explanation, now)
         == (rows + [Interaction(nextId, question, command, explanation, TagsOf(question), now, 1)], nextId + 1)
  {
    AffectedCounts(rows, command);
  }

  /** One save adds exactly one use to its command and none to any other, and
      the set of stored commands grows by that command alone. */
  lemma SaveCounts(rows: seq<Interaction>, nextId: int, question: string, command: string,
                   explanation: string, now: int, other: string)
    requires UniqueCommands(rows)
    ensures var r := Saved(rows, nextId, question, command, explanation, now).0;
      && UsesOf(r, other) == UsesOf(rows, other) + (if other == command then 1 else 0)
      && Commands(r) == Commands(rows) + {command}
  {
    AffectedCounts(rows, command);
    var tags := TagsOf(question);
    if Affected(rows, command) > 0 {
      UpdatedUses(rows, question, command, explanation, tags, other);
      var i :| 0 <= i < |rows| && rows[i].command == command;
      var r := Updated(rows, question, command, explanation, tags);
      assert Commands(r) == Commands(rows) by {
        assert forall j :: 0 <= j < |rows| ==> r[j].command == rows[j].command;
      }
      assert command in Commands(rows) by { assert rows[i].command == command; }
    } else {
      var x := Interaction(nextId, question, command, explanation, tags, now, 1);
      UsesOfAppend(rows, x, other);
      var r := rows + [x];
      assert Commands(r) == Commands(rows) + {command} by {
        assert r[|rows|].command == command;
        assert forall j :: 0 <= j < |rows| ==> r[j] == rows[j];
      }
    }
  }

  // ---------------------------------------------------------- save, replayed

  /** The arguments of one call to `Save`, with the clock reading it gets. */
  datatype Request = Request(question: string, command: string, explanation: string, now: int)

  /** The table and the counter after a run of saves, in order. */
  function Replay(rows: seq<Interaction>, nextId: int, reqs: seq<Request>): (seq<Interaction>, int)
    decreases |reqs|
  {
    if reqs == [] then (rows, nextId)
    else
      var q := reqs[0];
      var after := Saved(rows, nextId, q.question, q.command, q.explanation, q.now);
      Replay(after.0, after.1, reqs[1..])
  }

  /** How many requests name a command. */
  function Occurrences(reqs: seq<Request>, command: string): nat {
    if reqs == [] then 0
    else (if reqs[0].command == command then 1 else 0) + Occurrences(reqs[1..], command)
  }

  function RequestedCommands(reqs: seq<Request>): set<string> {
    set i | 0 <= i < |reqs| :: reqs[i].command
  }

  /** Any run of saves keeps the table invariant. */
  lemma {:induction false} ReplayKeepsTableValid(rows: seq<Interaction>, nextId: int, reqs: seq<Request>)
    requires TableValid(rows, nextId)
    ensures TableValid(Replay(rows, nextId, reqs).0, Replay(rows, nextId, reqs).1)
    decreases |reqs|
  {
    if reqs != [] {
      var q := reqs[0];
      var after := Saved(rows, nextId, q.question, q.command, q.explanation, q.now);
      SaveKeepsTableValid(rows, nextId, q.question, q.command, q.explanation, q.now);
      ReplayKeepsTableValid(after.0, after.1, reqs[1..]);
    }
  }

  /** After any run of saves the table holds one row for each command ever
      saved, and a command's use count has grown by the number of times it
      was saved. */
  lemma {:induction false} ReplayCounts(rows: seq<Interaction>, nextId: int, reqs: seq<Request>, command: string)
    requires UniqueCommands(rows)
    ensures var r := Replay(rows, nextId, reqs).0;
      && UniqueCommands(r)
      && Commands(r) == Commands(rows) + RequestedCommands(reqs)
      && UsesOf(r, command) == UsesOf(rows, command) + Occurrences(reqs, command)
    decreases |reqs|
  {
    if reqs != [] {
      var q := reqs[0];
      var after := Saved(rows, nextId, q.question, q.command, q.explanation, q.now);
      SaveKeepsCommandsUnique(rows, nextId, q.question, q.command, q.explanation, q.now);
      SaveCounts(rows, nextId, q.question, q.command, q.explanation, q.now, command);
      ReplayCounts(after.0, after.1, reqs[1..], command);
      RequestedCommandsCons(reqs);
    }
  }

  lemma RequestedCommandsCons(reqs: seq<Request>)
    requires reqs != []
    ensures RequestedCommands(reqs) == {reqs[0].command} + RequestedCommands(reqs[1..])
  {
    assert forall i :: 1 <= i < |reqs| ==> reqs[i] == reqs[1..][i - 1];
    assert forall i :: 0 <= i < |reqs| - 1 ==> reqs[1..][i] == reqs[i + 1];
  }

  /** With unique commands there are as many rows as stored commands. */
  lemma {:induction false} RowsPerCommand(rows: seq<Interaction>)
    requires UniqueCommands(rows)
    ensures |Commands(rows)| == |rows|
  {
    if rows != [] {
      var prev := rows[..|rows| - 1];
      var last := rows[|rows| - 1];
      RowsPerCommand(prev);
      assert Commands(rows) == Commands(prev) + {last.command} by {
        assert forall i :: 0 <= i < |prev| ==> prev[i] == rows[i];
      }
      assert last.command !in Commands(prev);
    }
  }

  /** Saving the same command any number of times into an empty table leaves
      a single row whose use count is that number. */
  lemma RepeatedSaves(nextId: int, reqs: seq<Request>, command: string)
    requires reqs != []
    requires forall i :: 0 <= i < |reqs| ==> reqs[i].command == command
    ensures var r := Replay([], nextId, reqs).0;
      |r| == 1 && r[0].command == command && r[0].useCount == |reqs|
  {
    ReplayCounts([], nextId, reqs, command);
    AllOccurrences(reqs, command);
    OneRequestedCommand(reqs, command);
    OneCommandTable(Replay([], nextId, reqs).0, command);
  }

  lemma OneRequestedCommand(reqs: seq<Request>, command: string)
    requires reqs != []
    requires forall i :: 0 <= i < |reqs| ==> reqs[i].command == command
    ensures Commands([]) + RequestedCommands(reqs) == {command}
  {
    assert reqs[0].command == command;
  }

  /** A table without duplicate commands that holds a single command has a
      single row, which carries that command's whole use count. */
  lemma OneCommandTable(rows: seq<Interaction>, command: string)
    requires UniqueCommands(rows) && Commands(rows) == {command}
    ensures |rows| == 1 && rows[0].command == command
    ensures UsesOf(rows, command) == rows[0].useCount
  {
    RowsPerCommand(rows);
    assert rows[0].command in Commands(rows);
    assert rows[..0] == [];
  }

  lemma {:induction false} AllOccurrences(reqs: seq<Request>, command: string)
    requires forall i :: 0 <= i < |reqs| ==> reqs[i].command == command
    ensures Occurrences(reqs, command) == |reqs|
  {
    if reqs != [] { AllOccurrences(reqs[1..], command); }
  }

  // --------------------------------------------------------------- queries

  /** A sort key: the BM25 rank, the use count and the creation time. */
  datatype Rank = Rank(score: real, uses: int, created: int)

  /** `a` may be listed before `b`: lower BM25 rank first (SQLite's BM25 is
      smaller for better matches), then more uses, then newer. */
  predicate RankLe(a: Rank, b: Rank) {
    || a.score < b.score
    || (a.score == b.score && (a.uses > b.uses || (a.uses == b.uses && a.created >= b.created)))
  }

  /** The two ORDER BY clauses: `List` orders by creation time alone, `Search`
      by the BM25 rank the caller supplies, then use count, then creation time. */
  datatype Order = Recency | Relevance(score: Interaction -> real)

  function RankOf(order: Order, x: Interaction): Rank {
    match order
    case Recency => Rank(0.0, 0, x.createdAt)
    case Relevance(score) => Rank(score(x), x.useCount, x.createdAt)
  }

  predicate Ordered(rs: seq<Interaction>, order: Order) {
    forall i, j :: 0 <= i < j < |rs| ==> RankLe(RankOf(order, rs[i]), RankOf(order, rs[j]))
  }

  function InsertBy(x: Interaction, rs: seq<Interaction>, order: Order): (r: seq<Interaction>)
    ensures multiset(r) == multiset(rs) + multiset{x}
    ensures Ordered(rs, order) ==> Ordered(r, order)
  {
    if rs == [] then [x]
    else if RankLe(RankOf(order, x), RankOf(order, rs[0])) then
      InsertByFront(x, rs, order);
      [x] + rs
    else
      var r' := InsertBy(x, rs[1..], order);
      assert rs == [rs[0]] + rs[1..];
      InsertByBehind(x, rs, r', order);
      [rs[0]] + r'
  }

  lemma InsertByFront(x: Interaction, rs: seq<Interaction>, order: Order)
    requires rs != [] && RankLe(RankOf(order, x), RankOf(order, rs[0]))
    ensures Ordered(rs, order) ==> Ordered([x] + rs, order)
  {
    if Ordered(rs, order) {
      forall j | 0 <= j < |rs| ensures RankLe(RankOf(order, x), RankOf(order, rs[j])) {
        if j > 0 {
          assert RankLe(RankOf(order, rs[0]), RankOf(order, rs[j]));
        }
      }
      var r := [x] + rs;
      forall i, j | 0 <= i < j < |r| ensures RankLe(RankOf(order, r[i]), RankOf(order, r[j])) {
        assert r[j] == rs[j - 1];
        if i > 0 { assert r[i] == rs[i - 1]; }
      }
    }
  }

  lemma InsertByBehind(x: Interaction, rs: seq<Interaction>, r': seq<Interaction>, order: Order)
    requires rs != [] && !RankLe(RankOf(order, x), RankOf(order, rs[0]))
    requires multiset(r') == multiset(rs[1..]) + multiset{x}
    ensures Ordered(rs, order) && Ordered(r', order) ==> Ordered([rs[0]] + r', order)
  {
    if Ordered(rs, order) && Ordered(r', order) {
      forall j | 0 <= j < |r'| ensures RankLe(RankOf(order, rs[0]), RankOf(order, r'[j])) {
        assert r'[j] in multiset(r');
        if r'[j] != x {
          assert r'[j] in multiset(rs[1..]);
          var k :| 0 <= k < |rs[1..]| && rs[1..][k] == r'[j];
          assert rs[k + 1] == r'[j];
        }
      }
      var r := [rs[0]] + r';
      forall i, j | 0 <= i < j < |r| ensures RankLe(RankOf(order, r[i]), RankOf(order, r[j])) {
        assert r[j] == r'[j - 1];
        if i > 0 { assert r[i] == r'[i - 1]; }
      }
    }
  }

  /** The rows in the order an ORDER BY returns them (ties in any order). */
  function SortBy(rs: seq<Interaction>, order: Order): (r: seq<Interaction>)
    ensures multiset(r) == multiset(rs)
    ensures Ordered(r, order)
  {
    if rs == [] then []
    else
      assert rs == [rs[0]] + rs[1..];
      InsertBy(rs[0], SortBy(rs[1..], order), order)
  }

  /** How many rows `LIMIT limit` keeps out of `n`; SQLite reads a negative
      limit as no limit. */
  function Capped(limit: int, n: nat): nat {
    if limit < 0 || limit > n then n else limit
  }

  /** ORDER BY, then LIMIT. */
  function Top(rs: seq<Interaction>, order: Order, limit: int): (r: seq<Interaction>)
    ensures |r| == Capped(limit, |rs|)
    ensures multiset(r) <= multiset(rs)
    ensures forall x :: x in r ==> x in rs
    ensures Ordered(r, order)
    ensures forall x, i :: x in rs && x !in r && 0 <= i < |r| ==>
              RankLe(RankOf(order, r[i]), RankOf(order, x))
  {
    var sorted := SortBy(rs, order);
    var n := Capped(limit, |rs|);
    assert |sorted| == |multiset(sorted)| == |multiset(rs)| == |rs|;
    TopFacts(sorted, rs, order, n);
    sorted[..n]
  }

  lemma TopFacts(sorted: seq<Interaction>, rs: seq<Interaction>, order: Order, n: nat)
    requires multiset(sorted) == multiset(rs) && Ordered(sorted, order) && n <= |sorted|
    ensures multiset(sorted[..n]) <= multiset(rs)
    ensures forall x :: x in sorted[..n] ==> x in rs
    ensures forall x, i :: x in rs && x !in sorted[..n] && 0 <= i < n ==>
              RankLe(RankOf(order, sorted[i]), RankOf(order, x))
  {
    assert sorted == sorted[..n] + sorted[n..];
    forall x, i | x in rs && x !in sorted[..n] && 0 <= i < n
      ensures RankLe(RankOf(order, sorted[i]), RankOf(order, x))
    {
      assert x in multiset(sorted);
      var j :| 0 <= j < |sorted| && sorted[j] == x;
      assert j >= n;
    }
    forall x | x in sorted[..n] ensures x in rs {
      assert x in multiset(sorted[..n]);
      assert x in multiset(rs);
    }
  }

  /** The FTS5 MATCH of the query `k1 OR k2 OR ...`: the row's index entry
      holds one of the keywords as a whole token. */
  predicate Hit(index: map<int, set<string>>, keywords: seq<string>, x: Interaction) {
    x.id in index && exists k :: k in keywords && k in index[x.id]
  }

  /** The rows of the join with the index that match the query. */
  function Matching(rows: seq<Interaction>, index: map<int, set<string>>, keywords: seq<string>)
    : (r: seq<Interaction>)
    ensures forall x :: multiset(r)[x] == if Hit(index, keywords, x) then multiset(rows)[x] else 0
  {
    if rows == [] then []
    else
      var prev := rows[..|rows| - 1];
      var last := rows[|rows| - 1];
      assert rows == prev + [last];
      if Hit(index, keywords, last) then Matching(prev, index, keywords) + [last]
      else Matching(prev, index, keywords)
  }

  lemma MatchingMembers(rows: seq<Interaction>, index: map<int, set<string>>, keywords: seq<string>)
    ensures forall x :: x in Matching(rows, index, keywords) <==> x in rows && Hit(index, keywords, x)
    ensures multiset(Matching(rows, index, keywords)) <= multiset(rows)
  {
    var m := Matching(rows, index, keywords);
    forall x ensures x in m <==> x in rows && Hit(index, keywords, x) {
      assert x in m <==> x in multiset(m);
      assert x in rows <==> x in multiset(rows);
    }
  }

  /** On a consistent index a row matches a question exactly when the
      question and the row's own question share a keyword: whole tokens, so
      "git" does not find a row whose only keyword is "digit". */
  lemma HitIff(rows: seq<Interaction>, nextId: int, index: map<int, set<string>>,
               question: string, k: int)
    requires TableValid(rows, nextId) && IndexConsistent(rows, index)
    requires 0 <= k < |rows|
    ensures Hit(index, KeywordsOf(question), rows[k]) <==>
            exists w :: w in KeywordsOf(question) && w in KeywordsOf(rows[k].question)
  {
    TokensOfJoin(KeywordsOf(rows[k].question));
  }

  // ----------------------------------------------------------------- store

  /** The `Store`: the table, its AUTOINCREMENT counter and its FTS5 index. */
  class Store {
    var rows: seq<Interaction>
    var nextId: int
    var index: map<int, set<string>>

    predicate Valid()
      reads this
    {
      TableValid(rows, nextId) && IndexConsistent(rows, index)
    }

    /** A freshly created database. */
    constructor ()
      ensures Valid()
      ensures rows == [] && nextId == 1 && index == map[]
    {
      rows := [];
      nextId := 1;
      index := map[];
    }

    /** `Save`: the UPDATE of every row holding the command, with the update
        trigger re-indexing each, then the INSERT when none was found, with
        the insert trigger indexing the new row. */
    method Save(question: string, command: string, explanation: string, now: int)
      requires Valid()
      modifies this
      ensures Valid()
      ensures (rows, nextId) == Saved(old(rows), old(nextId), question, command, explanation, now)
      ensures index == SavedIndex(old(rows), old(nextId), old(index), question, command)
    {
      var keywords := ExtractKeywords(question);
      var tags := Join(keywords, " ");
      assert tags == TagsOf(question);
      var affected := Affected(rows, command);
      SaveKeepsTableValid(rows, nextId, question, command, explanation, now);
      SaveKeepsIndexConsistent(rows, nextId, index, question, command, explanation, now);
      if affected == 0 {
        UpdateWithoutMatch(rows, index, question, command, explanation, tags);
      }
      ghost var after := Saved(rows, nextId, question, command, explanation, now);
      ghost var index' := SavedIndex(rows, nextId, index, question, command);
      rows, index := Updated(rows, question, command, explanation, tags), Reindexed(index, MatchedIds(rows, command), tags);
      if affected > 0 {
        assert rows == after.0 && nextId == after.1 && index == index';
        return;
      }
      rows := rows + [Interaction(nextId, question, command, explanation, tags, now, 1)];
      index := index[nextId := Tokenize(tags)];
      nextId := nextId + 1;
      assert rows == after.0 && nextId == after.1 && index == index';
    }

    /** `Clear`: DELETE of every row; the delete trigger removes each row's
        index entry. The AUTOINCREMENT counter is kept. */
    method Clear()
      requires Valid()
      modifies this
      ensures Valid()
      ensures rows == [] && index == map[] && nextId == old(nextId)
    {
      var gone := Ids(rows);
      rows := [];
      index := index - gone;
      assert index.Keys == {};
      assert index == map[];
    }

    /** The FTS5 `rebuild` run when the store is opened: the index is derived
        afresh from whatever table the file holds, including rows written by
        older versions or repeated commands; it needs only distinct row ids,
        which the INTEGER PRIMARY KEY guarantees. */
    method RebuildIndex()
      requires forall i, j :: 0 <= i < j < |rows| ==> rows[i].id < rows[j].id
      modifies this
      ensures rows == old(rows) && nextId == old(nextId)
      ensures index == IndexOf(rows)
      ensures IndexConsistent(rows, index)
      ensures TableValid(rows, nextId) ==> Valid()
    {
      index := IndexOf(rows);
    }

    /** `List`: every row, newest first, at most `limit` of them. */
    function List(limit: int): (r: seq<Interaction>)
      reads this
      ensures |r| == Capped(limit, |rows|)
      ensures multiset(r) <= multiset(rows)
      ensures forall i, j :: 0 <= i < j < |r| ==> r[i].createdAt >= r[j].createdAt
      ensures forall x, i :: x in rows && x !in r && 0 <= i < |r| ==> r[i].createdAt >= x.createdAt
    {
      var r := Top(rows, Recency, limit);
      assert forall x :: RankOf(Recency, x).created == x.createdAt;
      r
    }

    /** `Search`: nothing when the question has no keywords; otherwise the
        rows whose index entry holds one of its keywords, best BM25 rank
        first, then most used, then newest, at most `limit` of them. */
    function Search(question: string, limit: int, score: Interaction -> real): (r: seq<Interaction>)
      reads this
      ensures KeywordsOf(question) == [] ==> r == []
      ensures |r| == Capped(limit, |Matching(rows, index, KeywordsOf(question))|)
      ensures forall x :: x in r ==> x in rows && Hit(index, KeywordsOf(question), x)
      ensures multiset(r) <= multiset(rows)
      ensures Ordered(r, Relevance(score))
      ensures forall x, i :: x in rows && Hit(index, KeywordsOf(question), x) && x !in r && 0 <= i < |r| ==>
                RankLe(RankOf(Relevance(score), r[i]), RankOf(Relevance(score), x))
    {
      var keywords := KeywordsOf(question);
      MatchingMembers(rows, index, keywords);
      if keywords == [] then
        assert Matching(rows, index, keywords) == [] by {
          assert multiset(Matching(rows, index, keywords)) == multiset{};
        }
        []
      else
        Top(Matching(rows, index, keywords), Relevance(score), limit)
    }
  }

  /** The index entries the update trigger rewrites are those of the updated
      rows, so the index stays consistent with the updated table. */
  lemma UpdateKeepsIndexConsistent(rows: seq<Interaction>, index: map<int, set<string>>,
                                   hit: set<int>, question: string, command: string,
                                   explanation: string, tags: string)
    requires forall i, j :: 0 <= i < j < |rows| ==> rows[i].id < rows[j].id
    requires IndexConsistent(rows, index)
    requires hit == MatchedIds(rows, command)
    ensures IndexConsistent(Updated(rows, question, command, explanation, tags), Reindexed(index, hit, tags))
  {
    var index' := Reindexed(index, hit, tags);
    UpdatedIds(rows, question, command, explanation, tags);
    UpdatedEntries(rows, index, index', hit, question, command, explanation, tags);
  }

  lemma UpdatedEntries(rows: seq<Interaction>, index: map<int, set<string>>, index': map<int, set<string>>,
                       hit: set<int>, question: string, command: string,
                       explanation: string, tags: string)
    requires forall i, j :: 0 <= i < j < |rows| ==> rows[i].id < rows[j].id
    requires IndexConsistent(rows, index)
    requires hit == MatchedIds(rows, command)
    requires index' == Reindexed(index, hit, tags)
    ensures forall i :: 0 <= i < |rows| ==>
      var x := Updated(rows, question, command, explanation, tags)[i];
      x.id in index' && index'[x.id] == Tokenize(x.tags)
  {
    var r := Updated(rows, question, command, explanation, tags);
    forall i | 0 <= i < |rows| ensures r[i].id in index' && index'[r[i].id] == Tokenize(r[i].tags) {
      assert r[i].id == rows[i].id;
      assert rows[i].id in index;
      if rows[i].command == command {
        assert rows[i].id in hit;
      } else {
        forall j | 0 <= j < |rows| && rows[j].command == command ensures rows[j].id != rows[i].id {
          assert j != i;
        }
        assert rows[i].id !in hit;
      }
    }
  }

  /** An UPDATE that finds no row leaves the table and the index as they were. */
  lemma UpdateWithoutMatch(rows: seq<Interaction>, index: map<int, set<string>>, question: string,
                           command: string, explanation: string, tags: string)
    requires Affected(rows, command) == 0
    ensures Updated(rows, question, command, explanation, tags) == rows
    ensures Reindexed(index, MatchedIds(rows, command), tags) == index
  {
    AffectedCounts(rows, command);
    assert MatchedIds(rows, command) == {};
  }

  /** `Save` keeps the index consistent with the table. */
  lemma SaveKeepsIndexConsistent(rows: seq<Interaction>, nextId: int, index: map<int, set<string>>,
                                 question: string, command: string, explanation: string, now: int)
    requires TableValid(rows, nextId) && IndexConsistent(rows, index)
    ensures IndexConsistent(Saved(rows, nextId, question, command, explanation, now).0,
                            SavedIndex(rows, nextId, index, question, command))
  {
    var tags := TagsOf(question);
    UpdateKeepsIndexConsistent(rows, index, MatchedIds(rows, command), question, command, explanation, tags);
    if Affected(rows, command) == 0 {
      UpdateWithoutMatch(rows, index, question, command, explanation, tags);
      InsertKeepsIndexConsistent(rows, nextId, index, Interaction(nextId, question, command, explanation, tags, now, 1));
    }
  }

  /** The insert trigger indexes the new row, whose id is fresh. */
  lemma InsertKeepsIndexConsistent(rows: seq<Interaction>, nextId: int, index: map<int, set<string>>,
                                   x: Interaction)
    requires forall i :: 0 <= i < |rows| ==> rows[i].id < nextId
    requires IndexConsistent(rows, index) && x.id == nextId
    ensures IndexConsistent(rows + [x], index[x.id := Tokenize(x.tags)])
  {
    var r := rows + [x];
    assert forall i :: 0 <= i < |rows| ==> r[i] == rows[i];
    assert r[|rows|] == x;
    assert Ids(r) == Ids(rows) + {x.id};
  }

  lemma UpdatedIds(rows: seq<Interaction>, question: string, command: string,
                   explanation: string, tags: string)
    ensures Ids(Updated(rows, question, command, explanation, tags)) == Ids(rows)
  {
    var r := Updated(rows, question, command, explanation, tags);
    assert forall i :: 0 <= i < |rows| ==> r[i].id == rows[i].id;
  }

  /** After `Clear`, `List` and `Search` return nothing. */
  lemma EmptyStoreAnswersNothing(s: Store, limit: int, question: string, score: Interaction -> real)
    requires s.rows == []
    ensures s.List(limit) == [] && s.Search(question, limit, score) == []
  {
  }
}
