/**
 The append-only queue table and how it is read. Identity columns leave gaps, so ids only increase.
 Rows become visible in id order: a read sees a prefix of everything that is ever appended.
 */
module QueueServer {
  import opened Prelude

  datatype Row = Row(id: nat, content: string, objectHash: string)
  datatype QItem = QItem(content: string, objectHash: string)

  /** The table and the next value of its id sequence. */
  datatype Table = Table(rows: seq<Row>, nextId: nat)

  ghost predicate Ordered(rows: seq<Row>) {
    forall i, j :: 0 <= i < j < |rows| ==> rows[i].id < rows[j].id
  }

  function Hashes(rows: seq<Row>): set<string> {
    set r | r in rows :: r.objectHash
  }

  ghost predicate Sound(t: Table) {
    && Ordered(t.rows)
    && (forall i :: 0 <= i < |t.rows| ==> t.rows[i].id < t.nextId)
    && (forall i, j :: 0 <= i < j < |t.rows| ==> t.rows[i].objectHash != t.rows[j].objectHash)
  }

  /** An insert that the unique hash column refuses still uses up an id. */
  function Insert(t: Table, content: string, hash: string): Table {
    if hash in Hashes(t.rows) then t.(nextId := t.nextId + 1)
    else Table(t.rows + [Row(t.nextId, content, hash)], t.nextId + 1)
  }

  lemma InsertSound(t: Table, content: string, hash: string)
    requires Sound(t)
    ensures Sound(Insert(t, content, hash)) && t.rows <= Insert(t, content, hash).rows
    ensures Hashes(Insert(t, content, hash).rows) == Hashes(t.rows) + {hash}
  {}

  class Server {
    var table: Table

    ghost predicate Valid()
      reads this
    {
      Sound(table)
    }

    constructor ()
      ensures Valid() && table.rows == []
    {
      table := Table([], 1);
    }

    /**
     `storage` is the answer of the storage that is asked first, if there is one. Without a hash of its
     own an item gets a computed one, and inserting it twice throws; with a hash it is skipped.
     */
    method Accept(item: QItem, storage: Option<bool>, hashOf: string -> string) returns (r: Result<bool>)
      requires Valid()
      modifies this
      ensures Valid()
      ensures var hash := if item.objectHash == "" then hashOf(item.content) else item.objectHash;
              if storage == Some(false) then table == old(table) && r == Ok(false)
              else
                && table == Insert(old(table), item.content, hash)
                && (r == Ok(true) <==> hash !in Hashes(old(table).rows))
                && (r.Thrown? <==> hash in Hashes(old(table).rows) && item.objectHash == "")
      ensures r == Ok(true) ==>
                var hash := if item.objectHash == "" then hashOf(item.content) else item.objectHash;
                table.rows == old(table).rows + [Row(old(table).nextId, item.content, hash)]
      ensures r != Ok(true) ==> table.rows == old(table).rows
    {
      if storage == Some(false) {
        return Ok(false);
      }
      if item.objectHash == "" {
        r := AppendDirect(item.content, hashOf);
      } else {
        var success := AppendWithHashChecks(item.content, item.objectHash);
        r := Ok(success);
      }
    }

    method AppendWithHashChecks(cmd: string, cmdHash: string) returns (inserted: bool)
      requires Valid()
      modifies this
      ensures Valid() && table == Insert(old(table), cmd, cmdHash)
      ensures inserted <==> cmdHash !in Hashes(old(table).rows)
    {
      InsertSound(table, cmd, cmdHash);
      inserted := cmdHash !in Hashes(table.rows);
      table := Insert(table, cmd, cmdHash);
    }

    method AppendDirect(cmd: string, hashOf: string -> string) returns (r: Result<bool>)
      requires Valid()
      modifies this
      ensures Valid() && table == Insert(old(table), cmd, hashOf(cmd))
      ensures r == if hashOf(cmd) in Hashes(old(table).rows) then Thrown("duplicate key") else Ok(true)
    {
      InsertSound(table, cmd, hashOf(cmd));
      r := if hashOf(cmd) in Hashes(table.rows) then Thrown("duplicate key") else Ok(true);
      table := Insert(table, cmd, hashOf(cmd));
    }
  }

  // ---------------------------------------------------------------- reading

  /** The rows with an id above `lo` and at most `hi`, in table order. */
  function Between(rows: seq<Row>, lo: nat, hi: nat): seq<Row> {
    if rows == [] then []
    else
      var front, last := Between(rows[..|rows| - 1], lo, hi), rows[|rows| - 1];
      if lo < last.id <= hi then front + [last] else front
  }

  function After(rows: seq<Row>, offset: nat): seq<Row> {
    if rows == [] then []
    else
      var front, last := After(rows[..|rows| - 1], offset), rows[|rows| - 1];
      if offset < last.id then front + [last] else front
  }

  function ReadItems(rows: seq<Row>, offset: nat, pageSize: nat): seq<Row> {
    var after := After(rows, offset);
    after[..Min(pageSize, |after|)]
  }

  function GetFirstRowIdAfter(rows: seq<Row>, offset: nat): Option<nat> {
    var after := After(rows, offset);
    if after == [] then None else Some(after[0].id)
  }

  /** What a query sees of everything that is ever appended. */
  function Visible(log: seq<Row>, seen: nat): seq<Row> {
    log[..Min(seen, |log|)]
  }

  /** The two queries may see different states of the table: `seen` rows first, `seenLater` rows then. */
  function ReadWithLastOffset(log: seq<Row>, seen: nat, seenLater: nat, firstOffset: nat, pageSize: nat): (seq<Row>, nat) {
    var items := ReadItems(Visible(log, seen), firstOffset, pageSize);
    if items != [] then (items, items[|items| - 1].id)
    else
      var nextId := GetFirstRowIdAfter(Visible(log, seenLater), firstOffset);
      (items, if nextId.None? || nextId.value == 0 then firstOffset else nextId.value - 1)
  }

  lemma {:induction false} AfterFacts(rows: seq<Row>, offset: nat)
    requires Ordered(rows)
    ensures Ordered(After(rows, offset))
    ensures forall r :: r in After(rows, offset) <==> r in rows && r.id > offset
  {
    if rows != [] {
      var front := rows[..|rows| - 1];
      AfterFacts(front, offset);
      assert rows == front + [rows[|rows| - 1]];
      var a := After(front, offset);
      forall i | 0 <= i < |a| ensures a[i].id < rows[|rows| - 1].id {
        assert a[i] in front;
      }
    }
  }

  lemma {:induction false} BetweenSplit(rows: seq<Row>, a: nat, b: nat, c: nat)
    requires Ordered(rows) && a <= b <= c
    ensures Between(rows, a, c) == Between(rows, a, b) + Between(rows, b, c)
  {
    if rows != [] {
      var front, last := rows[..|rows| - 1], rows[|rows| - 1];
      BetweenSplit(front, a, b, c);
      if a < last.id <= b {
        EmptyBetween(front, b, c, last.id);
      }
    }
  }

  /** Nothing lies between two bounds that all rows stay below. */
  lemma {:induction false} EmptyBetween(rows: seq<Row>, lo: nat, hi: nat, below: nat)
    requires forall i :: 0 <= i < |rows| ==> rows[i].id < below
    requires below <= lo + 1
    ensures Between(rows, lo, hi) == []
  {
    if rows != [] {
      EmptyBetween(rows[..|rows| - 1], lo, hi, below);
    }
  }

  /** A page is exactly the stretch of the table up to its last row. */
  lemma {:induction false} PageIsStretch(rows: seq<Row>, offset: nat, k: nat)
    requires Ordered(rows) && 0 < k <= |After(rows, offset)|
    ensures After(rows, offset)[..k] == Between(rows, offset, After(rows, offset)[k - 1].id)
  {
    var front, last := rows[..|rows| - 1], rows[|rows| - 1];
    var b := After(front, offset);
    if k <= |b| {
      PageIsStretch(front, offset, k);
      AfterFacts(front, offset);
      assert b[k - 1] in b;
      assert After(rows, offset)[..k] == b[..k];
    } else {
      assert After(rows, offset)[..k] == b + [last];
      WholeStretch(front, offset, last.id);
    }
  }

  lemma {:induction false} WholeStretch(rows: seq<Row>, offset: nat, hi: nat)
    requires forall i :: 0 <= i < |rows| ==> rows[i].id <= hi
    ensures Between(rows, offset, hi) == After(rows, offset)
  {
    if rows != [] {
      WholeStretch(rows[..|rows| - 1], offset, hi);
    }
  }

  /** Rows that only appear later have larger ids, so they do not belong to the stretch. */
  lemma {:induction false} LaterRowsAbove(log: seq<Row>, seen: nat, lo: nat, hi: nat)
    requires Ordered(log) && seen <= |log|
    requires forall i :: seen <= i < |log| ==> log[i].id > hi
    ensures Between(log, lo, hi) == Between(log[..seen], lo, hi)
    decreases |log|
  {
    if seen < |log| {
      LaterRowsAbove(log[..|log| - 1], seen, lo, hi);
      assert log[..|log| - 1][..seen] == log[..seen];
    } else {
      assert log[..seen] == log;
    }
  }

  /**
   A reply covers the queue without a hole: its items are all rows of the queue, also of those that
   appear later, between the offset it was asked for and the offset it reports, which is not smaller.
   */
  lemma ReplyCovers(log: seq<Row>, seen: nat, seenLater: nat, firstOffset: nat, pageSize: nat)
    requires Ordered(log) && seen <= seenLater <= |log| && pageSize >= 1
    ensures var (items, lastOffset) := ReadWithLastOffset(log, seen, seenLater, firstOffset, pageSize);
            && firstOffset <= lastOffset
            && items == Between(log, firstOffset, lastOffset)
            && (items == [] <==> After(Visible(log, seen), firstOffset) == [])
  {
    if After(Visible(log, seen), firstOffset) != [] {
      var k := Min(pageSize, |After(Visible(log, seen), firstOffset)|);
      PageCovers(log, seen, firstOffset, k);
    } else {
      AfterFacts(Visible(log, seenLater), firstOffset);
      NothingBefore(log, seenLater, firstOffset);
    }
  }

  /** A page is full, or it has all that was visible behind the offset. */
  lemma PageIsFullOrAll(log: seq<Row>, seen: nat, seenLater: nat, firstOffset: nat, pageSize: nat)
    requires Ordered(log) && seen <= |log|
    ensures var items := ReadWithLastOffset(log, seen, seenLater, firstOffset, pageSize).0;
            |items| == pageSize ||
            (|items| < pageSize && forall i :: 0 <= i < seen && log[i].id > firstOffset ==> log[i] in items)
  {
    AfterFacts(Visible(log, seen), firstOffset);
    forall i | 0 <= i < seen ensures log[i] in Visible(log, seen) {
      assert Visible(log, seen)[i] == log[i];
    }
  }

  lemma PageCovers(log: seq<Row>, seen: nat, offset: nat, k: nat)
    requires Ordered(log) && seen <= |log| && 0 < k <= |After(log[..seen], offset)|
    ensures var after := After(log[..seen], offset);
            after[k - 1].id > offset && after[..k] == Between(log, offset, after[k - 1].id)
  {
    var rows, after := log[..seen], After(log[..seen], offset);
    AfterFacts(rows, offset);
    PageIsStretch(rows, offset, k);
    assert after[k - 1] in after;
    var j :| 0 <= j < seen && log[j] == after[k - 1];
    LaterRowsAbove(log, seen, offset, after[k - 1].id);
  }

  lemma {:induction false} EmptyRange(rows: seq<Row>, offset: nat)
    ensures Between(rows, offset, offset) == []
  {
    if rows != [] {
      EmptyRange(rows[..|rows| - 1], offset);
    }
  }

  /** In the gap branch nothing is skipped: no row lies between the offset and the id before the next row. */
  lemma NothingBefore(log: seq<Row>, seenLater: nat, firstOffset: nat)
    requires Ordered(log) && seenLater <= |log|
    ensures var next := GetFirstRowIdAfter(Visible(log, seenLater), firstOffset);
            && (next.Some? ==> next.value > firstOffset)
            && Between(log, firstOffset, if next.None? then firstOffset else next.value - 1) == []
            && (next.None? <==> forall i :: 0 <= i < seenLater ==> log[i].id <= firstOffset)
            && forall seen: nat, pageSize: nat :: ReadWithLastOffset(log, seen, seenLater, firstOffset, pageSize).0 == [] ==>
                 ReadWithLastOffset(log, seen, seenLater, firstOffset, pageSize).1 == if next.None? then firstOffset else next.value - 1
  {
    AfterFacts(Visible(log, seenLater), firstOffset);
    forall i | 0 <= i < seenLater ensures log[i] in Visible(log, seenLater) {
      assert Visible(log, seenLater)[i] == log[i];
    }
    var after := After(Visible(log, seenLater), firstOffset);
    if after == [] {
      EmptyRange(log, firstOffset);
    } else {
      AfterFacts(Visible(log, seenLater), firstOffset);
      assert after[0] in after;
      forall i | 0 <= i < |log| && log[i].id > firstOffset ensures log[i].id >= after[0].id {
        NextIsFirst(log, seenLater, firstOffset, i);
      }
      NoneBetween(log, firstOffset, after[0].id - 1);
    }
  }

  lemma NextIsFirst(log: seq<Row>, seenLater: nat, offset: nat, i: nat)
    requires Ordered(log) && seenLater <= |log| && i < |log| && log[i].id > offset
    requires After(Visible(log, seenLater), offset) != []
    ensures log[i].id >= After(Visible(log, seenLater), offset)[0].id
  {
    var rows := Visible(log, seenLater);
    var after := After(rows, offset);
    AfterFacts(rows, offset);
    if i < seenLater {
      assert rows[i] in after;
      var k :| 0 <= k < |after| && after[k] == rows[i];
    } else {
      assert after[0] in after;
      var j :| 0 <= j < |rows| && rows[j] == after[0];
      assert log[j] == after[0];
    }
  }

  lemma {:induction false} NoneBetween(rows: seq<Row>, lo: nat, hi: nat)
    requires forall i :: 0 <= i < |rows| ==> !(lo < rows[i].id <= hi)
    ensures Between(rows, lo, hi) == []
  {
    if rows != [] {
      NoneBetween(rows[..|rows| - 1], lo, hi);
    }
  }
}
