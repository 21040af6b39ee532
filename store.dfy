/** The item store: one table of feed items keyed by an id derived from the
    item's link, each with a `sent` flag that starts at 0. The methods of
    `ItemStore` are the statements the pipeline runs against the table.

    The engine's answer to each attempt (the statement runs, the database
    is locked, or some other error is raised) is a parameter. */
module Store {
  import opened Strings

  /** One row: title, link, publish time as stored text, cleaned abstract,
      and whether the item has been delivered. */
  datatype Row = Row(title: string, link: string, published: string, summaryText: string, sent: bool)

  /** id -> row; the id is the primary key. */
  type Table = map<string, Row>

  /** What the engine does with one attempt at a statement. */
  datatype Engine = Runs | Locked | Fails

  predicate HasLink(t: Table, link: string)
  {
    exists id :: id in t && t[id].link == link
  }

  /** The pipeline's invariant: every row sits under the id derived from
      its own link. */
  ghost predicate KeyedByLink(t: Table, idOf: string -> string)
  {
    forall id :: id in t ==> id == idOf(t[id].link)
  }

  /** Under that invariant no two rows share a link. */
  lemma LinksAreUnique(t: Table, idOf: string -> string)
    requires KeyedByLink(t, idOf)
    ensures forall a, b :: a in t && b in t && t[a].link == t[b].link ==> a == b
  {
  }

  /** `UPDATE papers SET sent = 1 WHERE link = ?` for every link in `links`:
      a row ends up sent exactly when it was sent or its link is listed,
      and nothing but `sent` changes. */
  function MarkLinks(t: Table, links: set<string>): (r: Table)
    ensures r.Keys == t.Keys
    ensures forall id :: id in t ==> (r[id].sent <==> t[id].sent || t[id].link in links)
    ensures forall id :: id in t ==> r[id].(sent := false) == t[id].(sent := false)
  {
    map id | id in t :: if t[id].link in links then t[id].(sent := true) else t[id]
  }

  /** Storing a row under a new id adds exactly one key. */
  lemma AddRowCount(t: Table, id: string, row: Row)
    requires id !in t
    ensures |t[id := row].Keys| == |t.Keys| + 1
  {
    assert t[id := row].Keys == t.Keys + {id};
  }

  /** Marking no link changes nothing. */
  lemma MarkNothing(t: Table)
    ensures MarkLinks(t, {}) == t
  {
    var r := MarkLinks(t, {});
    forall id | id in t ensures r[id] == t[id] {
      assert r[id].(sent := false) == t[id].(sent := false);
    }
  }

  /** `UPDATE papers SET sent = 1 WHERE sent = 0`: every row ends up sent,
      and nothing but `sent` changes. */
  function MarkAll(t: Table): (r: Table)
    ensures r.Keys == t.Keys
    ensures forall id :: id in t ==> r[id].sent
    ensures forall id :: id in t ==> r[id].(sent := false) == t[id].(sent := false)
  {
    map id | id in t :: t[id].(sent := true)
  }

  /** Marking in two steps is marking once with both lists, so batches
      marked one after another add up. */
  lemma {:induction false} MarkLinksCompose(t: Table, a: set<string>, b: set<string>)
    ensures MarkLinks(MarkLinks(t, a), b) == MarkLinks(t, a + b)
  {
    var l, r := MarkLinks(MarkLinks(t, a), b), MarkLinks(t, a + b);
    forall id | id in t ensures l[id] == r[id] {
      assert l[id].(sent := false) == r[id].(sent := false);
    }
  }

  /** The value a retry loop reads for an attempt; attempts past the given
      answers run. */
  function EngineAt(engine: seq<Engine>, attempt: nat): Engine
  {
    if attempt < |engine| then engine[attempt] else Runs
  }

  /** The bounded retry of the status updates gets its statement through:
      some attempt within `maxRetries` runs and every attempt before it met
      a lock (a lock on the last attempt, or any other error, ends the loop
      without a change). */
  predicate RetryCommits(engine: seq<Engine>, maxRetries: nat)
  {
    exists a :: 0 <= a < maxRetries && EngineAt(engine, a) == Runs
      && forall b :: 0 <= b < a ==> EngineAt(engine, b) == Locked
  }

  /** The index of the statement that raises, if it falls inside the batch. */
  predicate BatchAborts(failAt: Option<nat>, n: nat)
  {
    failAt.Some? && failAt.value < n
  }

  function LinkSet(links: seq<string>): set<string>
  {
    set l | l in links
  }

  class ItemStore {
    var rows: Table

    constructor ()
      ensures rows == map[]
    {
      rows := map[];
    }

    /** `SELECT id FROM papers WHERE link = ?`: a scan of the table. */
    method FindByLink(link: string) returns (found: bool)
      ensures found <==> HasLink(rows, link)
    {
      var pending := rows.Keys;
      found := false;
      while pending != {}
        invariant pending <= rows.Keys
        invariant found <==> exists id :: id in rows && id !in pending && rows[id].link == link
        decreases pending
      {
        var id :| id in pending;
        if rows[id].link == link {
          found := true;
        }
        pending := pending - {id};
      }
    }

    /** `INSERT` under the primary key: a row whose id is already taken is
        rejected, never overwritten (first write wins). */
    method TryInsert(id: string, row: Row) returns (inserted: bool)
      modifies this
      ensures inserted <==> id !in old(rows)
      ensures rows == if inserted then old(rows)[id := row] else old(rows)
    {
      inserted := id !in rows;
      if inserted {
        rows := rows[id := row];
      }
    }

    /** `SELECT ... FROM papers WHERE sent = 0`: every unsent row once, in
        an order the engine chooses. */
    method UnsentIds() returns (ids: seq<string>)
      ensures forall i, j :: 0 <= i < j < |ids| ==> ids[i] != ids[j]
      ensures forall id :: id in ids <==> id in rows && !rows[id].sent
    {
      var pending := set id | id in rows && !rows[id].sent;
      ids := [];
      while pending != {}
        invariant forall id :: id in pending ==> id in rows && !rows[id].sent
        invariant forall id :: id in ids <==> id in rows && !rows[id].sent && id !in pending
        invariant forall i, j :: 0 <= i < j < |ids| ==> ids[i] != ids[j]
        decreases pending
      {
        var id :| id in pending;
        ids := ids + [id];
        pending := pending - {id};
      }
    }

    /** Marks the row with `link` sent, retrying up to `maxRetries` times
        while the database is locked; answers whether a row was affected. */
    method UpdateSentByLink(link: string, maxRetries: nat, engine: seq<Engine>) returns (updated: bool)
      modifies this
      ensures RetryCommits(engine, maxRetries) ==>
        rows == MarkLinks(old(rows), {link}) && (updated <==> HasLink(old(rows), link))
      ensures !RetryCommits(engine, maxRetries) ==> rows == old(rows) && !updated
    {
      var attempt := 0;
      while attempt < maxRetries
        invariant 0 <= attempt <= maxRetries
        invariant forall b :: 0 <= b < attempt ==> EngineAt(engine, b) == Locked
        invariant rows == old(rows)
      {
        var status := EngineAt(engine, attempt);
        if status == Runs {
          assert RetryCommits(engine, maxRetries);
          var affected := set id | id in rows && rows[id].link == link;
          if HasLink(rows, link) {
            var id :| id in rows && rows[id].link == link;
            assert id in affected;
          }
          rows := MarkLinks(rows, {link});
          return |affected| > 0;
        } else if status == Locked && attempt < maxRetries - 1 {
          attempt := attempt + 1;
        } else {
          NoCommitAfterFailure(engine, maxRetries, attempt);
          return false;
        }
      }
      NoCommitAfterFailure(engine, maxRetries, attempt);
      return false;
    }

    /** Marks every unsent row sent, with the same retry on a locked
        database; answers whether the statement got through. */
    method MarkAllUnsentAsSent(maxRetries: nat, engine: seq<Engine>) returns (ok: bool)
      modifies this
      ensures ok <==> RetryCommits(engine, maxRetries)
      ensures rows == if ok then MarkAll(old(rows)) else old(rows)
    {
      var attempt := 0;
      while attempt < maxRetries
        invariant 0 <= attempt <= maxRetries
        invariant forall b :: 0 <= b < attempt ==> EngineAt(engine, b) == Locked
        invariant rows == old(rows)
      {
        var status := EngineAt(engine, attempt);
        if status == Runs {
          assert RetryCommits(engine, maxRetries);
          rows := MarkAll(rows);
          return true;
        } else if status == Locked && attempt < maxRetries - 1 {
          attempt := attempt + 1;
        } else {
          NoCommitAfterFailure(engine, maxRetries, attempt);
          return false;
        }
      }
      NoCommitAfterFailure(engine, maxRetries, attempt);
      return false;
    }

    /** Marks a delivered batch sent: one transaction runs an UPDATE per
        link, and an error at statement `failAt` rolls all of them back, so
        either every link of the batch is marked or none is. */
    method MarkBatchAsSent(links: seq<string>, failAt: Option<nat>)
      modifies this
      ensures rows == if BatchAborts(failAt, |links|) then old(rows) else MarkLinks(old(rows), LinkSet(links))
    {
      var pending := rows;
      var i := 0;
      while i < |links|
        invariant 0 <= i <= |links|
        invariant !(failAt.Some? && failAt.value < i)
        invariant rows == old(rows)
        invariant pending == MarkLinks(rows, LinkSet(links[..i]))
      {
        if failAt == Some(i) {
          return;
        }
        MarkLinksCompose(rows, LinkSet(links[..i]), {links[i]});
        assert LinkSet(links[..i + 1]) == LinkSet(links[..i]) + {links[i]} by {
          assert links[..i + 1] == links[..i] + [links[i]];
        }
        pending := MarkLinks(pending, {links[i]});
        i := i + 1;
      }
      assert links[..i] == links;
      rows := pending;
    }
  }

  /** A retry loop that stopped at `attempt` without running its statement
      (a lock on the last attempt or another error, or all attempts used
      up) never commits. */
  lemma NoCommitAfterFailure(engine: seq<Engine>, maxRetries: nat, attempt: nat)
    requires attempt <= maxRetries
    requires forall b :: 0 <= b < attempt ==> EngineAt(engine, b) == Locked
    requires attempt < maxRetries ==> EngineAt(engine, attempt) != Runs
    requires attempt < maxRetries ==> EngineAt(engine, attempt) == Fails || attempt == maxRetries - 1
    ensures !RetryCommits(engine, maxRetries)
  {
    forall a | 0 <= a < maxRetries && EngineAt(engine, a) == Runs
      ensures attempt < a && EngineAt(engine, attempt) == Fails
    {
    }
  }
}
