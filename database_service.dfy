/**
 * The record store: the lookup by id and email that marks the found
 * newsletter as read. `Lookup` says what one call does to the table;
 * `NewsletterStore` holds the table and performs the call in place.
 */
module DatabaseService {
  import opened Wrappers
  import opened Models

  /** Where, if anywhere, the database fails during one call. */
  datatype StoreFault = NoFault | QueryFails | CommitFails

  /**
   * What the caller receives: the row, `None`, or a raised database error.
   * A returned row is `expired` when the call committed: under the session's
   * default `expire_on_commit`, its attributes must be reloaded on next access.
   */
  datatype LookupOutcome = Found(newsletter: Newsletter, expired: bool) | NotFound | StoreError

  /** One call: what the caller receives, and the table afterwards. */
  datatype LookupResult = LookupResult(outcome: LookupOutcome, table: Table)

  /** The rows that the query's two equality filters select. */
  ghost function MatchingRows(t: Table, id: string, email: string): set<Newsletter> {
    set k | k in t && t[k].id == id && t[k].email == email :: t[k]
  }

  /** `query(...).filter(id == .., email == ..).first()` on a table indexed by id. */
  function FirstMatch(t: Table, id: string, email: string): Option<Newsletter> {
    if id in t && t[id].email == email then Some(t[id]) else None
  }

  /** Because `id` is the primary key, the filter selects at most one row, and `first()` is that row. */
  lemma FirstMatchIsOnlyMatch(t: Table, id: string, email: string)
    requires KeyedById(t)
    ensures |MatchingRows(t, id, email)| <= 1
    ensures FirstMatch(t, id, email).None? ==> MatchingRows(t, id, email) == {}
    ensures FirstMatch(t, id, email).Some? ==> MatchingRows(t, id, email) == {FirstMatch(t, id, email).value}
  {
    if id in t && t[id].email == email {
      assert MatchingRows(t, id, email) == {t[id]};
    } else {
      assert MatchingRows(t, id, email) == {};
    }
  }

  /** The two columns the update writes: `read` and, through `onupdate`, `updated_at`. */
  function MarkedRead(n: Newsletter, now: Timestamp): Newsletter {
    n.(read := true, updatedAt := Some(now))
  }

  /** The columns the update leaves alone. */
  predicate SameExceptReadState(a: Newsletter, b: Newsletter) {
    a.id == b.id && a.content == b.content && a.email == b.email &&
    a.imageUrl == b.imageUrl && a.createdAt == b.createdAt
  }

  /** The call commits a change: a row matches, it is still unread, and the database does not fail. */
  predicate Commits(t: Table, id: string, email: string, fault: StoreFault) {
    fault == NoFault && FirstMatch(t, id, email).Some? && !FirstMatch(t, id, email).value.read
  }

  /**
   * `get_newsletter_by_id_and_email`: select the row with this id and this
   * email; if it is unread, set `read` and commit; return the row or nothing.
   * A failing query or commit is rolled back and re-raised.
   */
  function Lookup(t: Table, id: string, email: string, fault: StoreFault, now: Timestamp): (r: LookupResult)
    // Unless it fails, the call finds a row exactly when id and email both match, whatever `read` was.
    ensures fault == NoFault ==> !r.outcome.StoreError?
    ensures !r.outcome.StoreError? ==> (r.outcome.Found? <==> id in t && t[id].email == email)
    // A row is returned only when both its id and its email are the arguments.
    ensures r.outcome.Found? ==> id in t && r.outcome.newsletter.id == t[id].id &&
                                 r.outcome.newsletter.email == email && t[id].email == email
    // With the primary key intact, the returned row carries the requested id.
    ensures KeyedById(t) && r.outcome.Found? ==> r.outcome.newsletter.id == id
    // A fault is reported exactly when the query fails, or the commit fails while a change is pending.
    ensures r.outcome.StoreError? <==> fault == QueryFails || (fault == CommitFails && Commits(t, id, email, NoFault))
    // A wrong email on an existing id looks exactly like a missing id, and nothing is written.
    ensures fault != QueryFails && !(id in t && t[id].email == email) ==> r == LookupResult(NotFound, t)
    // The caller always sees the row as read; it is the row now stored, with its other columns intact.
    ensures r.outcome.Found? ==> r.outcome.newsletter.read && id in r.table && r.table[id] == r.outcome.newsletter &&
                                 SameExceptReadState(r.outcome.newsletter, t[id])
    // Marking a row read records the database's `now()` for the transaction in `updated_at`; an already-read row is returned as stored.
    ensures r.outcome.Found? && !t[id].read ==> r.outcome.newsletter.updatedAt == Some(now)
    ensures r.outcome.Found? && t[id].read ==> r.outcome.newsletter == t[id]
    // The returned row is expired exactly when the call committed.
    ensures r.outcome.Found? ==> (r.outcome.expired <==> Commits(t, id, email, fault))
    // Only a matched row can change, and only its read state.
    ensures r.table.Keys == t.Keys
    ensures forall k :: k in t && k != id ==> r.table[k] == t[k]
    ensures id in t ==> SameExceptReadState(r.table[id], t[id])
    // The table changes exactly when an unread matching row is committed; `read` never goes back.
    ensures r.table != t <==> Commits(t, id, email, fault)
    ensures forall k :: k in t && t[k].read ==> r.table[k].read
    // A failed call leaves the table as it was.
    ensures r.outcome.StoreError? ==> r.table == t
    ensures KeyedById(t) ==> KeyedById(r.table)
  {
    if fault == QueryFails then
      LookupResult(StoreError, t)
    else
      match FirstMatch(t, id, email)
      case None => LookupResult(NotFound, t)
      case Some(n) =>
        if n.read then
          LookupResult(Found(n, false), t)
        else if fault == CommitFails then
          LookupResult(StoreError, t)
        else
          var n' := MarkedRead(n, now);
          assert t[id := n'][id] != t[id];
          LookupResult(Found(n', true), t[id := n'])
  }

  /**
   * Looking up the same id and email again never writes: a first call that
   * did not fail already left the matching row read, so a second call
   * returns that row unchanged, and unexpired since nothing is committed.
   */
  lemma LookupIdempotent(t: Table, id: string, email: string, f1: StoreFault, f2: StoreFault, now1: Timestamp, now2: Timestamp)
    requires !Lookup(t, id, email, f1, now1).outcome.StoreError?
    ensures var first := Lookup(t, id, email, f1, now1);
            var second := Lookup(first.table, id, email, f2, now2);
            second.table == first.table &&
            (first.outcome.Found? && f2 != QueryFails ==> second.outcome == Found(first.outcome.newsletter, false))
  {
    var first := Lookup(t, id, email, f1, now1);
    if first.outcome.Found? {
      assert FirstMatch(first.table, id, email) == Some(first.outcome.newsletter);
    } else {
      assert FirstMatch(first.table, id, email) == None;
    }
  }

  /**
   * A freshly inserted row, still unread by the column default, goes from
   * unread to read exactly once: its first lookup commits `read` and the
   * update time, and a second lookup writes nothing.
   */
  lemma InsertedRowIsMarkedReadOnce(t: Table, id: string, content: string, email: string, imageUrl: string,
                                    createdAt: Timestamp, now1: Timestamp, now2: Timestamp)
    requires KeyedById(t) && id !in t
    ensures var t0 := t[id := Inserted(id, content, email, imageUrl, createdAt)];
            var first := Lookup(t0, id, email, NoFault, now1);
            var second := Lookup(first.table, id, email, NoFault, now2);
            && Commits(t0, id, email, NoFault)
            && first.outcome == Found(Newsletter(id, content, email, imageUrl, true, createdAt, Some(now1)), true)
            && first.table == t0[id := first.outcome.newsletter]
            && !Commits(first.table, id, email, NoFault)
            && second == LookupResult(Found(first.outcome.newsletter, false), first.table)
  {
    var t0 := t[id := Inserted(id, content, email, imageUrl, createdAt)];
    assert FirstMatch(t0, id, email) == Some(Inserted(id, content, email, imageUrl, createdAt));
    LookupIdempotent(t0, id, email, NoFault, NoFault, now1, now2);
  }

  /** A mismatched email on an existing id answers exactly as if the row were absent. */
  lemma WrongEmailIsIndistinguishable(t: Table, id: string, email: string, fault: StoreFault, now: Timestamp)
    requires id in t && t[id].email != email
    ensures Lookup(t, id, email, fault, now).outcome == Lookup(t - {id}, id, email, fault, now).outcome
    ensures Lookup(t, id, email, fault, now).table == t
  {
  }

  /** The `newsletters` table, held by the store and updated in place. */
  class NewsletterStore {
    var rows: Table

    ghost predicate Valid()
      reads this
    {
      KeyedById(rows)
    }

    /** A store over rows created elsewhere. */
    constructor (initial: Table)
      requires KeyedById(initial)
      ensures Valid() && rows == initial
    {
      rows := initial;
    }

    /**
     * `get_newsletter_by_id_and_email`: the in-place version of `Lookup`.
     * The `read` flag is set on the selected row and committed; a failing
     * commit rolls the change back.
     */
    method GetNewsletterByIdAndEmail(id: string, email: string, fault: StoreFault, now: Timestamp)
      returns (outcome: LookupOutcome)
      requires Valid()
      modifies this
      ensures Valid()
      ensures LookupResult(outcome, rows) == Lookup(old(rows), id, email, fault, now)
    {
      if fault == QueryFails {
        return StoreError;
      }
      if !(id in rows && rows[id].email == email) {
        return NotFound;
      }
      var newsletter := rows[id];
      var committed := false;
      if !newsletter.read {
        var pending := MarkedRead(newsletter, now);
        if fault == CommitFails {
          // rollback: the pending change is dropped and the error re-raised
          return StoreError;
        }
        rows := rows[id := pending];
        newsletter := pending;
        committed := true;
      }
      return Found(newsletter, committed);
    }
  }
}
