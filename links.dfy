/** The `links` table of src/lib/db.ts:
      id INTEGER PRIMARY KEY AUTOINCREMENT, shortId TEXT NOT NULL UNIQUE,
      originalUrl TEXT NOT NULL, expiresAt TEXT, createdAt DATETIME NOT NULL
      DEFAULT CURRENT_TIMESTAMP.
    The rows are kept in id order; `nextId` is the AUTOINCREMENT counter. */
module Links {
  import opened JsValues

  /** One row. `createdAt` is the instant of the insert, in milliseconds. */
  datatype Link = Link(id: nat, shortId: string, originalUrl: string, expiresAt: Option<string>, createdAt: int)

  /** The error sqlite reports when an insert breaks the UNIQUE constraint. */
  const UniqueViolation: string := "SQLITE_CONSTRAINT: UNIQUE constraint failed: links.shortId"

  predicate ShortIdTaken(rows: seq<Link>, shortId: string) {
    exists i :: 0 <= i < |rows| && rows[i].shortId == shortId
  }

  function IdAt(rows: seq<Link>, i: nat): nat
    requires i < |rows|
  {
    rows[i].id
  }

  function ShortIdAt(rows: seq<Link>, i: nat): string
    requires i < |rows|
  {
    rows[i].shortId
  }

  /** The table's constraints: ids are positive, below the counter and
      increasing, and no short id occurs twice. */
  predicate WellFormed(rows: seq<Link>, nextId: nat) {
    && nextId >= 1
    && (forall i :: 0 <= i < |rows| ==> 1 <= IdAt(rows, i) < nextId)
    && (forall i, j :: 0 <= i < j < |rows| ==> IdAt(rows, i) < IdAt(rows, j))
    && (forall i, j :: 0 <= i < j < |rows| ==> ShortIdAt(rows, i) != ShortIdAt(rows, j))
  }

  /** Two tables with the same ids and short ids, row by row, satisfy the
      constraints together. */
  lemma SameKeysWellFormed(rows: seq<Link>, other: seq<Link>, nextId: nat)
    requires WellFormed(rows, nextId) && |other| == |rows|
    requires forall i :: 0 <= i < |rows| ==> other[i].id == rows[i].id && other[i].shortId == rows[i].shortId
    ensures WellFormed(other, nextId)
  {
    forall i | 0 <= i < |rows| ensures IdAt(other, i) == IdAt(rows, i) && ShortIdAt(other, i) == ShortIdAt(rows, i) {
    }
  }

  /** `UPDATE links SET expiresAt = v WHERE id = ?`. */
  function WithExpiresAt(rows: seq<Link>, id: nat, v: Option<string>): seq<Link> {
    if rows == [] then []
    else [if rows[0].id == id then rows[0].(expiresAt := v) else rows[0]] + WithExpiresAt(rows[1..], id, v)
  }

  /** The update touches only the `expiresAt` of the row with that id: every
      row keeps its place, id, short id, URL and creation time. */
  lemma {:induction false} WithExpiresAtChangesOnlyExpiry(rows: seq<Link>, id: nat, v: Option<string>)
    ensures |WithExpiresAt(rows, id, v)| == |rows|
    ensures forall i :: 0 <= i < |rows| ==>
              WithExpiresAt(rows, id, v)[i] == if rows[i].id == id then rows[i].(expiresAt := v) else rows[i]
  {
    if rows != [] {
      WithExpiresAtChangesOnlyExpiry(rows[1..], id, v);
      var r := WithExpiresAt(rows, id, v);
      forall i | 0 < i < |rows|
        ensures r[i] == if rows[i].id == id then rows[i].(expiresAt := v) else rows[i]
      {
        assert r[i] == WithExpiresAt(rows[1..], id, v)[i - 1];
        assert rows[1..][i - 1] == rows[i];
      }
    }
  }

  /** An update keeps the table's constraints. */
  lemma WithExpiresAtWellFormed(rows: seq<Link>, nextId: nat, id: nat, v: Option<string>)
    requires WellFormed(rows, nextId)
    ensures WellFormed(WithExpiresAt(rows, id, v), nextId)
  {
    WithExpiresAtChangesOnlyExpiry(rows, id, v);
    SameKeysWellFormed(rows, WithExpiresAt(rows, id, v), nextId);
  }

  /** Appending a row with the next id and an unused short id keeps the
      table's constraints. */
  lemma AppendWellFormed(rows: seq<Link>, nextId: nat, link: Link)
    requires WellFormed(rows, nextId)
    requires link.id == nextId && !ShortIdTaken(rows, link.shortId)
    ensures WellFormed(rows + [link], nextId + 1)
  {
    var r := rows + [link];
    forall i | 0 <= i < |rows| ensures IdAt(r, i) == IdAt(rows, i) && ShortIdAt(r, i) == ShortIdAt(rows, i) {
    }
    assert IdAt(r, |rows|) == nextId && ShortIdAt(r, |rows|) == link.shortId;
    forall i, j | 0 <= i < j < |r| ensures ShortIdAt(r, i) != ShortIdAt(r, j) {
      if j < |rows| {
        assert ShortIdAt(rows, i) != ShortIdAt(rows, j);
      } else {
        assert rows[i].shortId != link.shortId;
      }
    }
    forall i, j | 0 <= i < j < |r| ensures IdAt(r, i) < IdAt(r, j) {
      if j < |rows| {
        assert IdAt(rows, i) < IdAt(rows, j);
      } else {
        assert IdAt(rows, i) < nextId;
      }
    }
  }

  class LinkTable {
    var rows: seq<Link>
    var nextId: nat

    ghost predicate Valid()
      reads this
    {
      WellFormed(rows, nextId)
    }

    /** A freshly created table is empty and its first id is 1. */
    constructor ()
      ensures Valid() && rows == [] && nextId == 1
    {
      rows := [];
      nextId := 1;
    }

    /** `INSERT INTO links (shortId, originalUrl, expiresAt) VALUES (?, ?, ?)`:
        fails, leaving the table as it was, when the short id is taken;
        otherwise appends one row with the next id. */
    method Insert(shortId: string, originalUrl: string, expiresAt: Option<string>, createdAt: int) returns (ok: bool)
      requires Valid()
      modifies this
      ensures Valid()
      ensures ok <==> !ShortIdTaken(old(rows), shortId)
      ensures ok ==> rows == old(rows) + [Link(old(nextId), shortId, originalUrl, expiresAt, createdAt)]
                     && nextId == old(nextId) + 1
      ensures !ok ==> rows == old(rows) && nextId == old(nextId)
    {
      if ShortIdTaken(rows, shortId) {
        return false;
      }
      var link := Link(nextId, shortId, originalUrl, expiresAt, createdAt);
      AppendWellFormed(rows, nextId, link);
      rows := rows + [link];
      nextId := nextId + 1;
      ok := true;
    }

    /** `UPDATE links SET expiresAt = ? WHERE id = ?`. */
    method SetExpiresAt(id: nat, v: Option<string>)
      requires Valid()
      modifies this
      ensures Valid()
      ensures rows == WithExpiresAt(old(rows), id, v) && nextId == old(nextId)
    {
      WithExpiresAtWellFormed(rows, nextId, id, v);
      rows := WithExpiresAt(rows, id, v);
    }
  }
}
