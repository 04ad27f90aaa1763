/** The repair pass of scripts/normalize-expires.js: one walk over the rows of
    `links` that clears an `expiresAt` that does not parse as a date and
    rewrites one that parses but is not in canonical ISO form, logging a line
    for each change. */
module NormalizeExpires {
  import opened JsValues
  import opened Text
  import opened Dates
  import opened Links

  /** What the pass does to one stored value. */
  datatype Fix = Keep | Clear | Rewrite(iso: string)

  function FixFor(d: DateLib, v: Option<string>): Fix {
    if !Truthy(OrNull(v)) then Keep
    else
      match d.parse(v.value)
      case None => Clear
      case Some(t) => if d.toIso(t) != v.value then Rewrite(d.toIso(t)) else Keep
  }

  /** A value needs repair when it is a non-empty string that is not canonical. */
  predicate NeedsRepair(d: DateLib, v: Option<string>) {
    Truthy(OrNull(v)) && !Canonical(d, v.value)
  }

  /** The pass writes to a row exactly when its value needs repair. */
  lemma FixedIffNeedsRepair(d: DateLib, v: Option<string>)
    ensures FixFor(d, v) != Keep <==> NeedsRepair(d, v)
  {
  }

  function Applied(f: Fix, v: Option<string>): Option<string> {
    match f
    case Keep => v
    case Clear => None
    case Rewrite(iso) => Some(iso)
  }

  /** The row as the pass leaves it. */
  function Repaired(d: DateLib, row: Link): Link {
    row.(expiresAt := Applied(FixFor(d, row.expiresAt), row.expiresAt))
  }

  /** The stored value after the pass: unchanged when absent or empty, NULL
      when it does not parse, otherwise the ISO form of the instant it parses
      to; no other column changes. */
  lemma RepairedRow(d: DateLib, row: Link)
    ensures var r := Repaired(d, row);
            && r.id == row.id && r.shortId == row.shortId
            && r.originalUrl == row.originalUrl && r.createdAt == row.createdAt
            && (!Truthy(OrNull(row.expiresAt)) ==> r == row)
            && (Truthy(OrNull(row.expiresAt)) && d.parse(row.expiresAt.value).None? ==> r.expiresAt == None)
            && (Truthy(OrNull(row.expiresAt)) && d.parse(row.expiresAt.value).Some?
                ==> r.expiresAt == Some(d.toIso(d.parse(row.expiresAt.value).value)))
  {
  }

  function RepairedRows(d: DateLib, rows: seq<Link>): (r: seq<Link>)
    ensures |r| == |rows|
  {
    if rows == [] then [] else RepairedRows(d, rows[..|rows| - 1]) + [Repaired(d, rows[|rows| - 1])]
  }

  lemma {:induction false} RepairedRowsAt(d: DateLib, rows: seq<Link>, i: nat)
    requires i < |rows|
    ensures RepairedRows(d, rows)[i] == Repaired(d, rows[i])
  {
    var n := |rows| - 1;
    if i < n {
      RepairedRowsAt(d, rows[..n], i);
    }
  }

  /** The number of rows whose value needs repair: the number of writes. */
  function RepairCount(d: DateLib, rows: seq<Link>): nat {
    if rows == [] then 0
    else RepairCount(d, rows[..|rows| - 1]) + (if NeedsRepair(d, rows[|rows| - 1].expiresAt) then 1 else 0)
  }

  /** One line of the script's console output. */
  datatype LogEntry = Cleared(id: nat, value: string) | Normalized(id: nat, from: string, to: string) | Finished

  /** The text `console.log` prints for an entry. */
  function Message(e: LogEntry): string {
    match e
    case Cleared(id, value) => "Clearing invalid expiresAt for id=" + Decimal(id) + " (value=\"" + value + "\")"
    case Normalized(id, from, to) => "Normalizing id=" + Decimal(id) + ": " + from + " -> " + to
    case Finished => "Normalization complete"
  }

  /** The line logged for one row, if any. */
  function LogFor(d: DateLib, row: Link): seq<LogEntry> {
    match FixFor(d, row.expiresAt)
    case Keep => []
    case Clear => [Cleared(row.id, row.expiresAt.value)]
    case Rewrite(iso) => [Normalized(row.id, row.expiresAt.value, iso)]
  }

  function RepairLog(d: DateLib, rows: seq<Link>): seq<LogEntry> {
    if rows == [] then [] else RepairLog(d, rows[..|rows| - 1]) + LogFor(d, rows[|rows| - 1])
  }

  /** One log line per write. */
  lemma {:induction false} LogLengthIsRepairCount(d: DateLib, rows: seq<Link>)
    ensures |RepairLog(d, rows)| == RepairCount(d, rows)
  {
    if rows != [] {
      LogLengthIsRepairCount(d, rows[..|rows| - 1]);
    }
  }

  /** At most one write per row. */
  lemma {:induction false} RepairCountBound(d: DateLib, rows: seq<Link>)
    ensures RepairCount(d, rows) <= |rows|
  {
    if rows != [] {
      RepairCountBound(d, rows[..|rows| - 1]);
    }
  }

  /** The pass keeps the table's constraints. */
  lemma RepairedRowsWellFormed(d: DateLib, rows: seq<Link>, nextId: nat)
    requires WellFormed(rows, nextId)
    ensures WellFormed(RepairedRows(d, rows), nextId)
  {
    forall i | 0 <= i < |rows| ensures RepairedRows(d, rows)[i].id == rows[i].id
      && RepairedRows(d, rows)[i].shortId == rows[i].shortId {
      RepairedRowsAt(d, rows, i);
    }
    SameKeysWellFormed(rows, RepairedRows(d, rows), nextId);
  }

  /** After the pass every value that is present and non-empty parses and is
      its own canonical form. */
  lemma AllCanonicalAfterRepair(d: DateLib, rows: seq<Link>)
    requires WellBehaved(d)
    ensures forall i :: 0 <= i < |rows| && Truthy(OrNull(RepairedRows(d, rows)[i].expiresAt))
              ==> Canonical(d, RepairedRows(d, rows)[i].expiresAt.value)
  {
    forall i | 0 <= i < |rows| && Truthy(OrNull(RepairedRows(d, rows)[i].expiresAt))
      ensures Canonical(d, RepairedRows(d, rows)[i].expiresAt.value)
    {
      RepairedRowsAt(d, rows, i);
      var v := rows[i].expiresAt;
      if d.parse(v.value).Some? {
        ParsedIsoIsCanonical(d, v.value);
      }
    }
  }

  lemma {:induction false} NoneNeedRepair(d: DateLib, rows: seq<Link>)
    requires forall i :: 0 <= i < |rows| ==> !NeedsRepair(d, rows[i].expiresAt)
    ensures RepairCount(d, rows) == 0
    ensures RepairedRows(d, rows) == rows
  {
    if rows != [] {
      var n := |rows| - 1;
      NoneNeedRepair(d, rows[..n]);
      FixedIffNeedsRepair(d, rows[n].expiresAt);
      assert rows[..n] + [rows[n]] == rows;
    }
  }

  /** A second pass writes nothing and changes nothing. */
  lemma SecondPassIsNoOp(d: DateLib, rows: seq<Link>)
    requires WellBehaved(d)
    ensures RepairCount(d, RepairedRows(d, rows)) == 0
    ensures RepairedRows(d, RepairedRows(d, rows)) == RepairedRows(d, rows)
  {
    AllCanonicalAfterRepair(d, rows);
    NoneNeedRepair(d, RepairedRows(d, rows));
  }

  /** The update for row `i` of the snapshot, on a table whose first `i`
      rows are done, changes row `i` alone. */
  lemma UpdateAt(d: DateLib, s: seq<Link>, nextId: nat, i: nat, v: Option<string>)
    requires WellFormed(s, nextId) && i < |s|
    ensures WithExpiresAt(RepairedRows(d, s[..i]) + s[i..], s[i].id, v)
            == RepairedRows(d, s[..i]) + [s[i].(expiresAt := v)] + s[i + 1..]
  {
    var cur := RepairedRows(d, s[..i]) + s[i..];
    var want := RepairedRows(d, s[..i]) + [s[i].(expiresAt := v)] + s[i + 1..];
    WithExpiresAtChangesOnlyExpiry(cur, s[i].id, v);
    forall j | 0 <= j < |s| ensures WithExpiresAt(cur, s[i].id, v)[j] == want[j] {
      if j < i {
        RepairedRowsAt(d, s[..i], j);
        assert cur[j].id == s[j].id;
        assert IdAt(s, j) < IdAt(s, i);
      } else if j > i {
        assert cur[j] == s[j];
        assert IdAt(s, i) < IdAt(s, j);
      }
    }
  }

  lemma Extend(d: DateLib, s: seq<Link>, i: nat)
    requires i < |s|
    ensures RepairedRows(d, s[..i + 1]) == RepairedRows(d, s[..i]) + [Repaired(d, s[i])]
    ensures RepairCount(d, s[..i + 1]) == RepairCount(d, s[..i]) + (if NeedsRepair(d, s[i].expiresAt) then 1 else 0)
  {
    assert s[..i + 1][..i] == s[..i];
  }

  lemma LogStep(d: DateLib, s: seq<Link>, i: nat)
    requires i < |s|
    ensures RepairLog(d, s[..i + 1]) == RepairLog(d, s[..i]) + LogFor(d, s[i])
  {
    assert s[..i + 1][..i] == s[..i];
  }

  /** A row the pass leaves alone. */
  lemma KeepStep(d: DateLib, s: seq<Link>, i: nat)
    requires i < |s| && FixFor(d, s[i].expiresAt) == Keep
    ensures RepairedRows(d, s[..i]) + s[i..] == RepairedRows(d, s[..i + 1]) + s[i + 1..]
    ensures RepairCount(d, s[..i + 1]) == RepairCount(d, s[..i])
  {
    Extend(d, s, i);
    FixedIffNeedsRepair(d, s[i].expiresAt);
    assert s[i..] == [s[i]] + s[i + 1..];
  }

  /** A row the pass updates. */
  lemma WriteStep(d: DateLib, s: seq<Link>, nextId: nat, i: nat)
    requires WellFormed(s, nextId) && i < |s| && FixFor(d, s[i].expiresAt) != Keep
    ensures WithExpiresAt(RepairedRows(d, s[..i]) + s[i..], s[i].id, Applied(FixFor(d, s[i].expiresAt), s[i].expiresAt))
            == RepairedRows(d, s[..i + 1]) + s[i + 1..]
    ensures RepairCount(d, s[..i + 1]) == RepairCount(d, s[..i]) + 1
  {
    Extend(d, s, i);
    FixedIffNeedsRepair(d, s[i].expiresAt);
    UpdateAt(d, s, nextId, i, Applied(FixFor(d, s[i].expiresAt), s[i].expiresAt));
  }

  /** The body of the loop for the row at index `i` of the snapshot `s`:
      skip an empty value, clear one that does not parse, rewrite one that is
      not canonical, logging each change. With the rows before `i` done, it
      leaves the rows up to `i` done and extends the log and the count of
      writes by what that row contributes. */
  method RepairRow(table: LinkTable, d: DateLib, ghost s: seq<Link>, i: nat, row: Link) returns (line: seq<LogEntry>, wrote: bool)
    requires table.Valid() && WellFormed(s, table.nextId)
    requires i < |s| && row == s[i]
    requires table.rows == RepairedRows(d, s[..i]) + s[i..]
    modifies table
    ensures table.Valid() && table.nextId == old(table.nextId)
    ensures table.rows == RepairedRows(d, s[..i + 1]) + s[i + 1..]
    ensures wrote <==> NeedsRepair(d, row.expiresAt)
    ensures line == LogFor(d, row)
    ensures RepairLog(d, s[..i + 1]) == RepairLog(d, s[..i]) + line
    ensures RepairCount(d, s[..i + 1]) == RepairCount(d, s[..i]) + (if wrote then 1 else 0)
  {
    LogStep(d, s, i);
    FixedIffNeedsRepair(d, row.expiresAt);
    line, wrote := [], false;
    if !Truthy(OrNull(row.expiresAt)) {
      KeepStep(d, s, i);
      return;
    }
    var parsed := d.parse(row.expiresAt.value);
    if parsed.None? {
      line := [Cleared(row.id, row.expiresAt.value)];
      WriteStep(d, s, table.nextId, i);
      table.SetExpiresAt(row.id, None);
      wrote := true;
    } else {
      var iso := d.toIso(parsed.value);
      if iso != row.expiresAt.value {
        line := [Normalized(row.id, row.expiresAt.value, iso)];
        WriteStep(d, s, table.nextId, i);
        table.SetExpiresAt(row.id, Some(iso));
        wrote := true;
      } else {
        KeepStep(d, s, i);
      }
    }
  }

  /** Before the first row nothing is done; after the last, everything is. */
  lemma LoopBounds(d: DateLib, s: seq<Link>)
    ensures RepairedRows(d, s[..0]) + s[0..] == s
    ensures RepairCount(d, s[..0]) == 0 && RepairLog(d, s[..0]) == []
    ensures RepairedRows(d, s[..|s|]) + s[|s|..] == RepairedRows(d, s)
    ensures RepairCount(d, s[..|s|]) == RepairCount(d, s) && RepairLog(d, s[..|s|]) == RepairLog(d, s)
  {
    assert s[..0] == [] && s[0..] == s;
    assert s[..|s|] == s && s[|s|..] == [];
    assert RepairedRows(d, s) + [] == RepairedRows(d, s);
  }

  /** The script: reads every row, then updates each one that needs it. The
      table ends as RepairedRows of the rows it started with, the number of
      updates is RepairCount, and the log is RepairLog and a final line. */
  method Normalize(table: LinkTable, d: DateLib) returns (log: seq<LogEntry>, writes: nat)
    requires table.Valid()
    modifies table
    ensures table.Valid()
    ensures table.rows == RepairedRows(d, old(table.rows)) && table.nextId == old(table.nextId)
    ensures writes == RepairCount(d, old(table.rows))
    ensures log == RepairLog(d, old(table.rows)) + [Finished]
  {
    var rows := table.rows;
    log, writes := [], 0;
    var i := 0;
    LoopBounds(d, rows);
    assert WellFormed(rows, old(table.nextId));
    while i < |rows|
      invariant 0 <= i <= |rows|
      invariant table.Valid() && table.nextId == old(table.nextId)
      invariant table.rows == RepairedRows(d, rows[..i]) + rows[i..]
      invariant writes == RepairCount(d, rows[..i])
      invariant log == RepairLog(d, rows[..i])
    {
      var line, wrote := RepairRow(table, d, rows, i, rows[i]);
      log := log + line;
      if wrote {
        writes := writes + 1;
      }
      i := i + 1;
    }
    log := log + [Finished];
  }
}
