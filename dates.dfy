/** The JavaScript `Date` operations the core relies on, kept abstract. A time
    value is an integer number of milliseconds since the epoch. */
module Dates {
  import opened JsValues

  /** `parse(s)` is `new Date(s).getTime()`, with None where that is NaN;
      `toIso(t)` is `new Date(t).toISOString()`. Both are supplied by the
      caller: the model does not re-implement JavaScript date parsing. */
  datatype DateLib = DateLib(parse: string -> Option<int>, toIso: int -> string)

  /** A `Date` holds at most 8.64e15 milliseconds either side of the epoch. */
  const MaxTime: int := 8_640_000_000_000_000

  predicate IsTimeValue(t: int) {
    -MaxTime <= t <= MaxTime
  }

  /** What the core takes for granted about `Date`: parsing yields a time value
      in range, and the ISO rendering of any such value is a non-empty string
      that parses back to it. */
  ghost predicate WellBehaved(d: DateLib) {
    && (forall s :: d.parse(s).Some? ==> IsTimeValue(d.parse(s).value))
    && (forall t :: IsTimeValue(t) ==> d.toIso(t) != "" && d.parse(d.toIso(t)) == Some(t))
  }

  /** A stored string is canonical when it parses and is its own ISO rendering. */
  predicate Canonical(d: DateLib, s: string) {
    d.parse(s).Some? && d.toIso(d.parse(s).value) == s
  }

  /** The ISO rendering of every instant a string parses to is canonical, so
      canonicalising a canonical string changes nothing. */
  lemma ParsedIsoIsCanonical(d: DateLib, s: string)
    requires WellBehaved(d)
    requires d.parse(s).Some?
    ensures Canonical(d, d.toIso(d.parse(s).value))
    ensures Canonical(d, s) ==> d.toIso(d.parse(s).value) == s
  {
    var t := d.parse(s).value;
    assert IsTimeValue(t);
    assert d.parse(d.toIso(t)) == Some(t);
  }
}
