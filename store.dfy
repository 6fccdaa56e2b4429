/**
  The `links` table as the edge functions see it through PostgREST: a
  sequence of rows in insertion order, read with equality filters followed
  by `.single()`, and written by a single insert.
 */
module Store {
  import opened Wrappers

  /**
    A row of `links`, restricted to the columns the core reads or writes.
    Times are milliseconds since the epoch.
   */
  datatype Link = Link(
    shortId: string,
    longUrl: string,
    customAlias: Option<string>,
    expiresAt: Option<int>,
    disabled: bool)

  /** The filters the core issues against `links`. */
  datatype Filter =
    | ShortIdIs(code: string)          // .eq('short_id', code)
    | AliasIs(alias: string)           // .eq('custom_alias', alias)
    | ShortIdOrAliasIs(key: string)    // .or('short_id.eq.<key>,custom_alias.eq.<key>')

  predicate Satisfies(l: Link, f: Filter) {
    match f
    case ShortIdIs(c) => l.shortId == c
    case AliasIs(a) => l.customAlias == Some(a)
    case ShortIdOrAliasIs(k) => l.shortId == k || l.customAlias == Some(k)
  }

  /** The rows a filter selects, in table order. */
  function Select(rows: seq<Link>, f: Filter): (r: seq<Link>)
    ensures |r| <= |rows|
    ensures forall l :: l in r <==> l in rows && Satisfies(l, f)
    ensures r == [] <==> forall l :: l in rows ==> !Satisfies(l, f)
  {
    if rows == [] then []
    else
      var init, last := rows[..|rows| - 1], rows[|rows| - 1];
      assert rows == init + [last];
      Select(init, f) + (if Satisfies(last, f) then [last] else [])
  }

  /**
    `.single()`: the row when exactly one row matched; otherwise no data
    (PostgREST reports an error, which the handlers treat as "no row").
   */
  function Single(matches: seq<Link>): Option<Link> {
    if |matches| == 1 then Some(matches[0]) else None
  }

  /** The unique constraints `links` carries: on `short_id`, and on non-null `custom_alias`. */
  ghost predicate UniqueKeys(rows: seq<Link>) {
    forall i, j :: 0 <= i < j < |rows| ==>
      rows[i].shortId != rows[j].shortId &&
      (rows[i].customAlias.Some? ==> rows[i].customAlias != rows[j].customAlias)
  }

  /** What issuance maintains: a link created with an alias also carries it as its short_id. */
  ghost predicate AliasesAreCodes(rows: seq<Link>) {
    forall i :: 0 <= i < |rows| && rows[i].customAlias.Some? ==> rows[i].customAlias.value == rows[i].shortId
  }

  /** Whether the unique constraints let `link` be inserted next to `rows`. */
  predicate Admits(rows: seq<Link>, link: Link) {
    && (forall l :: l in rows ==> l.shortId != link.shortId)
    && (link.customAlias.Some? ==> forall l :: l in rows ==> l.customAlias != link.customAlias)
  }

  /**
    Under the table's constraints and the issuance invariant, no filter the
    core uses selects two rows, so `.single()` fails only when nothing matches.
   */
  lemma {:induction false} SelectAtMostOne(rows: seq<Link>, f: Filter)
    requires UniqueKeys(rows) && AliasesAreCodes(rows)
    ensures |Select(rows, f)| <= 1
  {
    if rows != [] {
      var init, last := rows[..|rows| - 1], rows[|rows| - 1];
      assert rows == init + [last];
      SelectAtMostOne(init, f);
      if Satisfies(last, f) {
        forall l | l in init
          ensures !Satisfies(l, f)
        {
          var i :| 0 <= i < |init| && init[i] == l;
          assert rows[i] == l;
        }
      }
    }
  }

  /** `.single()` on such a filter finds a row exactly when some row satisfies it, and returns that row. */
  lemma SingleFindsPresent(rows: seq<Link>, f: Filter)
    requires UniqueKeys(rows) && AliasesAreCodes(rows)
    ensures Single(Select(rows, f)).Some? <==> exists l :: l in rows && Satisfies(l, f)
    ensures Single(Select(rows, f)).Some? ==>
      Single(Select(rows, f)).value in rows && Satisfies(Single(Select(rows, f)).value, f)
  {
    SelectAtMostOne(rows, f);
    var m := Select(rows, f);
    if exists l :: l in rows && Satisfies(l, f) {
      var l :| l in rows && Satisfies(l, f);
      assert l in m;
    }
    if |m| == 1 {
      assert m[0] in m;
    }
  }

  /** Two distinct rows that satisfy a filter are both selected. */
  lemma {:induction false} SelectKeepsBoth(rows: seq<Link>, f: Filter, i: nat, j: nat)
    requires i < j < |rows| && Satisfies(rows[i], f) && Satisfies(rows[j], f)
    ensures |Select(rows, f)| >= 2
  {
    var init := rows[..|rows| - 1];
    assert rows == init + [rows[|rows| - 1]];
    assert init[i] == rows[i];
    if j == |rows| - 1 {
      assert rows[i] in init;
    } else {
      assert init[j] == rows[j];
      SelectKeepsBoth(init, f, i, j);
    }
  }

  /** A row appended to the table is selected after the rows already there. */
  lemma SelectAppend(rows: seq<Link>, link: Link, f: Filter)
    ensures Select(rows + [link], f) == Select(rows, f) + (if Satisfies(link, f) then [link] else [])
  {
    assert (rows + [link])[..|rows|] == rows;
  }

  /** An insert the constraints admit keeps them, and keeps the issuance invariant for a link that keeps it. */
  lemma InsertKeepsInvariants(rows: seq<Link>, link: Link)
    requires UniqueKeys(rows) && AliasesAreCodes(rows)
    requires Admits(rows, link)
    requires link.customAlias.Some? ==> link.customAlias.value == link.shortId
    ensures UniqueKeys(rows + [link]) && AliasesAreCodes(rows + [link])
  {
    var rows' := rows + [link];
    forall i, j | 0 <= i < j < |rows'|
      ensures rows'[i].shortId != rows'[j].shortId
      ensures rows'[i].customAlias.Some? ==> rows'[i].customAlias != rows'[j].customAlias
    {
      if j == |rows| {
        assert rows'[i] in rows;
      }
    }
  }

  /** The `links` table: rows in insertion order, read by filter and written by insert. */
  class LinkStore {
    var rows: seq<Link>

    /** The table's unique constraints, and every alias equal to its row's short id. */
    ghost predicate Valid()
      reads this
    {
      UniqueKeys(rows) && AliasesAreCodes(rows)
    }

    constructor ()
      ensures Valid() && rows == []
    {
      rows := [];
    }

    /** `select ... where <f>` followed by `.single()`. */
    method SelectSingle(f: Filter) returns (r: Option<Link>)
      ensures r.Some? <==> |Select(rows, f)| == 1
      ensures r.Some? ==> r.value in rows && Satisfies(r.value, f)
    {
      var matches := Select(rows, f);
      r := Single(matches);
      if r.Some? {
        assert matches[0] in matches;
      }
    }

    /** `insert(...)`: rejected, and nothing written, when a unique constraint would be broken. */
    method Insert(link: Link) returns (ok: bool)
      modifies this
      ensures ok == Admits(old(rows), link)
      ensures rows == if ok then old(rows) + [link] else old(rows)
    {
      ok := Admits(rows, link);
      if ok {
        rows := rows + [link];
      }
    }
  }
}
