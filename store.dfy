/**
 * The record store: a map from table name to an ordered list of rows,
 * with linear-scan reads and whole-store persistence after every
 * successful write.
 */
module Store {
  import opened Wrappers
  import opened Text
  import opened Records

  type Tables = map<string, seq<Task>>

  /** The entries of a search object, as [key, value] pairs. */
  type Search = seq<(Field, string)>

  /** Array.prototype.findIndex with the test `row.id === id`: -1 when no row matches. */
  function FindIndex(rows: seq<Task>, id: string): (i: int)
    ensures -1 <= i < |rows|
    ensures 0 <= i ==> FirstWithId(rows, i, id)
    ensures i < 0 ==> IdAbsent(rows, id)
  {
    if rows == [] then -1
    else if rows[0].id == id then 0
    else
      var k := FindIndex(rows[1..], id);
      if k < 0 then -1 else k + 1
  }

  /**
   * The callback of the search filter: Array.prototype.some over the
   * entries, decoding each value before comparing. It stops at the first
   * hit, so a later value that cannot be decoded is never looked at.
   */
  function AnyMatches(row: Task, search: Search): Result<bool> {
    if search == [] then Ok(false)
    else match Decode(search[0].1)
      case None => Throw(URIError)
      case Some(term) =>
        if Contains(Lower(FieldValue(row, search[0].0)), Lower(term)) then Ok(true)
        else AnyMatches(row, search[1..])
  }

  /** Array.prototype.filter with `AnyMatches`: the first throw ends the scan. */
  function FilterRows(rows: seq<Task>, search: Search): Result<seq<Task>> {
    if rows == [] then Ok([])
    else match AnyMatches(rows[0], search)
      case Throw(e) => Throw(e)
      case Ok(keep) =>
        match FilterRows(rows[1..], search)
        case Throw(e) => Throw(e)
        case Ok(rest) => Ok((if keep then [rows[0]] else []) + rest)
  }

  /** The search with every value decoded, or None when some value cannot be. */
  function DecodeAll(search: Search): (r: Option<Search>)
    ensures r.Some? ==> |r.value| == |search|
    ensures r.Some? ==> forall k :: 0 <= k < |search| ==>
      r.value[k].0 == search[k].0 && Decode(search[k].1) == Some(r.value[k].1)
    ensures r.None? ==> exists k :: 0 <= k < |search| && Decode(search[k].1).None?
  {
    if search == [] then Some([])
    else match Decode(search[0].1)
      case None => None
      case Some(v) =>
        match DecodeAll(search[1..])
        case None => None
        case Some(rest) => Some([(search[0].0, v)] + rest)
  }

  /** Some key's value, lower-cased, contains that key's decoded term, lower-cased. */
  ghost predicate Matches(row: Task, terms: Search) {
    exists k :: 0 <= k < |terms| && Contains(Lower(FieldValue(row, terms[k].0)), Lower(terms[k].1))
  }

  /**
   * `r` is the order-preserving selection of the rows that match `terms`:
   * `idx` lists, in increasing order, the positions in `rows` of the rows
   * kept, and a position is listed exactly when its row matches.
   */
  ghost predicate SelectionAt(idx: seq<nat>, r: seq<Task>, rows: seq<Task>, terms: Search) {
    && |idx| == |r|
    && (forall k :: 0 <= k < |idx| ==> idx[k] < |rows| && r[k] == rows[idx[k]])
    && (forall k, l :: 0 <= k < l < |idx| ==> idx[k] < idx[l])
    && (forall i :: 0 <= i < |rows| ==> (i in idx <==> Matches(rows[i], terms)))
  }

  ghost predicate IsSelection(r: seq<Task>, rows: seq<Task>, terms: Search) {
    exists idx :: SelectionAt(idx, r, rows, terms)
  }

  /** Once every value decodes, the callback answers whether the row matches. */
  lemma {:induction false} AnyMatchesDecoded(row: Task, search: Search, terms: Search)
    requires DecodeAll(search) == Some(terms)
    ensures AnyMatches(row, search) == Ok(Matches(row, terms))
  {
    if search != [] {
      var v := Decode(search[0].1).value;
      var rest := DecodeAll(search[1..]).value;
      assert terms == [(search[0].0, v)] + rest;
      AnyMatchesDecoded(row, search[1..], rest);
      var hit := Contains(Lower(FieldValue(row, search[0].0)), Lower(v));
      if hit {
        assert terms[0] == (search[0].0, v);
      } else if Matches(row, rest) {
        var k :| 0 <= k < |rest| && Contains(Lower(FieldValue(row, rest[k].0)), Lower(rest[k].1));
        assert terms[k + 1] == rest[k];
      } else {
        forall k | 0 <= k < |terms|
          ensures !Contains(Lower(FieldValue(row, terms[k].0)), Lower(terms[k].1))
        {
          if k > 0 {
            assert terms[k] == rest[k - 1];
          }
        }
      }
    }
  }

  /** Every position of `tail` moved one place up. */
  function Shifted(tail: seq<nat>): (r: seq<nat>)
    ensures |r| == |tail|
    ensures forall k :: 0 <= k < |tail| ==> r[k] == tail[k] + 1
  {
    seq(|tail|, k requires 0 <= k < |tail| => tail[k] + 1)
  }

  /** Position `i + 1` is listed in `Shifted(tail)` exactly when `i` is listed in `tail`. */
  lemma ShiftedMember(tail: seq<nat>, i: nat)
    ensures i + 1 in Shifted(tail) <==> i in tail
  {
    var shifted := Shifted(tail);
    if i in tail {
      var k :| 0 <= k < |tail| && tail[k] == i;
      assert shifted[k] == i + 1;
    }
    if i + 1 in shifted {
      var k :| 0 <= k < |shifted| && shifted[k] == i + 1;
      assert tail[k] == i;
    }
  }

  /** A selection of `rows` extends to one of `[row] + rows`, keeping `row` exactly when it matches. */
  lemma SelectionStep(row: Task, rows: seq<Task>, tail: seq<nat>, rest: seq<Task>, terms: Search)
    returns (idx: seq<nat>)
    requires SelectionAt(tail, rest, rows, terms)
    ensures SelectionAt(idx, (if Matches(row, terms) then [row] else []) + rest, [row] + rows, terms)
  {
    var shifted := Shifted(tail);
    ShiftedPositions(row, rows, tail, rest, terms);
    ShiftedMatches(row, rows, tail, rest, terms);
    if Matches(row, terms) {
      idx := [0] + shifted;
      KeepFirst(row, rows, shifted, rest, terms);
    } else {
      idx := shifted;
      assert [] + rest == rest;
    }
  }

  /** Moving a selection of `rows` one place up picks the same rows, in the same order, out of `[row] + rows`. */
  lemma ShiftedPositions(row: Task, rows: seq<Task>, tail: seq<nat>, rest: seq<Task>, terms: Search)
    requires SelectionAt(tail, rest, rows, terms)
    ensures |Shifted(tail)| == |rest|
    ensures forall k :: 0 <= k < |rest| ==>
      0 < Shifted(tail)[k] < |rows| + 1 && rest[k] == ([row] + rows)[Shifted(tail)[k]]
    ensures forall k, l :: 0 <= k < l < |rest| ==> Shifted(tail)[k] < Shifted(tail)[l]
  {
    var all := [row] + rows;
    forall k | 0 <= k < |rest|
      ensures rest[k] == all[tail[k] + 1]
    {
      assert all[tail[k] + 1] == rows[tail[k]];
    }
  }

  /** Moving a selection of `rows` one place up lists exactly the matching positions after the first. */
  lemma ShiftedMatches(row: Task, rows: seq<Task>, tail: seq<nat>, rest: seq<Task>, terms: Search)
    requires SelectionAt(tail, rest, rows, terms)
    ensures forall i :: 0 < i < |rows| + 1 ==> (i in Shifted(tail) <==> Matches(([row] + rows)[i], terms))
    ensures 0 !in Shifted(tail)
  {
    var all := [row] + rows;
    forall i | 0 < i < |rows| + 1
      ensures i in Shifted(tail) <==> Matches(all[i], terms)
    {
      assert all[i] == rows[i - 1];
      ShiftedMember(tail, i - 1);
    }
  }

  /** Putting position 0 in front of a selection that avoids it also keeps `row`. */
  lemma KeepFirst(row: Task, rows: seq<Task>, shifted: seq<nat>, rest: seq<Task>, terms: Search)
    requires Matches(row, terms)
    requires |shifted| == |rest|
    requires forall k :: 0 <= k < |shifted| ==> 0 < shifted[k] < |rows| + 1 && rest[k] == ([row] + rows)[shifted[k]]
    requires forall k, l :: 0 <= k < l < |shifted| ==> shifted[k] < shifted[l]
    requires forall i :: 0 < i < |rows| + 1 ==> (i in shifted <==> Matches(([row] + rows)[i], terms))
    ensures SelectionAt([0] + shifted, [row] + rest, [row] + rows, terms)
  {
    FrontPositions(row, rows, shifted, rest);
    FrontMembers(row, rows, shifted, terms);
  }

  /** Position 0 in front of positions above 0 picks `row` in front of the rows they picked. */
  lemma FrontPositions(row: Task, rows: seq<Task>, shifted: seq<nat>, rest: seq<Task>)
    requires |shifted| == |rest|
    requires forall k :: 0 <= k < |shifted| ==> 0 < shifted[k] < |rows| + 1 && rest[k] == ([row] + rows)[shifted[k]]
    requires forall k, l :: 0 <= k < l < |shifted| ==> shifted[k] < shifted[l]
    ensures forall k :: 0 <= k < |shifted| + 1 ==>
      ([0] + shifted)[k] < |rows| + 1 && ([row] + rest)[k] == ([row] + rows)[([0] + shifted)[k]]
    ensures forall k, l :: 0 <= k < l < |shifted| + 1 ==> ([0] + shifted)[k] < ([0] + shifted)[l]
  {
    var idx, r := [0] + shifted, [row] + rest;
    forall k | 0 < k < |idx|
      ensures idx[k] == shifted[k - 1] && r[k] == rest[k - 1]
    {
    }
  }

  /** Position 0 in front of positions that list the later matches lists every match, `row` included. */
  lemma FrontMembers(row: Task, rows: seq<Task>, shifted: seq<nat>, terms: Search)
    requires Matches(row, terms)
    requires forall i :: 0 < i < |rows| + 1 ==> (i in shifted <==> Matches(([row] + rows)[i], terms))
    ensures forall i :: 0 <= i < |rows| + 1 ==> (i in [0] + shifted <==> Matches(([row] + rows)[i], terms))
  {
    var all := [row] + rows;
    forall i | 0 < i < |all|
      ensures i in [0] + shifted <==> i in shifted
    {
    }
  }

  /** With every value decodable, the filter keeps exactly the matching rows, in order. */
  lemma {:induction false} FilterRowsSelects(rows: seq<Task>, search: Search, terms: Search)
    returns (idx: seq<nat>)
    requires DecodeAll(search) == Some(terms)
    ensures FilterRows(rows, search).Ok?
    ensures SelectionAt(idx, FilterRows(rows, search).value, rows, terms)
  {
    if rows == [] {
      idx := [];
    } else {
      AnyMatchesDecoded(rows[0], search, terms);
      var tail := FilterRowsSelects(rows[1..], search, terms);
      var rest := FilterRows(rows[1..], search).value;
      idx := SelectionStep(rows[0], rows[1..], tail, rest, terms);
      assert [rows[0]] + rows[1..] == rows;
    }
  }

  /** The filter's result as a selection, for use in contracts. */
  lemma FilterRowsIsSelection(rows: seq<Task>, search: Search)
    ensures DecodeAll(search).Some? ==>
      FilterRows(rows, search).Ok? && IsSelection(FilterRows(rows, search).value, rows, DecodeAll(search).value)
  {
    if DecodeAll(search).Some? {
      var idx := FilterRowsSelects(rows, search, DecodeAll(search).value);
    }
  }

  /**
   * The filter throws only on a non-empty table whose search has a value
   * that cannot be decoded, and it does throw when the first value cannot
   * be decoded and there is a row to test.
   */
  lemma {:induction false} FilterRowsThrows(rows: seq<Task>, search: Search)
    ensures FilterRows(rows, search).Throw? ==>
      FilterRows(rows, search).error == URIError && rows != [] && DecodeAll(search).None?
    ensures rows != [] && search != [] && Decode(search[0].1).None? ==>
      FilterRows(rows, search) == Throw(URIError)
  {
    if DecodeAll(search).Some? {
      var idx := FilterRowsSelects(rows, search, DecodeAll(search).value);
    }
    if rows != [] {
      AnyMatchesThrows(rows[0], search);
      FilterRowsThrows(rows[1..], search);
    }
  }

  lemma {:induction false} AnyMatchesThrows(row: Task, search: Search)
    ensures AnyMatches(row, search).Throw? ==> AnyMatches(row, search).error == URIError
  {
    if search != [] && Decode(search[0].1).Some? {
      AnyMatchesThrows(row, search[1..]);
    }
  }

  /** Appending a row with a fresh identifier keeps identifiers unique and makes it the row found. */
  lemma AppendFresh(rows: seq<Task>, row: Task)
    requires IdAbsent(rows, row.id)
    ensures FindIndex(rows + [row], row.id) == |rows|
    ensures UniqueIds(rows) ==> UniqueIds(rows + [row])
  {
    var all := rows + [row];
    var i := FindIndex(all, row.id);
    assert all[|rows|] == row;
    assert forall j :: 0 <= j < |rows| ==> all[j] == rows[j];
  }

  /** Writing back a row with the same identifier at the index it was found. */
  lemma ReplaceFirst(rows: seq<Task>, i: int, row: Task)
    requires FirstWithId(rows, i, row.id)
    ensures FindIndex(rows[i := row], row.id) == i
    ensures UniqueIds(rows) ==> UniqueIds(rows[i := row])
  {
    var all := rows[i := row];
    assert all[i] == row;
    assert forall j :: 0 <= j < i ==> all[j] == rows[j];
  }

  /** Removing the first row with an identifier that no other row shares leaves none behind. */
  lemma {:induction false} RemoveFirst(rows: seq<Task>, i: int, id: string)
    requires FirstWithId(rows, i, id) && UniqueIds(rows)
    ensures |rows[..i] + rows[i + 1..]| == |rows| - 1
    ensures IdAbsent(rows[..i] + rows[i + 1..], id)
    ensures UniqueIds(rows[..i] + rows[i + 1..])
  {
    var r := rows[..i] + rows[i + 1..];
    assert forall j :: 0 <= j < |r| ==> r[j] == rows[if j < i then j else j + 1];
  }

  /** Splicing out a row keeps every remaining row's title and description non-empty. */
  lemma RemoveKeepsNonEmpty(rows: seq<Task>, i: int)
    requires 0 <= i < |rows| && NonEmptyFields(rows)
    ensures NonEmptyFields(rows[..i] + rows[i + 1..])
  {
    var r := rows[..i] + rows[i + 1..];
    assert forall j :: 0 <= j < |r| ==> r[j] == rows[if j < i then j else j + 1];
  }

  class Database {
    /** The in-memory store: table name to rows, in insertion order. */
    var tables: Tables
    /** What the database file holds (JSON encoding and file I/O are not modelled). */
    var disk: Tables
    /** How many times the store has been written to the file. */
    ghost var writes: nat

    /** The file mirrors memory. */
    ghost predicate Valid()
      reads this
    {
      disk == tables
    }

    /**
     * The store once its startup read has settled: `stored` is the parsed
     * file, or None when the file was missing or did not parse, in which
     * case the empty store is written out.
     */
    constructor (stored: Option<Tables>)
      ensures Valid()
      ensures stored.Some? ==> tables == stored.value && writes == 0
      ensures stored.None? ==> tables == map[] && writes == 1
    {
      match stored
      case Some(t) =>
        tables, disk, writes := t, t, 0;
      case None =>
        tables, disk, writes := map[], map[], 1;
    }

    /** `this.#database[table] ?? []` */
    function Rows(table: string): (rows: seq<Task>)
      reads this
      ensures table in tables ==> rows == tables[table]
      ensures table !in tables ==> rows == []
    {
      if table in tables then tables[table] else []
    }

    /** Write the whole store to the file. */
    method Persist()
      modifies this
      ensures tables == old(tables) && disk == tables && writes == old(writes) + 1
    {
      disk := tables;
      writes := writes + 1;
    }

    /**
     * All rows of `table` (none for a missing table), or, given a search,
     * the rows where some key's value contains that key's decoded term,
     * ignoring case.
     */
    function Select(table: string, search: Option<Search>): (r: Result<seq<Task>>)
      reads this
      ensures table !in tables ==> r == Ok([])
      ensures search.None? ==> r == Ok(Rows(table))
      ensures search.Some? && DecodeAll(search.value).Some? ==>
        r.Ok? && IsSelection(r.value, Rows(table), DecodeAll(search.value).value)
      ensures r.Throw? ==> r.error == URIError && search.Some? && DecodeAll(search.value).None?
      ensures search.Some? && search.value != [] && Decode(search.value[0].1).None? ==>
        r == if Rows(table) == [] then Ok([]) else Throw(URIError)
    {
      var data := Rows(table);
      if search.None? then Ok(data)
      else
        FilterRowsIsSelection(data, search.value);
        FilterRowsThrows(data, search.value);
        FilterRows(data, search.value)
    }

    /** The first row of `table` whose id is `id`; throws when the table does not exist. */
    function SelectByID(table: string, id: string): (r: Result<Option<Task>>)
      reads this
      ensures table !in tables <==> r == Throw(TypeError)
      ensures r.Throw? ==> r == Throw(TypeError)
      ensures table in tables ==> (r == Ok(None) <==> IdAbsent(tables[table], id))
      ensures r == Ok(None) ==> IdAbsent(tables[table], id)
      ensures r.Ok? && r.value.Some? ==>
        exists i :: FirstWithId(tables[table], i, id) && tables[table][i] == r.value.value
    {
      if table !in tables then Throw(TypeError)
      else
        var i := FindIndex(tables[table], id);
        if i > -1 then Ok(Some(tables[table][i])) else Ok(None)
    }

    /** Append `data` to `table`, creating the table when it is missing. */
    method Insert(table: string, data: Task) returns (r: Task)
      requires Valid()
      modifies this
      ensures Valid()
      ensures r == data
      ensures tables == old(tables)[table := old(Rows(table)) + [data]]
      ensures writes == old(writes) + 1
    {
      if table in tables {
        tables := tables[table := tables[table] + [data]];
      } else {
        assert [data] == Rows(table) + [data];
        tables := tables[table := [data]];
      }
      Persist();
      r := data;
    }

    /**
     * Replace the first row whose id is `data.id` by `data`, at the same
     * index; None, and no write, when there is no such row.
     */
    method Update(table: string, data: Task) returns (r: Result<Option<Task>>)
      requires Valid()
      modifies this
      ensures Valid()
      ensures table !in old(tables) ==> r == Throw(TypeError)
      ensures table in old(tables) && IdAbsent(old(tables[table]), data.id) ==> r == Ok(None)
      ensures r != Ok(Some(data)) ==> unchanged(this)
      ensures table in old(tables) && !IdAbsent(old(tables[table]), data.id) ==>
        var i := FindIndex(old(tables[table]), data.id);
        && r == Ok(Some(data))
        && tables == old(tables)[table := old(tables[table])[i := data]]
        && writes == old(writes) + 1
    {
      if table !in tables {
        return Throw(TypeError);
      }
      var i := FindIndex(tables[table], data.id);
      if i > -1 {
        tables := tables[table := tables[table][i := data]];
        Persist();
        return Ok(Some(data));
      }
      return Ok(None);
    }

    /** Remove the first row whose id is `id`; false, and no write, when there is none. */
    method Delete(table: string, id: string) returns (r: Result<bool>)
      requires Valid()
      modifies this
      ensures Valid()
      ensures table !in old(tables) ==> r == Throw(TypeError)
      ensures table in old(tables) ==> r == Ok(!IdAbsent(old(tables[table]), id))
      ensures r != Ok(true) ==> unchanged(this)
      ensures r == Ok(true) ==>
        var rows := old(tables[table]);
        var i := FindIndex(rows, id);
        && tables == old(tables)[table := rows[..i] + rows[i + 1..]]
        && writes == old(writes) + 1
    {
      if table !in tables {
        return Throw(TypeError);
      }
      var rows := tables[table];
      var i := FindIndex(rows, id);
      if i > -1 {
        tables := tables[table := rows[..i] + rows[i + 1..]];
        Persist();
        return Ok(true);
      }
      return Ok(false);
    }
  }

  /** A process restart reads back the file the last write left: the same tables. */
  method Restart(db: Database) returns (next: Database)
    requires db.Valid()
    ensures next.Valid() && next.tables == db.tables && next.writes == 0
  {
    next := new Database(Some(db.disk));
  }
}
