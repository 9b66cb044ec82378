/**
 * How the detector's state is loaded: the joined (crate, owner) rows of the
 * two queries are grouped into one record per crate, the first query's
 * crates become the popular set, and the bit-flip index is built from them.
 * The queries themselves are not part of this model; their results are the
 * row sequences passed in.
 */
module Populate {
  import opened Crates
  import opened Bitflip

  /** One row of `get_top_crates` or `get_crates_to_check`: a crate's columns joined with one owner login. */
  datatype Row = Row(
    name: Name,
    login: Author,
    homepage: Option<string>,
    repository: Option<string>,
    documentation: Option<string>,
    description: Option<string>,
    downloads: int)

  /** `crates` while it is being filled, with its keys in insertion order. */
  datatype Table = Table(crates: map<Name, Crate>, order: seq<Name>)

  /** The record `setdefault` creates for a new crate: the row's columns except the login, and no authors yet. */
  function Fresh(r: Row): Crate {
    Crate([], r.homepage, r.repository, r.documentation, r.description, r.downloads)
  }

  /** A crate's columns, without its authors. */
  function Columns(c: Crate): Crate {
    c.(authors := [])
  }

  /** The order lists each key of the table exactly once. */
  ghost predicate Coherent(t: Table) {
    && (forall n :: n in t.order <==> n in t.crates)
    && (forall i, j :: 0 <= i < j < |t.order| ==> t.order[i] != t.order[j])
  }

  /** One iteration: `crates.setdefault(r['name'], {...})['authors'].append(r['login'])`. */
  function AddRow(t: Table, r: Row): (u: Table)
    ensures u.crates.Keys == t.crates.Keys + {r.name}
    ensures u.crates[r.name].authors == (if r.name in t.crates then t.crates[r.name].authors else []) + [r.login]
    ensures Columns(u.crates[r.name]) == (if r.name in t.crates then Columns(t.crates[r.name]) else Fresh(r))
    ensures forall n :: n in t.crates && n != r.name ==> u.crates[n] == t.crates[n]
    ensures u.order == if r.name in t.crates then t.order else t.order + [r.name]
  {
    var c := if r.name in t.crates then t.crates[r.name] else Fresh(r);
    Table(t.crates[r.name := c.(authors := c.authors + [r.login])],
          if r.name in t.crates then t.order else t.order + [r.name])
  }

  /** The table after every row of `rows`, in order. */
  function GroupRows(t: Table, rows: seq<Row>): (u: Table)
    ensures t.crates.Keys <= u.crates.Keys
    ensures t.order <= u.order
  {
    if rows == [] then t
    else AddRow(GroupRows(t, rows[..|rows| - 1]), rows[|rows| - 1])
  }

  /** Some row of `rows` is for crate `n`. */
  predicate NamedIn(rows: seq<Row>, n: Name) {
    exists i :: 0 <= i < |rows| && rows[i].name == n
  }

  /** The logins of the rows for crate `n`, in row order. */
  function LoginsOf(rows: seq<Row>, n: Name): seq<Author> {
    if rows == [] then []
    else LoginsOf(rows[..|rows| - 1], n) + (if rows[|rows| - 1].name == n then [rows[|rows| - 1].login] else [])
  }

  /** A crate no row names has no logins. */
  lemma {:induction false} LoginsOfUnnamed(rows: seq<Row>, n: Name)
    requires !NamedIn(rows, n)
    ensures LoginsOf(rows, n) == []
  {
    if rows != [] {
      LoginsOfUnnamed(rows[..|rows| - 1], n);
    }
  }

  /** Row `i` is the first row for its crate. */
  predicate FirstRowAt(rows: seq<Row>, i: nat)
    requires i < |rows|
  {
    forall j :: 0 <= j < i ==> rows[j].name != rows[i].name
  }

  /** The names of the rows, each once. */
  function NameSet(rows: seq<Row>): set<Name> {
    set i | 0 <= i < |rows| :: rows[i].name
  }

  lemma AddRowCoherent(t: Table, r: Row)
    requires Coherent(t)
    ensures Coherent(AddRow(t, r))
  {
  }

  /** Grouping keeps the order listing each key once. */
  lemma {:induction false} GroupRowsCoherent(t: Table, rows: seq<Row>)
    requires Coherent(t)
    ensures Coherent(GroupRows(t, rows))
  {
    if rows != [] {
      GroupRowsCoherent(t, rows[..|rows| - 1]);
      AddRowCoherent(GroupRows(t, rows[..|rows| - 1]), rows[|rows| - 1]);
    }
  }

  /**
   * After grouping, a crate has a record exactly when it had one before or
   * some row names it; its authors are the ones it had followed by the
   * logins of its rows, in order; and its other columns are the ones it had,
   * or those of its first row.
   */
  lemma {:induction false} GroupRowsRecords(t: Table, rows: seq<Row>, n: Name)
    ensures n in GroupRows(t, rows).crates <==> n in t.crates || NamedIn(rows, n)
    ensures n in GroupRows(t, rows).crates ==>
      GroupRows(t, rows).crates[n].authors
        == (if n in t.crates then t.crates[n].authors else []) + LoginsOf(rows, n)
    ensures n in t.crates ==> Columns(GroupRows(t, rows).crates[n]) == Columns(t.crates[n])
    ensures n !in t.crates && NamedIn(rows, n) ==>
      exists i :: 0 <= i < |rows| && rows[i].name == n && FirstRowAt(rows, i)
        && Columns(GroupRows(t, rows).crates[n]) == Fresh(rows[i])
  {
    if rows != [] {
      var init := rows[..|rows| - 1];
      var last := rows[|rows| - 1];
      GroupRowsRecords(t, init, n);
      var g := GroupRows(t, init);
      if NamedIn(init, n) {
        var i :| 0 <= i < |init| && init[i].name == n;
        assert rows[i].name == n;
      }
      if n !in t.crates && NamedIn(rows, n) {
        if NamedIn(init, n) {
          var i :| 0 <= i < |init| && init[i].name == n && FirstRowAt(init, i)
            && Columns(g.crates[n]) == Fresh(init[i]);
          assert rows[i] == init[i];
          assert FirstRowAt(rows, i) by {
            forall j | 0 <= j < i ensures rows[j].name != rows[i].name {
              assert rows[j] == init[j];
            }
          }
        } else {
          var i := |rows| - 1;
          assert rows[i] == last && last.name == n;
          LoginsOfUnnamed(init, n);
          assert FirstRowAt(rows, i) by {
            forall j | 0 <= j < i ensures rows[j].name != rows[i].name {
              assert rows[j] == init[j];
            }
          }
        }
      }
    }
  }

  /** Grouping adds exactly the names of the rows to the keys. */
  lemma GroupedKeys(t: Table, rows: seq<Row>)
    ensures GroupRows(t, rows).crates.Keys == t.crates.Keys + NameSet(rows)
  {
    forall n ensures n in GroupRows(t, rows).crates <==> n in t.crates.Keys + NameSet(rows) {
      GroupRowsRecords(t, rows, n);
    }
  }

  /**
   * A registry built from a coherent table whose popular names are keys and
   * whose bit-flip index is built from those names is valid.
   */
  lemma PopulatedValid(t: Table, popular: set<Name>, bitflips: map<Name, seq<Name>>, f: BlipFilter,
                       rawBlips: Name -> seq<Name>)
    requires Coherent(t) && popular <= t.crates.Keys
    requires IsBlipIndex(bitflips, popular, f, rawBlips)
    ensures Valid(Registry(t.crates, t.order, popular, bitflips))
  {
  }

  /** The loop of `populate_crate_lists` over one query's rows. */
  method AddRows(t0: Table, rows: seq<Row>) returns (t: Table)
    ensures t == GroupRows(t0, rows)
  {
    t := t0;
    var k := 0;
    while k < |rows|
      invariant 0 <= k <= |rows|
      invariant t == GroupRows(t0, rows[..k])
    {
      assert rows[..k + 1][..k] == rows[..k];
      t := AddRow(t, rows[k]);
      k := k + 1;
    }
    assert rows[..k] == rows;
  }

  /**
   * `populate_crate_lists` followed by `generate_bitflips`: None when the
   * first query does not yield exactly `mostPopular` distinct crates (the
   * program exits); otherwise the registry of the grouped rows of both
   * queries, with the first query's crates as the popular set. The program
   * as written builds its bit-flip index with `f == AsWritten`.
   */
  method PopulateCrateLists(top: seq<Row>, other: seq<Row>, mostPopular: int, f: BlipFilter,
                            rawBlips: Name -> seq<Name>)
    returns (r: Option<Registry>)
    ensures r.None? <==> |NameSet(top)| != mostPopular
    ensures r.Some? ==>
      && Valid(r.value)
      && r.value.popular == NameSet(top)
      && r.value.crates.Keys == NameSet(top) + NameSet(other)
      && r.value.crates == GroupRows(GroupRows(Table(map[], []), top), other).crates
      && r.value.order == GroupRows(GroupRows(Table(map[], []), top), other).order
      && IsBlipIndex(r.value.bitflips, r.value.popular, f, rawBlips)
  {
    var t := AddRows(Table(map[], []), top);
    GroupedKeys(Table(map[], []), top);
    var popular := t.crates.Keys;
    if |popular| != mostPopular {
      return None;
    }
    var t1 := AddRows(t, other);
    GroupedKeys(t, other);
    var bitflips := GenerateBitflips(popular, f, rawBlips);
    GroupRowsCoherent(Table(map[], []), top);
    GroupRowsCoherent(t, other);
    PopulatedValid(t1, popular, bitflips, f, rawBlips);
    r := Some(Registry(t1.crates, t1.order, popular, bitflips));
  }
}
