/** Read-only queries over the Genres reference table.  Every list result is
    ordered by ascending id, as the stream sort after each query does. */
module GenreDbStorage {
  import opened Common
  import opened Model
  import opened Database

  /** Comparator.comparing(Genre::getId) over a query result. */
  function SortGenres(rows: seq<Genre>): (r: seq<Genre>)
    ensures multiset(r) == multiset(rows)
    ensures SortedById(r, GenreId)
  {
    SortByIdCorrect(rows, GenreId);
    SortById(rows, GenreId)
  }

  /** SELECT * FROM Genres WHERE id IN (ids): each row whose id is listed,
      once per occurrence in the table, in table order. */
  function RowsWithIds(table: seq<Genre>, ids: set<int>): (r: seq<Genre>)
    ensures forall g :: g in r <==> g in table && g.id in ids
    ensures forall g :: multiset(r)[g] == if g.id in ids then multiset(table)[g] else 0
    decreases |table|
  {
    if table == [] then []
    else
      assert table == [table[0]] + table[1..];
      (if table[0].id in ids then [table[0]] else []) + RowsWithIds(table[1..], ids)
  }

  /** The first row's id occurs nowhere else in a table with unique ids. */
  lemma HeadIdFresh(table: seq<Genre>)
    requires table != [] && UniqueGenreIds(table)
    ensures GenreIds(table) == {table[0].id} + GenreIds(table[1..])
    ensures table[0].id !in GenreIds(table[1..])
    ensures UniqueGenreIds(table[1..])
  {
    var rest := table[1..];
    forall h | h in rest ensures h.id != table[0].id {
      var k :| 0 <= k < |rest| && rest[k] == h;
      assert table[k + 1] == h;
    }
    assert table == [table[0]] + rest;
  }

  /** Splitting one fresh id off a set splits its intersection likewise. */
  lemma SplitCount(all: set<int>, rest: set<int>, ids: set<int>, y: int)
    requires all == {y} + rest && y !in rest
    ensures |all * ids| == |rest * ids| + (if y in ids then 1 else 0)
  {
    if y in ids {
      assert all * ids == (rest * ids) + {y};
    } else {
      assert all * ids == rest * ids;
    }
  }

  /** With unique ids, the rows found are as many as the listed ids present in
      the table. */
  lemma {:induction false} RowsWithIdsCount(table: seq<Genre>, ids: set<int>)
    requires UniqueGenreIds(table)
    ensures |RowsWithIds(table, ids)| == |GenreIds(table) * ids|
    decreases |table|
  {
    if table != [] {
      var g, rest := table[0], table[1..];
      HeadIdFresh(table);
      RowsWithIdsCount(rest, ids);
      SplitCount(GenreIds(table), GenreIds(rest), ids, g.id);
      assert |RowsWithIds(table, ids)| == (if g.id in ids then 1 else 0) + |RowsWithIds(rest, ids)|;
    }
  }

  /** A table whose ids are unique holds each row once. */
  lemma {:induction false} UniqueRowsOnce(table: seq<Genre>)
    requires UniqueGenreIds(table)
    ensures forall g :: multiset(table)[g] <= 1
    decreases |table|
  {
    if table != [] {
      var g, rest := table[0], table[1..];
      assert table == [g] + rest;
      UniqueRowsOnce(rest);
      forall k | 0 <= k < |rest| ensures rest[k] != g {
        assert table[k + 1] == rest[k];
      }
    }
  }

  /** getAllGenres: every row once, ascending by id. */
  function GetAllGenres(table: seq<Genre>): (r: seq<Genre>)
    ensures multiset(r) == multiset(table)
    ensures SortedById(r, GenreId)
  {
    SortGenres(table)
  }

  /** getGenreById: the first row with that id, or none; never an error. */
  function GetGenreById(table: seq<Genre>, id: int): (r: Option<Genre>)
    ensures r.Some? <==> id in GenreIds(table)
    ensures r.Some? ==> r.value in table && r.value.id == id
    decreases |table|
  {
    if table == [] then None
    else if table[0].id == id then Some(table[0])
    else
      assert table == [table[0]] + table[1..];
      GetGenreById(table[1..], id)
  }

  /** The lookup by id finds exactly the rows that getAllGenres lists. */
  lemma GetGenreByIdListed(table: seq<Genre>, g: Genre)
    requires UniqueGenreIds(table)
    ensures GetGenreById(table, g.id) == Some(g) <==> g in GetAllGenres(table)
  {
    assert g in GetAllGenres(table) <==> g in multiset(table);
    if g in table {
      var found := GetGenreById(table, g.id).value;
      var i :| 0 <= i < |table| && table[i] == g;
      var j :| 0 <= j < |table| && table[j] == found;
      assert table[i].id == table[j].id;
      assert i == j;
    }
  }

  /** getGenresByFilmId: the genres linked to the film, ascending by id; empty
      for a film without links or an unknown film. */
  function GetGenresByFilmId(table: seq<Genre>, filmGenres: set<(int, int)>, filmId: int): (r: seq<Genre>)
    ensures forall g :: g in r <==> g in table && (filmId, g.id) in filmGenres
    ensures SortedById(r, GenreId)
    ensures forall g :: multiset(r)[g] <= multiset(table)[g]
  {
    var linked := LinkedGenreIds(filmGenres, filmId);
    assert forall g: Genre :: g.id in linked <==> (filmId, g.id) in filmGenres;
    SortGenres(RowsWithIds(table, linked))
  }

  /** Over a table with unique ids, a film's genres come strictly ascending
      by id, so no genre is listed twice. */
  lemma GenresByFilmIdStrictlyAscending(table: seq<Genre>, filmGenres: set<(int, int)>, filmId: int)
    requires UniqueGenreIds(table)
    ensures var r := GetGenresByFilmId(table, filmGenres, filmId);
      forall i, j :: 0 <= i < j < |r| ==> r[i].id < r[j].id
  {
    StrictlyAscendingGenres(table, GetGenresByFilmId(table, filmGenres, filmId));
  }

  /** Rows drawn from a table with unique ids, no row more often than the
      table holds it, and sorted by id, have strictly ascending ids. */
  lemma StrictlyAscendingGenres(table: seq<Genre>, r: seq<Genre>)
    requires UniqueGenreIds(table) && SortedById(r, GenreId)
    requires forall g :: multiset(r)[g] <= multiset(table)[g]
    ensures forall i, j :: 0 <= i < j < |r| ==> r[i].id < r[j].id
  {
    UniqueRowsOnce(table);
    forall i, j | 0 <= i < j < |r| ensures r[i].id < r[j].id {
      assert GenreId(r[i]) <= GenreId(r[j]);
      if r[i].id == r[j].id {
        assert r[i] in multiset(table) && r[j] in multiset(table);
        var a :| 0 <= a < |table| && table[a] == r[i];
        var b :| 0 <= b < |table| && table[b] == r[j];
        assert a == b;
        TwiceCounted(r, i, j);
        assert false;
      }
    }
  }

  /** An entry found at two positions is counted at least twice. */
  lemma TwiceCounted<T>(s: seq<T>, i: int, j: int)
    requires 0 <= i < j < |s| && s[i] == s[j]
    ensures multiset(s)[s[i]] >= 2
  {
    assert s == s[..j] + [s[j]] + s[j + 1..];
    assert s[..j][i] == s[i];
    assert multiset(s[..j])[s[i]] >= 1;
  }

  /** getGenresByIds: empty for a null or empty id collection whatever the
      table holds; otherwise the rows whose id is listed, each row once however
      often its id is listed, ascending by id, unknown ids dropped. */
  function GetGenresByIds(table: seq<Genre>, ids: Option<seq<int>>): (r: seq<Genre>)
    ensures ids.None? || ids.value == [] ==> r == []
    ensures ids.Some? && ids.value != [] ==> forall g :: g in r <==> g in table && g.id in ids.value
    ensures SortedById(r, GenreId)
    ensures forall g :: multiset(r)[g] <= multiset(table)[g]
  {
    if ids.None? || ids.value == [] then []
    else SortGenres(RowsWithIds(table, Elements(ids.value)))
  }

  /** Over a table with unique ids, a by-ids result repeats no row. */
  lemma GenresByIdsOnce(table: seq<Genre>, ids: Option<seq<int>>)
    requires UniqueGenreIds(table)
    ensures forall g :: multiset(GetGenresByIds(table, ids))[g] <= 1
  {
    UniqueRowsOnce(table);
  }
}
