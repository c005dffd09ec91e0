/** Read-only queries over the MPA reference table.  Being functions of the
    table's rows, and the table being a constant of the store, they cannot
    change it. */
module MpaDbStorage {
  import opened Common
  import opened Model
  import opened Database

  /** getAllMpa: every row once, ascending by id. */
  function GetAllMpa(table: seq<Mpa>): (r: seq<Mpa>)
    ensures multiset(r) == multiset(table)
    ensures SortedById(r, MpaId)
  {
    SortByIdCorrect(table, MpaId);
    SortById(table, MpaId)
  }

  /** getMpaById: the first row with that id, or none for an unknown id. */
  function GetMpaById(table: seq<Mpa>, id: int): (r: Option<Mpa>)
    ensures r.Some? <==> id in MpaIds(table)
    ensures r.Some? ==> r.value in table && r.value.id == id
    decreases |table|
  {
    if table == [] then None
    else if table[0].id == id then Some(table[0])
    else
      assert table == [table[0]] + table[1..];
      GetMpaById(table[1..], id)
  }

  /** The lookup by id finds exactly the rows that getAllMpa lists. */
  lemma GetMpaByIdListed(table: seq<Mpa>, m: Mpa)
    requires UniqueMpaIds(table)
    ensures GetMpaById(table, m.id) == Some(m) <==> m in GetAllMpa(table)
  {
    assert m in GetAllMpa(table) <==> m in multiset(table);
    if m in table {
      var found := GetMpaById(table, m.id).value;
      var i :| 0 <= i < |table| && table[i] == m;
      var j :| 0 <= j < |table| && table[j] == found;
      assert table[i].id == table[j].id;
      assert i == j;
    }
  }
}
