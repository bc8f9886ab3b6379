/**
 * The schema tree's local state (src/components/SchemaExplorer.tsx): the
 * table list received from the application, where clicking a table flips
 * its `expanded` flag.
 */
module Explorer {
  import opened Wrappers
  import opened Types

  /** `{ ...table, expanded: !table.expanded }`: an absent flag reads as false. */
  function Flipped(t: Table): (r: Table)
    ensures r.expanded == Some(t.expanded != Some(true))
    ensures r.(expanded := t.expanded) == t
  {
    t.(expanded := Some(!t.expanded.GetOr(false)))
  }

  /** `toggleTable(id)`: every table with that id flipped, the rest kept, in order. */
  function Toggle(tables: seq<Table>, id: string): (r: seq<Table>)
    ensures |r| == |tables|
  {
    seq(|tables|, i requires 0 <= i < |tables| => if tables[i].id == id then Flipped(tables[i]) else tables[i])
  }

  /**
   * Each table with the id has its flag negated (absent counting as false)
   * and keeps everything else; each other table is unchanged.
   */
  lemma ToggleEffect(tables: seq<Table>, id: string)
    ensures var r := Toggle(tables, id);
      forall i :: 0 <= i < |tables| ==>
        && r[i].name == tables[i].name && r[i].id == tables[i].id
        && r[i].columns == tables[i].columns && r[i].database == tables[i].database
        && (tables[i].id == id ==> r[i].expanded == Some(tables[i].expanded != Some(true)))
        && (tables[i].id != id ==> r[i] == tables[i])
  {
  }

  /** Toggling an id no table has leaves the list as it was. */
  lemma ToggleUnknown(tables: seq<Table>, id: string)
    requires forall i :: 0 <= i < |tables| ==> tables[i].id != id
    ensures Toggle(tables, id) == tables
  {
  }

  /**
   * Toggling the same id twice restores every table whose flag was set;
   * a table without a flag comes back collapsed.
   */
  lemma {:induction false} ToggleTwice(tables: seq<Table>, id: string)
    ensures var r := Toggle(Toggle(tables, id), id);
      forall i :: 0 <= i < |tables| ==>
        r[i] == (if tables[i].expanded.None? && tables[i].id == id then tables[i].(expanded := Some(false)) else tables[i])
  {
    var once := Toggle(tables, id);
    var r := Toggle(once, id);
    forall i | 0 <= i < |tables|
      ensures r[i] == (if tables[i].expanded.None? && tables[i].id == id then tables[i].(expanded := Some(false)) else tables[i])
    {
      assert once[i].id == tables[i].id;
    }
  }
}
