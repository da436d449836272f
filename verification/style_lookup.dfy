/** The name-keyed lookup `style_lookup[name] = {...}`, filled in file order so that a
    later record with the same name replaces an earlier one. */
module StyleLookup {
  import opened StyleEntries

  /** The left fold over the kept records, in the order the loop meets them. */
  function BuildLookup(rs: seq<StyleRecord>): (m: map<string, StyleRecord>)
    ensures m.Keys == set r | r in rs :: r.name
    ensures forall n :: n in m ==> m[n].name == n && m[n] in rs
    decreases |rs|
  {
    if |rs| == 0 then
      map[]
    else
      var prefix := rs[..|rs| - 1];
      var last := rs[|rs| - 1];
      assert rs == prefix + [last];
      BuildLookup(prefix)[last.name := last]
  }

  /** Last write wins: the record at the last position carrying a name is the one the
      lookup holds for that name. */
  lemma {:induction false} LookupLastWriteWins(rs: seq<StyleRecord>, i: int)
    requires 0 <= i < |rs|
    requires forall j :: i < j < |rs| ==> rs[j].name != rs[i].name
    ensures rs[i].name in BuildLookup(rs) && BuildLookup(rs)[rs[i].name] == rs[i]
    decreases |rs|
  {
    var prefix, last := rs[..|rs| - 1], rs[|rs| - 1];
    assert BuildLookup(rs) == BuildLookup(prefix)[last.name := last];
    if i < |rs| - 1 {
      assert prefix[i] == rs[i];
      assert last.name != rs[i].name;
      LookupLastWriteWins(prefix, i);
    }
  }
}
