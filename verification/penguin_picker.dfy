/**
 * "Pick A Penguin!": the penguin table filtered by species, sex and a maximum
 * body mass, then narrowed to the one penguin whose id the user picks from
 * the filtered table.
 */
module PenguinPicker {
  import opened Wrappers
  import opened Seqs

  /** A row of the penguin table; a missing sex or body mass is `None` (NaN). */
  datatype Penguin = Penguin(id: int, species: string, island: string, sex: Option<string>, bodyMassG: Option<real>)

  /** The three conditions of the mask; a missing body mass never compares `<=`. */
  predicate Matches(p: Penguin, species: string, sex: string, maxMass: real) {
    p.species == species && p.sex == Some(sex) && p.bodyMassG.Some? && p.bodyMassG.value <= maxMass
  }

  function MatchesAll(species: string, sex: string, maxMass: real): Penguin -> bool {
    p => Matches(p, species, sex, maxMass)
  }

  /**
   * `filtered_df`: the penguins of the chosen species and sex weighing at
   * most `maxMass`, every such penguin and every copy of its row, in table order. A penguin with no
   * recorded sex never appears.
   */
  function FilteredPenguins(df: seq<Penguin>, species: string, sex: string, maxMass: real): (r: seq<Penguin>)
    ensures forall p :: p in r ==>
      (p in df && p.species == species && p.sex == Some(sex) && p.bodyMassG.Some? && p.bodyMassG.value <= maxMass)
    ensures forall p :: p in r ==> p.sex.Some?
    ensures forall p :: p in df && Matches(p, species, sex, maxMass) ==> p in r
    ensures forall p :: multiset(r)[p] == if Matches(p, species, sex, maxMass) then multiset(df)[p] else 0
    ensures Subseq(r, df)
  {
    FilterSubseq(df, MatchesAll(species, sex, maxMass));
    FilterCounts(df, MatchesAll(species, sex, maxMass));
    Filter(df, MatchesAll(species, sex, maxMass))
  }

  /** Raising the mass bound never removes a penguin, and keeps their order. */
  lemma RaisingMassKeepsPenguins(df: seq<Penguin>, species: string, sex: string, m1: real, m2: real)
    requires m1 <= m2
    ensures Subseq(FilteredPenguins(df, species, sex, m1), FilteredPenguins(df, species, sex, m2))
    ensures forall p :: p in FilteredPenguins(df, species, sex, m1) ==> p in FilteredPenguins(df, species, sex, m2)
  {
    FilterMonotone(df, MatchesAll(species, sex, m1), MatchesAll(species, sex, m2));
  }

  function IdOf(p: Penguin): int { p.id }

  /** The ids offered by the id selectbox: `filtered_df['id'].unique()`. */
  function OfferedIds(filtered: seq<Penguin>): (r: seq<int>)
    ensures NoDups(r)
    ensures forall id :: id in r <==> exists p :: p in filtered && p.id == id
  {
    var ids := Map(filtered, IdOf);
    assert forall p :: p in filtered ==> p.id in ids by {
      forall p | p in filtered ensures p.id in ids {
        var i :| 0 <= i < |filtered| && filtered[i] == p;
        assert ids[i] == p.id;
      }
    }
    Distinct(ids)
  }

  function HasId(id: int): Penguin -> bool {
    (p: Penguin) => p.id == id
  }

  /**
   * The selection step: `None` is the "No penguins match" branch, taken exactly
   * when the filtered table is empty; otherwise `selected_penguin`, the rows
   * of the filtered table with the picked id, every copy, in table order.
   */
  function PickPenguin(filtered: seq<Penguin>, id: int): (r: Option<seq<Penguin>>)
    ensures r.None? <==> filtered == []
    ensures r.Some? ==> forall p :: p in r.value ==> p in filtered && p.id == id
    ensures r.Some? ==> forall p :: p in filtered && p.id == id ==> p in r.value
    ensures r.Some? ==> forall p :: multiset(r.value)[p] == if p.id == id then multiset(filtered)[p] else 0
    ensures r.Some? ==> Subseq(r.value, filtered)
  {
    if filtered == [] then None
    else
      FilterSubseq(filtered, HasId(id));
      FilterCounts(filtered, HasId(id));
      Some(Filter(filtered, HasId(id)))
  }

  /** An id offered by the selectbox always selects at least one penguin. */
  lemma OfferedIdSelectsPenguin(filtered: seq<Penguin>, id: int)
    requires id in OfferedIds(filtered)
    ensures PickPenguin(filtered, id).Some? && PickPenguin(filtered, id).value != []
  {
    var p :| p in filtered && p.id == id;
  }
}
