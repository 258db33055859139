/** The stored entity: a record `{id, name, value}` of the `Record` collection. */
module Records {
  datatype Record = Record(id: int, name: string, value: string)

  /** The collection's only invariant: no two records share an id (the unique index on `id`). */
  predicate DistinctIds(rs: seq<Record>) {
    forall i, j :: 0 <= i < j < |rs| ==> rs[i].id != rs[j].id
  }
}
