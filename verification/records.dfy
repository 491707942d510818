/** A journal record as it appears in the JSON files, and the title-keyed
    mapping of records. */
module Records {
  import opened Wrappers

  /** One journal. Every field may be missing; a missing `areas` or
      `catalogos` list reads as the empty list, as `entry.get(f, [])` does. */
  datatype Record = Record(
    title: Option<string>,
    id: Option<string>,
    url: Option<string>,
    similarity: Option<real>,
    areas: seq<string>,
    catalogos: seq<string>)

  /** A JSON object mapping each raw journal title to its record. */
  type Journal = map<string, Record>

  /** The `{}` record: nothing known. */
  const EmptyRecord := Record(None, None, None, None, [], [])

  /** Python truthiness of an optional string field (`entry.get(f)`). */
  predicate Truthy(o: Option<string>) {
    o.Some? && o.value != ""
  }

  /** The two list-valued fields, which the builder and the queries treat alike. */
  datatype Field = Areas | Catalogos

  function Values(r: Record, f: Field): seq<string> {
    match f
    case Areas => r.areas
    case Catalogos => r.catalogos
  }

  function WithValues(r: Record, f: Field, v: seq<string>): (r': Record)
    ensures Values(r', f) == v
    ensures forall g | g != f :: Values(r', g) == Values(r, g)
  {
    match f
    case Areas => r.(areas := v)
    case Catalogos => r.(catalogos := v)
  }
}
