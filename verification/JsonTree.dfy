/** JSON values without doubles, as trees. Strings and names are C strings: what the accessors of
    mrbgems/json-with-casing/src/parson.c can see of them. */
module JsonTree {
  import opened Bytes
  import opened Entries

  // The range of intmax_t.
  type int64 = x: int | -0x8000_0000_0000_0000 <= x <= 0x7FFF_FFFF_FFFF_FFFF

  datatype Json =
    | Null
    | Boolean(b: bool)
    | Fixed(n: int64)
    | String(s: CString)
    | Array(items: seq<Json>)
    | Object(members: seq<Entry<Json>>)

  const MAX_NESTING: nat := 2048

  // No object anywhere in the tree has two members of the same name.
  ghost predicate DistinctNames(v: Json) {
    match v
    case Array(items) => forall i | 0 <= i < |items| :: DistinctNames(items[i])
    case Object(members) =>
      Distinct(members) && forall i | 0 <= i < |members| :: DistinctNames(members[i].value)
    case _ => true
  }

  // The tree has at most the given number of levels below its root.
  ghost predicate DepthAtMost(v: Json, levels: int) {
    match v
    case Array(items) => 0 <= levels && forall i | 0 <= i < |items| :: DepthAtMost(items[i], levels - 1)
    case Object(members) =>
      0 <= levels && forall i | 0 <= i < |members| :: DepthAtMost(members[i].value, levels - 1)
    case _ => 0 <= levels
  }
}
