/**
 The three fixed groups of rule names whose `detail` payload the normaliser
 interprets specially, and a lookup table from a rule name to its group.
 */
module Rules {

  /** Rules whose `detail` may carry the application size in bytes. */
  const PackageSizeRules: seq<string> := ["PACKAGE_SIZE_LIMIT"]

  /** Rules whose `detail` may list offending `files` and `comps`. */
  const ContainsOtherRules: seq<string> :=
    ["CONTAINS_OTHER_PKG_JS", "CONTAINS_OTHER_PKG_COMPONENTS"]

  /** Rules whose `detail` may be the list of unused entries. */
  const ContainsUnusedRules: seq<string> :=
    ["CONTAINS_UNUSED_PLUGINS", "CONTAINS_UNUSED_COMPONENTS", "CONTAINS_UNUSED_CODES"]

  /** How a rule's `detail` is read; `Generic` for every other rule name. */
  datatype Category = PackageSize | ContainsOther | ContainsUnused | Generic

  /** The group a rule name belongs to, written as a lookup table.
      Its contract ties the table to the three name lists, and so also
      shows that no name sits in two groups. */
  function CategoryOf(name: string): (c: Category)
    ensures c == PackageSize <==> name in PackageSizeRules
    ensures c == ContainsOther <==> name in ContainsOtherRules
    ensures c == ContainsUnused <==> name in ContainsUnusedRules
    ensures c == Generic <==> name !in PackageSizeRules + ContainsOtherRules + ContainsUnusedRules
  {
    match name
    case "PACKAGE_SIZE_LIMIT" => PackageSize
    case "CONTAINS_OTHER_PKG_JS" => ContainsOther
    case "CONTAINS_OTHER_PKG_COMPONENTS" => ContainsOther
    case "CONTAINS_UNUSED_PLUGINS" => ContainsUnused
    case "CONTAINS_UNUSED_COMPONENTS" => ContainsUnused
    case "CONTAINS_UNUSED_CODES" => ContainsUnused
    case _ => Generic
  }
}
