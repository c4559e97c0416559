/** What the library loader hands the engine for a (name, version): the
    library's name, its field descriptors ("semantics") and whether it ships
    an upgrades script. */
module Schema {

  /** A field descriptor, discriminated by its `type`. Every descriptor
      has a `name`, the key its value sits under in the parent object. */
  datatype Field =
      /** A slot holding one embedded sub-content; `options` lists the
          offered "name major.minor" identifiers. */
    | LibraryField(name: string, options: seq<string>)
      /** A nested record of sub-fields; a group of exactly one sub-field
          stores that sub-field's value directly, without a wrapper. */
    | GroupField(name: string, fields: seq<Field>)
      /** A homogeneous list whose elements all conform to `field`. */
    | ListField(name: string, field: Field)
      /** Any other descriptor type ("text", "number", ...): never traversed. */
    | OtherField(name: string, kind: string)

  datatype Library = Library(name: string, semantics: seq<Field>, upgradesScript: bool)

  /** A descriptor with no `library` field anywhere inside it. */
  predicate Inert(f: Field) {
    match f
    case LibraryField(_, _) => false
    case GroupField(_, fields) => forall i :: 0 <= i < |fields| ==> Inert(fields[i])
    case ListField(_, field) => Inert(field)
    case OtherField(_, _) => true
  }
}
