/** A TableRef is the path from a collection's root document to one nesting
    level; doc-parts and fields are joined on it, by structural equality. */
module TableRefs {

  datatype TableRef = Root | Child(parent: TableRef, name: string)
}
