/** The vocabulary the DROP DOMAIN renderer writes into a rendering context.

    Keywords are atomic tokens (their casing and quoting are chosen by the
    context's keyword renderer, which is not part of this model); the dropped
    domain is an opaque name token (its qualified rendering is delegated to the
    domain object); the separating blanks written with `sql(' ')` are explicit
    `Space` tokens; the dialect-specific error-suppressing block opened and
    closed around an emulated statement is a pair of marker tokens.
 */
module Sql {

  /** A reference to the domain type being dropped, opaque to the renderer. */
  datatype Domain = Domain(qualifiedName: seq<string>)

  /** The DDL statement kind handed to the try/catch emulation helpers.
      Only the kind used by DROP DOMAIN is modelled. */
  datatype DdlStatementType = DropDomainStatement

  datatype Token =
    | KDrop
    | KDomain
    | KIfExists
    | KCascade
    | KRestrict
    | Space
    | Name(domain: Domain)
    | BeginTryCatch(kind: DdlStatementType)
    | EndTryCatch(kind: DdlStatementType)

}
