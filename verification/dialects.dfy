/** SQL dialect families and the capability table the DROP DOMAIN renderer
    consults. The renderer only ever asks for the context's dialect family. */
module Dialects {

  /** The dialect families of the open-source distribution. */
  datatype Family =
    | Default
    | Cubrid
    | Derby
    | Firebird
    | H2
    | Hsqldb
    | Ignite
    | MariaDB
    | MySQL
    | Postgres
    | SQLite

  /** The families that have no native `IF EXISTS` clause on `DROP DOMAIN`. */
  const NoSupportIfExists: set<Family> := {Firebird}

  /** Whether the family can render `DROP DOMAIN IF EXISTS` natively. */
  predicate SupportsIfExists(f: Family)
    ensures SupportsIfExists(f) <==> f != Firebird
  {
    f !in NoSupportIfExists
  }
}
