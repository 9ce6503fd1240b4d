/** The `DROP DOMAIN [IF EXISTS] <domain> [CASCADE | RESTRICT]` statement:
    its state, its two fluent setters and its dialect-dependent rendering. */
module DropDomain {
  import opened Sql
  import opened Dialects

  /** A nullable value: jOOQ's boxed `Boolean`, where `None` is `null`. */
  datatype Option<T> = None | Some(value: T)

  /** The statement state. `cascade` is tri-state: `None` (neither clause),
      `Some(true)` (CASCADE) or `Some(false)` (RESTRICT). */
  datatype DropDomainImpl = DropDomainImpl(
    domain: Domain,
    dropDomainIfExists: bool,
    cascade: Option<bool>
  )

  /** The four-argument constructor: every argument is stored as given. The
      domain is not validated. */
  function NewWithCascade(domain: Domain, dropDomainIfExists: bool, cascade: Option<bool>): (s: DropDomainImpl)
    ensures s.domain == domain
    ensures s.dropDomainIfExists == dropDomainIfExists
    ensures s.cascade == cascade
  {
    DropDomainImpl(domain, dropDomainIfExists, cascade)
  }

  /** The three-argument constructor, which delegates with a null cascade. */
  function New(domain: Domain, dropDomainIfExists: bool): (s: DropDomainImpl)
    ensures s.domain == domain
    ensures s.dropDomainIfExists == dropDomainIfExists
    ensures s.cascade.None?
  {
    NewWithCascade(domain, dropDomainIfExists, None)
  }

  /** `cascade()`: selects CASCADE, whatever was selected before. */
  function Cascade(s: DropDomainImpl): (r: DropDomainImpl)
    ensures r.cascade == Some(true)
    ensures r.domain == s.domain && r.dropDomainIfExists == s.dropDomainIfExists
  {
    s.(cascade := Some(true))
  }

  /** `restrict()`: selects RESTRICT, whatever was selected before. */
  function Restrict(s: DropDomainImpl): (r: DropDomainImpl)
    ensures r.cascade == Some(false)
    ensures r.domain == s.domain && r.dropDomainIfExists == s.dropDomainIfExists
  {
    s.(cascade := Some(false))
  }

  // ---------------------------------------------------------------------------
  // Rendering
  // ---------------------------------------------------------------------------

  /** How a render realises the IF EXISTS request: not at all, with the native
      keyword, or by the error-suppressing block. */
  datatype IfExistsStrategy = NotRequested | Native | Emulation

  function Strategy(s: DropDomainImpl, f: Family): IfExistsStrategy {
    if !s.dropDomainIfExists then NotRequested
    else if SupportsIfExists(f) then Native
    else Emulation
  }

  /** Whether IF EXISTS is requested but has to be emulated by wrapping the
      statement in the dialect's error-suppressing block. */
  predicate Emulated(s: DropDomainImpl, f: Family) {
    Strategy(s, f) == Emulation
  }

  /** Whether the native IF EXISTS keyword is written. */
  predicate NativeIfExists(s: DropDomainImpl, f: Family) {
    Strategy(s, f) == Native
  }

  /** The per-family spelling of the DROP DOMAIN keyword pair. No family
      overrides it, so every family takes the default spelling. */
  function DropDomainKeywords(f: Family): seq<Token> {
    match f
    case _ => [KDrop, Space, KDomain]
  }

  /** The optional trailing clause chosen by the tri-state cascade flag. */
  function CascadeClause(cascade: Option<bool>): seq<Token> {
    match cascade
    case None => []
    case Some(true) => [Space, KCascade]
    case Some(false) => [Space, KRestrict]
  }

  /** Position of the domain name in the unwrapped statement. */
  function NamePosition(s: DropDomainImpl, f: Family): nat {
    if NativeIfExists(s, f) then 6 else 4
  }

  /** The unwrapped statement text, `accept0`. */
  function Accept0(s: DropDomainImpl, f: Family): (r: seq<Token>)
    // DROP DOMAIN always comes first
    ensures |r| >= 5 && r[..3] == [KDrop, Space, KDomain]
    // IF EXISTS is written iff requested and natively supported, only right
    // after DROP DOMAIN
    ensures KIfExists in r <==> NativeIfExists(s, f)
    ensures forall i | 0 <= i < |r| && r[i] == KIfExists :: i == 4
    // exactly one name token, the statement's domain, after the optional IF EXISTS
    ensures NamePosition(s, f) < |r| && r[NamePosition(s, f)] == Name(s.domain)
    ensures forall i | 0 <= i < |r| && r[i].Name? :: i == NamePosition(s, f)
    // the trailing token follows the tri-state cascade flag
    ensures s.cascade == Some(true) ==> r[|r| - 1] == KCascade && KRestrict !in r
    ensures s.cascade == Some(false) ==> r[|r| - 1] == KRestrict && KCascade !in r
    ensures s.cascade.None? ==> r[|r| - 1] == Name(s.domain) && KCascade !in r && KRestrict !in r
    // nothing but the optional clause follows the name
    ensures |r| == NamePosition(s, f) + (if s.cascade.None? then 1 else 3)
    // words are separated by single blanks, and there are no emulation markers
    ensures |r| % 2 == 1
    ensures forall i | 0 <= i < |r| :: (r[i] == Space <==> i % 2 == 1)
    ensures forall i | 0 <= i < |r| :: !r[i].BeginTryCatch? && !r[i].EndTryCatch?
  {
    DropDomainKeywords(f)
      + (if NativeIfExists(s, f) then [Space, KIfExists] else [])
      + [Space, Name(s.domain)]
      + CascadeClause(s.cascade)
  }

  /** The statement text, `accept`: the unwrapped statement, enclosed in the
      error-suppressing block exactly when IF EXISTS must be emulated. */
  function Accept(s: DropDomainImpl, f: Family): (r: seq<Token>)
    ensures |r| >= 5
    ensures Emulated(s, f) <==> r[0] == BeginTryCatch(DropDomainStatement)
    ensures Emulated(s, f) ==>
      && |r| == |Accept0(s, f)| + 2
      && r[1..|r| - 1] == Accept0(s, f)
      && r[|r| - 1] == EndTryCatch(DropDomainStatement)
    ensures !Emulated(s, f) ==> r == Accept0(s, f)
  {
    if Emulated(s, f) then
      [BeginTryCatch(DropDomainStatement)] + Accept0(s, f) + [EndTryCatch(DropDomainStatement)]
    else
      Accept0(s, f)
  }
}
