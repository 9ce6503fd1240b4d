/** Properties of the DROP DOMAIN renderer over all statements and dialects. */
module DropDomainRendering {
  import opened Sql
  import opened Dialects
  import opened DropDomain

  /** Each strategy is visible in the output and excludes the others: the
      native keyword and the emulation block never occur together, and
      neither occurs when IF EXISTS is not requested. */
  lemma StrategyIsObservable(s: DropDomainImpl, f: Family)
    ensures var r := Accept(s, f);
      && (Strategy(s, f) == Native <==> KIfExists in r)
      && (Strategy(s, f) == Emulation <==> BeginTryCatch(DropDomainStatement) in r)
      && (Strategy(s, f) == Emulation <==> EndTryCatch(DropDomainStatement) in r)
      && (Strategy(s, f) == NotRequested <==>
            KIfExists !in r && BeginTryCatch(DropDomainStatement) !in r)
  {
  }

  /** The IF EXISTS request always shows in the output, natively or emulated. */
  lemma IfExistsRequestIsNeverLost(s: DropDomainImpl, f: Family)
    ensures var r := Accept(s, f);
      s.dropDomainIfExists <==> KIfExists in r || r[0] == BeginTryCatch(DropDomainStatement)
  {
  }

  /** The dialect matters only through its IF EXISTS capability: the keyword
      pair has no per-family override. */
  lemma DialectMattersOnlyThroughCapability(s: DropDomainImpl, f: Family, g: Family)
    requires SupportsIfExists(f) == SupportsIfExists(g)
    ensures Accept(s, f) == Accept(s, g)
  {
  }

  /** Without an IF EXISTS request every dialect renders the same text. */
  lemma PlainDropIsDialectIndependent(s: DropDomainImpl, f: Family)
    requires !s.dropDomainIfExists
    ensures Accept(s, f) == Accept(s, Default)
  {
  }

  // Concrete renderings of the `age_domain` statement.

  const AgeDomain := Domain(["age_domain"])

  lemma DefaultDialectIfExists()
    ensures Accept(New(AgeDomain, true), Default)
         == [KDrop, Space, KDomain, Space, KIfExists, Space, Name(AgeDomain)]
  {
  }

  lemma DefaultDialectCascade()
    ensures Accept(Cascade(New(AgeDomain, false)), Default)
         == [KDrop, Space, KDomain, Space, Name(AgeDomain), Space, KCascade]
  {
  }

  lemma FirebirdIfExistsIsEmulated()
    ensures Accept(New(AgeDomain, true), Firebird)
         == [BeginTryCatch(DropDomainStatement),
             KDrop, Space, KDomain, Space, Name(AgeDomain),
             EndTryCatch(DropDomainStatement)]
  {
  }
}
