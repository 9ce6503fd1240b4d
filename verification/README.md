# DROP DOMAIN statement model

A Dafny model of jOOQ's `DropDomainImpl`, the query part behind
`DROP DOMAIN [IF EXISTS] <domain> [CASCADE | RESTRICT]`.

- `Sql` (sql.dfy) holds what the renderer writes: keyword tokens (`KDrop`,
  `KDomain`, `KIfExists`, `KCascade`, `KRestrict`), the blank written by
  `sql(' ')` as `Space`, the domain as an opaque `Name` token, and the
  begin/end markers of the try/catch emulation block for the
  `DROP_DOMAIN` statement type.
- `Dialects` (dialects.dfy) holds the dialect families and the
  `NO_SUPPORT_IF_EXISTS` table, which contains Firebird alone.
- `DropDomain` (drop_domain.dfy) holds the statement state. That is the
  domain, the final `dropDomainIfExists` flag, and the nullable `Boolean cascade` as
  `Option<bool>`. The module also holds both constructors, the `cascade()` /
  `restrict()` setters, `accept0` (the unwrapped statement) and `accept` (the
  wrapper that emulates IF EXISTS).
- `DropDomainSetters` (drop_domain_setters.dfy) covers chains of setter calls
  and the last-write-wins behaviour.
- `DropDomainRendering` (drop_domain_rendering.dfy) states properties of the
  renderer over every statement and every dialect: the IF EXISTS strategy, and
  how the output depends on the dialect.
- `DropDomainDecode` (drop_domain_decode.dfy) is a reader for rendered token
  sequences. It serves as the renderer's partner: rendering is lossless, and
  the reader accepts only renderings.

The Java setters mutate the statement and return the same instance. Here the
statement is an immutable value and each setter returns the updated value.
jOOQ stores the domain without a null check (DropDomainImpl.java:96), so no
construction error is modelled; a domain in this model is a value and cannot be
null.

## Model

| member | source | states |
|---|---|---|
| DropDomain.NewWithCascade | jOOQ/src/main/java/org/jooq/impl/DropDomainImpl.java:88-99 | the four-argument constructor stores domain, IF EXISTS flag and cascade exactly as given |
| DropDomain.New | jOOQ/src/main/java/org/jooq/impl/DropDomainImpl.java:75-86 | the three-argument constructor stores domain and IF EXISTS flag and leaves cascade null |
| DropDomain.Cascade | jOOQ/src/main/java/org/jooq/impl/DropDomainImpl.java:109-113 | `cascade()` selects CASCADE whatever was set before and leaves domain and IF EXISTS flag unchanged |
| DropDomain.Restrict | jOOQ/src/main/java/org/jooq/impl/DropDomainImpl.java:115-119 | `restrict()` selects RESTRICT whatever was set before and leaves domain and IF EXISTS flag unchanged |
| Dialects.SupportsIfExists | jOOQ/src/main/java/org/jooq/impl/DropDomainImpl.java:127-131 | native IF EXISTS is supported by every family except Firebird, and not by Firebird |
| DropDomain.Accept0 | jOOQ/src/main/java/org/jooq/impl/DropDomainImpl.java:144-167 | the statement starts with DROP DOMAIN. IF EXISTS appears iff requested and supported, at most once, right after DROP DOMAIN. The domain name appears exactly once, after the optional IF EXISTS, and nothing but the optional CASCADE or RESTRICT follows it. The last token is CASCADE, RESTRICT or the name, following the tri-state flag, and the other clause never appears. Blanks separate every word, and there are no emulation markers |
| DropDomain.Accept | jOOQ/src/main/java/org/jooq/impl/DropDomainImpl.java:133-142 | the output opens with the emulation block iff IF EXISTS is requested and unsupported. In that case it is exactly the unwrapped statement between the begin and end markers. Otherwise it is the unwrapped statement |
| DropDomainSetters.ApplyAll | jOOQ/src/main/java/org/jooq/impl/DropDomainImpl.java:109-119 | no chain of `cascade()` / `restrict()` calls changes the domain or the IF EXISTS flag |
| DropDomainSetters.LastWriteWins | jOOQ/src/main/java/org/jooq/impl/DropDomainImpl.java:109-119 | after any chain of setter calls the cascade flag is the one chosen by the last call, and an empty chain leaves it unchanged |
| DropDomainSetters.CascadeThenRestrict | jOOQ/src/main/java/org/jooq/impl/DropDomainImpl.java:109-119 | `cascade()` then `restrict()` gives the same statement as `restrict()` alone, with RESTRICT selected |
| DropDomainSetters.RestrictThenCascade | jOOQ/src/main/java/org/jooq/impl/DropDomainImpl.java:109-119 | `restrict()` then `cascade()` gives the same statement as `cascade()` alone, with CASCADE selected |
| DropDomainSetters.SettersIdempotent | jOOQ/src/main/java/org/jooq/impl/DropDomainImpl.java:109-119 | calling either setter twice equals calling it once |
| DropDomainSetters.RenderedClauseFollowsLastCall | jOOQ/src/main/java/org/jooq/impl/DropDomainImpl.java:162-166 | after a non-empty chain of setter calls the unwrapped statement (accept0) ends with the last call's keyword and never contains the other |
| DropDomainSetters.OutputFollowsLastCall | jOOQ/src/main/java/org/jooq/impl/DropDomainImpl.java:133-166 | after a non-empty chain of setter calls the full output (accept), wrapped or not, contains the last call's keyword and never the other |
| DropDomainRendering.StrategyIsObservable | jOOQ/src/main/java/org/jooq/impl/DropDomainImpl.java:133-158 | the native IF EXISTS keyword appears iff the strategy is native, and the emulation markers appear iff it is emulated. The two never occur together, and neither occurs without an IF EXISTS request |
| DropDomainRendering.IfExistsRequestIsNeverLost | jOOQ/src/main/java/org/jooq/impl/DropDomainImpl.java:133-158 | IF EXISTS is requested iff the output carries the native keyword or opens with the emulation block |
| DropDomainRendering.DialectMattersOnlyThroughCapability | jOOQ/src/main/java/org/jooq/impl/DropDomainImpl.java:144-155 | two families with the same IF EXISTS capability render every statement identically, because no family overrides the keyword pair |
| DropDomainRendering.PlainDropIsDialectIndependent | jOOQ/src/main/java/org/jooq/impl/DropDomainImpl.java:133-158 | without an IF EXISTS request every family renders what the default family renders |
| DropDomainRendering.DefaultDialectIfExists | jOOQ/src/main/java/org/jooq/impl/DropDomainImpl.java:144-167 | `age_domain` with IF EXISTS in the default dialect renders as DROP DOMAIN IF EXISTS age_domain |
| DropDomainRendering.DefaultDialectCascade | jOOQ/src/main/java/org/jooq/impl/DropDomainImpl.java:144-167 | `age_domain` without IF EXISTS, after `cascade()`, renders as DROP DOMAIN age_domain CASCADE |
| DropDomainRendering.FirebirdIfExistsIsEmulated | jOOQ/src/main/java/org/jooq/impl/DropDomainImpl.java:133-142 | `age_domain` with IF EXISTS in Firebird renders as DROP DOMAIN age_domain inside the emulation block |
| DropDomainDecode.DecodeAccept | jOOQ/src/main/java/org/jooq/impl/DropDomainImpl.java:133-167 | the reader recovers every statement from its rendering in every dialect, so rendering loses neither the IF EXISTS request nor the cascade choice |
| DropDomainDecode.DecodeBodyAccept0 | jOOQ/src/main/java/org/jooq/impl/DropDomainImpl.java:144-167 | the reader recovers domain and cascade choice from the unwrapped statement, and reads IF EXISTS exactly when the native keyword was written |
| DropDomainDecode.DecodeBodyOnlyRenderings | jOOQ/src/main/java/org/jooq/impl/DropDomainImpl.java:144-167 | every unwrapped statement the reader accepts is the unwrapped rendering of what it read, in every family that would not emulate it |
| DropDomainDecode.DecodeOnlyRenderings | jOOQ/src/main/java/org/jooq/impl/DropDomainImpl.java:133-167 | every sequence the reader accepts is the rendering of the statement it read, in every family whose IF EXISTS capability matches the text |

## Left out

- Configuration, `AbstractRowCountQuery` and executing the statement over a
  connection: these are I/O outside the rendering logic.
- The text produced by `Tools.beginTryCatch` / `Tools.endTryCatch`: it is
  dialect-specific code that is not part of this model. The two calls are
  opaque marker tokens parameterised by the `DROP_DOMAIN` statement type.
- How `ctx.visit(domain)` renders the qualified name, and how keywords are
  cased or quoted: both are delegated to code that is not part of this model.
  The domain is an opaque `Name` token and each keyword is one token.
- Failures of the output sink: the model produces a token sequence and
  has no sink that could fail.
- The identity of the returned instance and aliasing: the setters are
  functional updates, so "returns the same instance" becomes "returns the
  updated statement".
- Versioned dialects: the renderer compares `ctx.family()`, so only families
  are modelled. The family list is the open-source one, and every family other
  than Firebird behaves identically.
- The empty per-family cases of the keyword `switch`: only the default branch
  exists, and `DropDomainKeywords` keeps the per-family hook with that single
  behaviour. The imported but unused `K_TYPE` keyword is not modelled.
- The `$domain()`, `$dropDomainIfExists()` and `$cascade()` accessors are
  plain field reads, and `serialVersionUID` has no behaviour.
