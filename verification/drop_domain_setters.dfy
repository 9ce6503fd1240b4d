/** Chains of the fluent `cascade()` / `restrict()` calls on one statement. */
module DropDomainSetters {
  import opened Sql
  import opened Dialects
  import opened DropDomain

  datatype SetterCall = CallCascade | CallRestrict

  function Apply(s: DropDomainImpl, c: SetterCall): DropDomainImpl {
    match c
    case CallCascade => Cascade(s)
    case CallRestrict => Restrict(s)
  }

  /** The statement after the calls, made in order from first to last. No
      chain of setter calls touches the domain or the IF EXISTS flag. */
  function ApplyAll(s: DropDomainImpl, calls: seq<SetterCall>): (r: DropDomainImpl)
    ensures r.domain == s.domain
    ensures r.dropDomainIfExists == s.dropDomainIfExists
    decreases |calls|
  {
    if |calls| == 0 then s else ApplyAll(Apply(s, calls[0]), calls[1..])
  }

  /** Last write wins: the cascade flag is the one chosen by the last call,
      and is left as it was by an empty chain. */
  lemma {:induction false} LastWriteWins(s: DropDomainImpl, calls: seq<SetterCall>)
    ensures ApplyAll(s, calls).cascade ==
      if |calls| == 0 then s.cascade else Some(calls[|calls| - 1] == CallCascade)
    decreases |calls|
  {
    if |calls| > 1 {
      LastWriteWins(Apply(s, calls[0]), calls[1..]);
      assert calls[1..][|calls[1..]| - 1] == calls[|calls| - 1];
    }
  }

  /** `cascade()` then `restrict()` is the same statement as `restrict()` alone. */
  lemma CascadeThenRestrict(s: DropDomainImpl)
    ensures Restrict(Cascade(s)) == Restrict(s)
    ensures Restrict(Cascade(s)).cascade == Some(false)
  {
  }

  /** `restrict()` then `cascade()` is the same statement as `cascade()` alone. */
  lemma RestrictThenCascade(s: DropDomainImpl)
    ensures Cascade(Restrict(s)) == Cascade(s)
    ensures Cascade(Restrict(s)).cascade == Some(true)
  {
  }

  /** Calling either setter twice in a row is the same as calling it once. */
  lemma SettersIdempotent(s: DropDomainImpl)
    ensures Cascade(Cascade(s)) == Cascade(s)
    ensures Restrict(Restrict(s)) == Restrict(s)
  {
  }

  /** The rendered statement ends with the keyword of the last setter call,
      and never carries the other one. */
  lemma {:induction false} RenderedClauseFollowsLastCall(s: DropDomainImpl, calls: seq<SetterCall>, f: Family)
    requires |calls| > 0
    ensures var r := Accept0(ApplyAll(s, calls), f);
      if calls[|calls| - 1] == CallCascade
      then r[|r| - 1] == KCascade && KRestrict !in r
      else r[|r| - 1] == KRestrict && KCascade !in r
  {
    LastWriteWins(s, calls);
  }

  /** The full output carries the keyword of the last setter call and never
      the other one, whether or not it is wrapped in the emulation block. */
  lemma {:induction false} OutputFollowsLastCall(s: DropDomainImpl, calls: seq<SetterCall>, f: Family)
    requires |calls| > 0
    ensures var r := Accept(ApplyAll(s, calls), f);
      if calls[|calls| - 1] == CallCascade
      then KCascade in r && KRestrict !in r
      else KRestrict in r && KCascade !in r
  {
    var t := ApplyAll(s, calls);
    RenderedClauseFollowsLastCall(s, calls, f);
    if Emulated(t, f) {
      assert Accept(t, f) == [BeginTryCatch(DropDomainStatement)] + Accept0(t, f) + [EndTryCatch(DropDomainStatement)];
    }
  }
}
